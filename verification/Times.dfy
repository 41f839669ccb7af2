/** Wall and monotonic clock values, and the pair of server timestamps. */
module Times {

  /** Nanoseconds; a clock that is not available is 0. */
  datatype Time = Time(wall: int, mono: int) {
    predicate IsZero() { wall == 0 && mono == 0 }
  }

  const NO_TIME := Time(0, 0)

  datatype Timestamp = Timestamp(receive: Time, send: Time) {
    predicate IsBothMono() { receive.mono != 0 && send.mono != 0 }
    predicate IsBothWall() { receive.wall != 0 && send.wall != 0 }
  }

  const NO_STAMP := Timestamp(NO_TIME, NO_TIME)
}
