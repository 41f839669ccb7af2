/** Wildcard matching of fill names: leftmost-greedy search decides the declarative meaning of `*`. */
module Glob {

  import opened Octets

  const STAR: byte := 42

  // What a pattern means.

  function Stars(pattern: Text): nat
  {
    if pattern == [] then 0 else (if pattern[0] == STAR then 1 else 0) + Stars(pattern[1..])
  }

  /** The pattern with its k-th `*` replaced by fills[k]. */
  function Replace(pattern: Text, fills: seq<Text>): Text
    requires |fills| == Stars(pattern)
  {
    if pattern == [] then []
    else if pattern[0] == STAR then fills[0] + Replace(pattern[1..], fills[1..])
    else [pattern[0]] + Replace(pattern[1..], fills)
  }

  ghost predicate Matches(pattern: Text, subj: Text)
  {
    exists fills: seq<Text> :: |fills| == Stars(pattern) && Replace(pattern, fills) == subj
  }

  // The string functions the source takes from its library.

  function Split(pattern: Text): (parts: seq<Text>)
    ensures |parts| == Stars(pattern) + 1
  {
    if pattern == [] then [[]]
    else
      var parts := Split(pattern[1..]);
      if pattern[0] == STAR then [[]] + parts
      else [[pattern[0]] + parts[0]] + parts[1..]
  }

  predicate OccursAt(s: Text, part: Text, k: nat)
  {
    k + |part| <= |s| && s[k..k + |part|] == part
  }

  /** The leftmost index of part in s, or -1. */
  function Index(s: Text, part: Text): (idx: int)
    ensures idx == -1 || (0 <= idx && OccursAt(s, part, idx))
    ensures forall k: nat :: OccursAt(s, part, k) ==> 0 <= idx <= k
  {
    IndexFrom(s, part, 0)
  }

  function IndexFrom(s: Text, part: Text, i: nat): (idx: int)
    requires i <= |s|
    ensures idx == -1 || (i <= idx && OccursAt(s, part, idx))
    ensures forall k: nat :: i <= k && OccursAt(s, part, k) ==> i <= idx <= k
    decreases |s| - i
  {
    if OccursAt(s, part, i) then i
    else if i == |s| then -1
    else IndexFrom(s, part, i + 1)
  }

  predicate HasSuffix(s: Text, part: Text)
  {
    |part| <= |s| && s[|s| - |part|..] == part
  }

  // The parts left to find, each preceded by any string, the last one ending the subject.

  function Joined(fills: seq<Text>, parts: seq<Text>): Text
    requires |fills| == |parts|
  {
    if parts == [] then [] else fills[0] + parts[0] + Joined(fills[1..], parts[1..])
  }

  ghost predicate Floating(parts: seq<Text>, s: Text)
  {
    exists fills: seq<Text> :: |fills| == |parts| && Joined(fills, parts) == s
  }

  lemma {:induction false} ReplaceIsJoined(pattern: Text, fills: seq<Text>)
    requires |fills| == Stars(pattern)
    ensures Replace(pattern, fills) == Split(pattern)[0] + Joined(fills, Split(pattern)[1..])
  {
    if pattern != [] {
      var parts := Split(pattern[1..]);
      if pattern[0] == STAR {
        ReplaceIsJoined(pattern[1..], fills[1..]);
        assert Split(pattern)[0] == [] && Split(pattern)[1..] == parts;
        assert Replace(pattern, fills) == fills[0] + Replace(pattern[1..], fills[1..]);
        JoinedStep(fills, parts);
      } else {
        ReplaceIsJoined(pattern[1..], fills);
        assert Split(pattern)[1..] == parts[1..];
        assert Replace(pattern, fills) == [pattern[0]] + Replace(pattern[1..], fills);
      }
    }
  }

  lemma MatchesIsFloating(pattern: Text, subj: Text)
    ensures var parts := Split(pattern);
            Matches(pattern, subj) <==> parts[0] <= subj && Floating(parts[1..], subj[|parts[0]|..])
  {
    var parts := Split(pattern);
    if Matches(pattern, subj) {
      var fills :| |fills| == Stars(pattern) && Replace(pattern, fills) == subj;
      ReplaceIsJoined(pattern, fills);
      assert subj[|parts[0]|..] == Joined(fills, parts[1..]);
    }
    if parts[0] <= subj && Floating(parts[1..], subj[|parts[0]|..]) {
      var fills :| |fills| == |parts[1..]| && Joined(fills, parts[1..]) == subj[|parts[0]|..];
      ReplaceIsJoined(pattern, fills);
      assert subj == parts[0] + subj[|parts[0]|..];
    }
  }

  lemma JoinedStep(fills: seq<Text>, parts: seq<Text>)
    requires |fills| == |parts| > 0
    ensures Joined(fills, parts) == fills[0] + (parts[0] + Joined(fills[1..], parts[1..]))
  {
  }

  /** A filler can take up more of the subject in front of it. */
  lemma Absorb(front: Text, parts: seq<Text>, s: Text)
    requires parts != [] && Floating(parts, s)
    ensures Floating(parts, front + s)
  {
    var fills :| |fills| == |parts| && Joined(fills, parts) == s;
    var longer := [front + fills[0]] + fills[1..];
    assert longer[1..] == fills[1..];
    JoinedStep(fills, parts);
    JoinedStep(longer, parts);
    assert Joined(longer, parts) == front + s;
  }

  lemma FloatingAt(parts: seq<Text>, s: Text, k: nat)
    requires parts != [] && OccursAt(s, parts[0], k) && Floating(parts[1..], s[k + |parts[0]|..])
    ensures Floating(parts, s)
  {
    var fills :| |fills| == |parts[1..]| && Joined(fills, parts[1..]) == s[k + |parts[0]|..];
    var more := [s[..k]] + fills;
    assert more[1..] == fills;
    JoinedStep(more, parts);
    assert s == s[..k] + (s[k..k + |parts[0]|] + s[k + |parts[0]|..]);
    assert Joined(more, parts) == s;
  }

  lemma FloatingFinds(parts: seq<Text>, s: Text) returns (k: nat)
    requires parts != [] && Floating(parts, s)
    ensures OccursAt(s, parts[0], k) && Floating(parts[1..], s[k + |parts[0]|..])
  {
    var fills :| |fills| == |parts| && Joined(fills, parts) == s;
    JoinedStep(fills, parts);
    k := |fills[0]|;
    assert s[k..k + |parts[0]|] == parts[0];
    assert s[k + |parts[0]|..] == Joined(fills[1..], parts[1..]);
  }

  /** The exchange argument: when another part follows, taking the leftmost occurrence of this one is
      never worse than any other, because the string after it can take up the difference. */
  lemma LeftmostIsEnough(parts: seq<Text>, s: Text)
    requires |parts| >= 2
    ensures var idx := Index(s, parts[0]);
            Floating(parts, s) <==> idx >= 0 && Floating(parts[1..], s[idx + |parts[0]|..])
  {
    var idx, p := Index(s, parts[0]), |parts[0]|;
    if Floating(parts, s) {
      var k := FloatingFinds(parts, s);
      assert s[idx + p..] == s[idx + p..k + p] + s[k + p..];
      Absorb(s[idx + p..k + p], parts[1..], s[k + p..]);
    }
    if idx >= 0 && Floating(parts[1..], s[idx + p..]) {
      FloatingAt(parts, s, idx);
    }
  }

  lemma LastIsSuffix(part: Text, s: Text)
    ensures Floating([part], s) <==> HasSuffix(s, part)
  {
    if HasSuffix(s, part) {
      var fills := [s[..|s| - |part|]];
      JoinedStep(fills, [part]);
      assert Joined(fills, [part]) == s;
    }
    if Floating([part], s) {
      var fills :| |fills| == 1 && Joined(fills, [part]) == s;
      JoinedStep(fills, [part]);
      assert Joined(fills[1..], [part][1..]) == [];
      assert s == fills[0] + part;
    }
  }

  lemma {:induction false} NoStarIsLiteral(pattern: Text, subj: Text)
    requires Stars(pattern) == 0
    ensures Matches(pattern, subj) <==> subj == pattern
  {
    NoStarReplace(pattern);
    assert Replace(pattern, []) == pattern;
  }

  lemma {:induction false} NoStarReplace(pattern: Text)
    requires Stars(pattern) == 0
    ensures Replace(pattern, []) == pattern
  {
    if pattern != [] {
      NoStarReplace(pattern[1..]);
    }
  }

  lemma StarMatchesAll(subj: Text)
    ensures Matches([STAR], subj)
  {
    assert Stars([STAR][1..]) == 0;
    assert Replace([STAR], [subj]) == subj;
  }

  /** The first part is anchored at the front, unless it is empty because the pattern opens with `*`. */
  lemma FirstPart(pattern: Text, subj: Text)
    requires pattern != []
    ensures var parts := Split(pattern);
            var idx := Index(subj, parts[0]);
            && (pattern[0] == STAR ==> idx == 0)
            && (Matches(pattern, subj) <==> idx == 0 && Floating(parts[1..], subj[|parts[0]|..]))
  {
    MatchesIsFloating(pattern, subj);
    if pattern[0] == STAR { StarAtTheFront(pattern); }
    var part := Split(pattern)[0];
    assert OccursAt(subj, part, 0) <==> part <= subj;
  }

  lemma StarAtTheFront(pattern: Text)
    requires pattern != [] && pattern[0] == STAR
    ensures Split(pattern)[0] == []
  {
  }

  lemma {:induction false} StarAtTheBack(pattern: Text)
    requires pattern != [] && pattern[|pattern| - 1] == STAR
    ensures Split(pattern)[Stars(pattern)] == []
  {
    var rest := pattern[1..];
    if rest == [] {
      assert Split(rest) == [[]];
    } else {
      assert rest[|rest| - 1] == STAR;
      StarAtTheBack(rest);
      assert Stars(pattern) > 0 && Stars(rest) > 0 by { LastStarCounts(rest); }
    }
  }

  lemma {:induction false} LastStarCounts(pattern: Text)
    requires pattern != [] && pattern[|pattern| - 1] == STAR
    ensures Stars(pattern) > 0
  {
    if |pattern| > 1 {
      LastStarCounts(pattern[1..]);
    }
  }

  /** Finding part i, not the first and not the last, leftmost in s. */
  lemma MiddlePart(parts: seq<Text>, i: nat, s: Text)
    requires i + 1 < |parts|
    ensures var idx := Index(s, parts[i]);
            Floating(parts[i..], s) <==> idx >= 0 && Floating(parts[i + 1..], s[idx + |parts[i]|..])
  {
    var here := parts[i..];
    assert here[1..] == parts[i + 1..];
    LeftmostIsEnough(here, s);
  }

  lemma LastPart(parts: seq<Text>, s: Text)
    requires parts != []
    ensures Floating(parts[|parts| - 1..], s) <==> HasSuffix(s, parts[|parts| - 1])
  {
    var part := parts[|parts| - 1];
    assert parts[|parts| - 1..] == [part];
    LastIsSuffix(part, s);
  }

  /** Only a pattern that ends with `*` may leave a rest of the subject unmatched. */
  lemma LastPartOfTrailing(pattern: Text)
    requires pattern != [] && pattern[|pattern| - 1] == STAR
    ensures var parts := Split(pattern); parts[|parts| - 1] == []
  {
    StarAtTheBack(pattern);
  }

  /** What the two flags and the first part say about the goal of a search. */
  ghost predicate Ready(parts: seq<Text>, subj: Text, leadingGlob: bool, trailingGlob: bool, goal: bool)
  {
    && |parts| > 1
    && (leadingGlob ==> Index(subj, parts[0]) == 0)
    && (trailingGlob ==> parts[|parts| - 1] == [])
    && (goal <==> Index(subj, parts[0]) == 0 && Floating(parts[1..], subj[|parts[0]|..]))
  }

  lemma GetReady(pattern: Text, subj: Text)
    requires Stars(pattern) > 0
    ensures Ready(Split(pattern), subj, pattern[0] == STAR, pattern[|pattern| - 1] == STAR, Matches(pattern, subj))
  {
    FirstPart(pattern, subj);
    if pattern[|pattern| - 1] == STAR { LastPartOfTrailing(pattern); }
  }

  /** Greedy search from left to right is exact. */
  method Glob(pattern: Text, subj: Text) returns (ok: bool)
    ensures ok <==> Matches(pattern, subj)
  {
    if pattern == [] {
      NoStarIsLiteral(pattern, subj);
      return subj == pattern;
    }
    if pattern == [STAR] {
      StarMatchesAll(subj);
      return true;
    }
    var parts := Split(pattern);
    if |parts| == 1 {
      NoStarIsLiteral(pattern, subj);
      return subj == pattern;
    }
    GetReady(pattern, subj);
    var leadingGlob, trailingGlob := pattern[0] == STAR, pattern[|pattern| - 1] == STAR;
    ok := Search(parts, subj, leadingGlob, trailingGlob, Matches(pattern, subj));
  }

  /** One turn of the loop: part i is found, leftmost, and the goal carries over to what follows it; or it
      is not, and the goal is out of reach. */
  lemma FindPart(parts: seq<Text>, subj: Text, leadingGlob: bool, trailingGlob: bool, goal: bool, i: nat, s: Text)
    requires Ready(parts, subj, leadingGlob, trailingGlob, goal) && i + 1 < |parts|
    requires if i == 0 then s == subj else goal <==> Floating(parts[i..], s)
    ensures var idx := Index(s, parts[i]);
            if (if i == 0 then !leadingGlob && idx != 0 else idx < 0) then !goal
            else && 0 <= idx && idx + |parts[i]| <= |s|
                 && (goal <==> Floating(parts[i + 1..], s[idx + |parts[i]|..]))
  {
    MiddlePart(parts, i, s);
  }

  /** The loop of Glob. */
  method Search(parts: seq<Text>, subj: Text, leadingGlob: bool, trailingGlob: bool, ghost goal: bool)
    returns (ok: bool)
    requires Ready(parts, subj, leadingGlob, trailingGlob, goal)
    ensures ok <==> goal
  {
    var end := |parts| - 1;
    var s := subj;
    for i := 0 to end
      invariant if i == 0 then s == subj else goal <==> Floating(parts[i..], s)
    {
      FindPart(parts, subj, leadingGlob, trailingGlob, goal, i, s);
      var idx := Index(s, parts[i]);
      if i == 0 {
        if !leadingGlob && idx != 0 {
          return false;
        }
      } else {
        if idx < 0 {
          return false;
        }
      }
      s := s[idx + |parts[i]|..];
    }
    LastPart(parts, s);
    return trailingGlob || HasSuffix(s, parts[end]);
  }

  method GlobAny(patterns: seq<Text>, subj: Text) returns (ok: bool)
    ensures ok <==> exists i :: 0 <= i < |patterns| && Matches(patterns[i], subj)
  {
    for i := 0 to |patterns|
      invariant forall k :: 0 <= k < i ==> !Matches(patterns[k], subj)
    {
      var m := Glob(patterns[i], subj);
      if m {
        return true;
      }
    }
    return false;
  }
}
