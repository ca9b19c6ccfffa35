/** The operations on strings that Rust's `trim`, `trim_matches` and `lines` perform. */
module Text {
  type CharTest = char -> bool

  predicate OccursAt(s: string, i: nat, w: string) {
    i + |w| <= |s| && s[i..i + |w|] == w
  }

  function NewlineIndex(s: string): (n: nat)
    ensures n <= |s| && (n < |s| ==> s[n] == '\n')
  {
    if s == "" then 0 else if s[0] == '\n' then 0 else 1 + NewlineIndex(s[1..])
  }

  function WithoutReturn(s: string): string {
    if s != "" && s[|s| - 1] == '\r' then s[..|s| - 1] else s
  }

  /** `lines`: without line endings, and without an empty last line. */
  function Lines(s: string): seq<string>
    decreases |s|
  {
    if s == "" then []
    else
      var n := NewlineIndex(s);
      if n == |s| then [s] else [WithoutReturn(s[..n])] + Lines(s[n + 1..])
  }

  function TrimStart(p: CharTest, s: string): string {
    if s != "" && p(s[0]) then TrimStart(p, s[1..]) else s
  }

  function TrimEnd(p: CharTest, s: string): string {
    if s != "" && p(s[|s| - 1]) then TrimEnd(p, s[..|s| - 1]) else s
  }

  function Trim(p: CharTest, s: string): string {
    TrimEnd(p, TrimStart(p, s))
  }

  lemma {:induction false} TrimStartIs(p: CharTest, s: string) returns (n: nat)
    ensures n <= |s| && TrimStart(p, s) == s[n..] && forall k :: 0 <= k < n ==> p(s[k])
  {
    n := 0;
    if s != "" && p(s[0]) {
      var m := TrimStartIs(p, s[1..]);
      assert s[1..][m..] == s[1 + m..];
      assert forall k :: 1 <= k < m + 1 ==> s[k] == s[1..][k - 1];
      n := m + 1;
    }
  }

  lemma {:induction false} TrimEndIs(p: CharTest, s: string) returns (n: nat)
    ensures n <= |s| && TrimEnd(p, s) == s[..n] && forall k :: n <= k < |s| ==> p(s[k])
  {
    n := |s|;
    if s != "" && p(s[|s| - 1]) {
      n := TrimEndIs(p, s[..|s| - 1]);
      assert s[..|s| - 1][..n] == s[..n];
    }
  }

  /** `match_indices`: occurrences that do not overlap, from the left. */
  function Matches(s: string, w: string, start: nat): seq<nat>
    requires w != ""
    decreases |s| - start
  {
    if start + |w| > |s| then []
    else if OccursAt(s, start, w) then [start] + Matches(s, w, start + |w|)
    else Matches(s, w, start + 1)
  }

  /** The first letter occurs nowhere else, so the word cannot overlap itself. */
  ghost predicate NoOverlap(w: string) {
    w != "" && forall k :: 0 < k < |w| ==> w[k] != w[0]
  }

  lemma NoneInside(s: string, w: string, start: nat)
    requires NoOverlap(w) && OccursAt(s, start, w)
    ensures forall k :: start < k < start + |w| ==> !OccursAt(s, k, w)
  {
    forall k | start < k < start + |w|
      ensures !OccursAt(s, k, w)
    {
      assert s[k] == s[start..start + |w|][k - start];
      assert k + |w| <= |s| ==> s[k..k + |w|][0] == s[k];
    }
  }

  lemma MatchesStep(s: string, w: string, start: nat, i: nat)
    requires w != "" && start + |w| <= |s|
    ensures i in Matches(s, w, start) <==>
            if OccursAt(s, start, w) then i == start || i in Matches(s, w, start + |w|) else i in Matches(s, w, start + 1)
  {
    if OccursAt(s, start, w) {
      var rest := Matches(s, w, start + |w|);
      assert i in [start] + rest <==> i == start || i in rest;
    }
  }

  lemma MatchesHere(s: string, w: string, start: nat, i: nat)
    requires NoOverlap(w) && OccursAt(s, start, w)
    requires i in Matches(s, w, start + |w|) <==> start + |w| <= i && OccursAt(s, i, w)
    ensures i in Matches(s, w, start) <==> start <= i && OccursAt(s, i, w)
  {
    MatchesStep(s, w, start, i);
    NoneInside(s, w, start);
  }

  lemma {:induction false} MatchesAll(s: string, w: string, start: nat, i: nat)
    requires NoOverlap(w)
    ensures i in Matches(s, w, start) <==> start <= i && OccursAt(s, i, w)
    decreases |s| - start
  {
    if start + |w| <= |s| {
      if OccursAt(s, start, w) {
        MatchesAll(s, w, start + |w|, i);
        MatchesHere(s, w, start, i);
      } else {
        MatchesAll(s, w, start + 1, i);
        MatchesStep(s, w, start, i);
      }
    }
  }
}
