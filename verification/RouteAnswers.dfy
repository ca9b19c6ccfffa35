/** Which route an answer is read as, in terms of its words, its lines and the markers. */
module RouteAnswers {
  import opened Wrappers
  import opened Collections
  import opened Text
  import RouteDecision
  import opened Whitespace

  // ----- words

  /** `w` is a word of its own in `s`: no letter or digit touches it. */
  ghost predicate Alone(alnum: CharTest, s: string, i: nat, w: string) {
    && i + |w| <= |s| && s[i..i + |w|] == w
    && (i > 0 ==> !alnum(s[i - 1])) && (i + |w| < |s| ==> !alnum(s[i + |w|]))
  }

  ghost predicate Says(alnum: CharTest, s: string, w: string) {
    exists i :: Alone(alnum, s, i, w)
  }

  /** The text names this route and not the other. */
  ghost predicate OneRoute(alnum: CharTest, s: string, r: RouteDecision.Route) {
    if r.Graph? then Says(alnum, s, "parallel") && !Says(alnum, s, "serial")
    else Says(alnum, s, "serial") && !Says(alnum, s, "parallel")
  }

  ghost predicate Undecided(alnum: CharTest, s: string) {
    Says(alnum, s, "parallel") <==> Says(alnum, s, "serial")
  }

  lemma SaysIff(alnum: CharTest, s: string, w: string)
    ensures RouteDecision.Has(alnum, s, w) <==> Says(alnum, s, w)
  {
    if i: nat :| RouteDecision.WordAt(alnum, s, i, w) {
      assert Alone(alnum, s, i, w);
    }
    if i: nat :| Alone(alnum, s, i, w) {
      assert RouteDecision.WordAt(alnum, s, i, w);
    }
  }

  lemma SaysSomething(alnum: CharTest, s: string, w: string)
    requires w != "" && Says(alnum, s, w)
    ensures s != ""
  {}

  lemma NamesIff(alnum: CharTest, s: string, r: RouteDecision.Route)
    ensures RouteDecision.Names(alnum, s) == Some(r) <==> OneRoute(alnum, s, r)
    ensures RouteDecision.Names(alnum, s) == None <==> Undecided(alnum, s)
  {
    SaysIff(alnum, s, "parallel");
    SaysIff(alnum, s, "serial");
  }

  // ----- lines

  /** Line `k` names one route, and no line below it does. */
  ghost predicate LineDecides(alnum: CharTest, lines: seq<string>, k: int, r: RouteDecision.Route) {
    0 <= k < |lines| && OneRoute(alnum, lines[k], r) && forall j :: k < j < |lines| ==> Undecided(alnum, lines[j])
  }

  ghost predicate ByLine(alnum: CharTest, lines: seq<string>, r: RouteDecision.Route) {
    exists k :: LineDecides(alnum, lines, k, r)
  }

  lemma {:induction false} BottomLineIff(alnum: CharTest, lines: seq<string>, r: RouteDecision.Route)
    ensures RouteDecision.BottomLine(alnum, lines) == Some(r) <==> ByLine(alnum, lines, r)
  {
    if lines != [] {
      var n := |lines| - 1;
      var init := lines[..n];
      BottomLineIff(alnum, init, r);
      NamesIff(alnum, lines[n], r);
      if RouteDecision.Names(alnum, lines[n]).Some? {
        assert !Undecided(alnum, lines[n]);
        assert OneRoute(alnum, lines[n], r) <==> LineDecides(alnum, lines, n, r);
      } else {
        assert Undecided(alnum, lines[n]);
        assert forall k :: LineDecides(alnum, lines, k, r) <==> LineDecides(alnum, init, k, r);
      }
    }
  }

  // ----- markers

  /** The last place at which `m` stands in `s`. */
  ghost predicate LastMention(s: string, m: string, at: nat) {
    OccursAt(s, at, m) && forall i: nat :: i > at ==> !OccursAt(s, i, m)
  }

  ghost predicate MentionDecides(alnum: CharTest, s: string, m: string, r: RouteDecision.Route) {
    exists at: nat :: LastMention(s, m, at) && OneRoute(alnum, s[at..], r)
  }

  ghost predicate MentionSilent(alnum: CharTest, s: string, m: string) {
    forall at: nat :: LastMention(s, m, at) ==> Undecided(alnum, s[at..])
  }

  /** What follows the last mention of the marker names one route, and no marker before it in the list does so. */
  ghost predicate MarkerDecides(alnum: CharTest, s: string, markers: seq<string>, i: int, r: RouteDecision.Route) {
    && 0 <= i < |markers| && MentionDecides(alnum, s, markers[i], r)
    && forall j :: 0 <= j < i ==> MentionSilent(alnum, s, markers[j])
  }

  ghost predicate ByMarkers(alnum: CharTest, s: string, markers: seq<string>, r: RouteDecision.Route) {
    exists i :: MarkerDecides(alnum, s, markers, i, r)
  }

  lemma LastIndexIs(s: string, m: string, at: nat)
    ensures LastMention(s, m, at) <==> RouteDecision.LastIndex(s, m, |s|) == Some(at)
  {
    var last := RouteDecision.LastIndex(s, m, |s|);
    assert OccursAt(s, at, m) ==> at <= |s|;
  }

  lemma NoMention(alnum: CharTest, s: string, m: string, r: RouteDecision.Route)
    requires RouteDecision.LastIndex(s, m, |s|) == None
    ensures !MentionDecides(alnum, s, m, r) && MentionSilent(alnum, s, m)
  {
    forall at: nat
      ensures !LastMention(s, m, at)
    {
      LastIndexIs(s, m, at);
    }
  }

  lemma MentionAt(alnum: CharTest, s: string, m: string, at: nat, r: RouteDecision.Route)
    requires RouteDecision.LastIndex(s, m, |s|) == Some(at)
    ensures MentionDecides(alnum, s, m, r) <==> OneRoute(alnum, s[at..], r)
    ensures MentionSilent(alnum, s, m) <==> Undecided(alnum, s[at..])
  {
    forall other: nat
      ensures LastMention(s, m, other) <==> other == at
    {
      LastIndexIs(s, m, other);
    }
  }

  lemma MentionIff(alnum: CharTest, s: string, m: string, r: RouteDecision.Route)
    ensures var last := RouteDecision.LastIndex(s, m, |s|);
            && (MentionDecides(alnum, s, m, r) <==> last.Some? && RouteDecision.Names(alnum, s[last.value..]) == Some(r))
            && (MentionSilent(alnum, s, m) <==> (last.Some? ==> RouteDecision.Names(alnum, s[last.value..]) == None))
  {
    var last := RouteDecision.LastIndex(s, m, |s|);
    if last.Some? {
      MentionAt(alnum, s, m, last.value, r);
      NamesIff(alnum, s[last.value..], r);
    } else {
      NoMention(alnum, s, m, r);
    }
  }

  lemma {:induction false} ByMarkerIff(alnum: CharTest, s: string, markers: seq<string>, r: RouteDecision.Route)
    ensures RouteDecision.ByMarker(alnum, s, markers) == Some(r) <==> ByMarkers(alnum, s, markers, r)
  {
    if markers != [] {
      MentionIff(alnum, s, markers[0], r);
      ByMarkerIff(alnum, s, markers[1..], r);
      if MentionSilent(alnum, s, markers[0]) {
        LaterMarker(alnum, s, markers, r);
      } else {
        assert ByMarkers(alnum, s, markers, r) <==> MarkerDecides(alnum, s, markers, 0, r);
      }
    }
  }

  lemma LaterMarker(alnum: CharTest, s: string, markers: seq<string>, r: RouteDecision.Route)
    requires markers != [] && MentionSilent(alnum, s, markers[0])
    ensures ByMarkers(alnum, s, markers, r) <==> ByMarkers(alnum, s, markers[1..], r)
  {
    var rest := markers[1..];
    if i :| MarkerDecides(alnum, s, rest, i, r) {
      assert rest[i] == markers[i + 1];
      assert forall j :: 0 < j < i + 1 ==> markers[j] == rest[j - 1];
      assert MarkerDecides(alnum, s, markers, i + 1, r);
    }
    if i :| MarkerDecides(alnum, s, markers, i, r) {
      assert i != 0 by {
        if i == 0 {
          NotBothMention(alnum, s, markers[0], r);
        }
      }
      assert rest[i - 1] == markers[i];
      assert forall j :: 0 <= j < i - 1 ==> rest[j] == markers[j + 1];
      assert MarkerDecides(alnum, s, rest, i - 1, r);
    }
  }

  lemma NotBothMention(alnum: CharTest, s: string, m: string, r: RouteDecision.Route)
    ensures !(MentionDecides(alnum, s, m, r) && MentionSilent(alnum, s, m))
  {
    MentionIff(alnum, s, m, r);
  }

  // ----- the last word

  ghost predicate WordOf(alnum: CharTest, s: string, i: nat, r: RouteDecision.Route) {
    Alone(alnum, s, i, if r.Graph? then "parallel" else "serial")
  }

  /** The last route word of the text. */
  ghost predicate LastRouteWord(alnum: CharTest, s: string, i: nat, r: RouteDecision.Route) {
    WordOf(alnum, s, i, r) && forall j: nat, q :: WordOf(alnum, s, j, q) ==> j <= i
  }

  lemma {:induction false} LastWordIff(alnum: CharTest, s: string, n: nat, r: RouteDecision.Route)
    requires forall j: nat, q :: WordOf(alnum, s, j, q) ==> j < n
    ensures RouteDecision.LastWord(alnum, s, n) == Some(r) <==> exists i :: LastRouteWord(alnum, s, i, r)
  {
    if n > 0 {
      forall q
        ensures WordOf(alnum, s, n - 1, q) <==>
                RouteDecision.WordAt(alnum, s, n - 1, if q.Graph? then RouteDecision.PARALLEL_WORD else RouteDecision.SERIAL_WORD)
      {
      }
      RouteDecision.NotBoth(alnum, s, n - 1);
      if WordOf(alnum, s, n - 1, RouteDecision.Graph) || WordOf(alnum, s, n - 1, RouteDecision.Serial) {
        var q := if WordOf(alnum, s, n - 1, RouteDecision.Graph) then RouteDecision.Graph else RouteDecision.Serial;
        assert LastRouteWord(alnum, s, n - 1, q);
        if i: nat :| LastRouteWord(alnum, s, i, r) {
          assert i == n - 1;
        }
      } else {
        forall j: nat, q | WordOf(alnum, s, j, q)
          ensures j < n - 1
        {
          assert j == n - 1 ==> q.Graph? || q.Serial?;
        }
        LastWordIff(alnum, s, n - 1, r);
      }
    }
  }

  // ----- the decision

  const MARKED := ["decision:", "choice:", "conclusion:", "result:"]

  /** The lowest line that names a single route; else the first marker in the list whose last mention is followed by a
      single route; else the last route word; else the serial route. */
  ghost predicate Chosen(alnum: CharTest, lower: string, r: RouteDecision.Route) {
    if exists q :: ByLine(alnum, Lines(lower), q) then ByLine(alnum, Lines(lower), r)
    else if exists q :: ByMarkers(alnum, lower, MARKED, q) then ByMarkers(alnum, lower, MARKED, r)
    else if exists i, q :: WordOf(alnum, lower, i, q) then exists i :: LastRouteWord(alnum, lower, i, r)
    else r.Serial?
  }

  lemma {:induction false} LastRouteWordExists(alnum: CharTest, s: string, n: nat)
    requires forall j: nat, q :: WordOf(alnum, s, j, q) ==> j < n
    requires exists i, q :: WordOf(alnum, s, i, q)
    ensures exists i, q :: LastRouteWord(alnum, s, i, q)
  {
    if n > 0 {
      if WordOf(alnum, s, n - 1, RouteDecision.Graph) {
        assert LastRouteWord(alnum, s, n - 1, RouteDecision.Graph);
      } else if WordOf(alnum, s, n - 1, RouteDecision.Serial) {
        assert LastRouteWord(alnum, s, n - 1, RouteDecision.Serial);
      } else {
        forall j: nat, q | WordOf(alnum, s, j, q)
          ensures j < n - 1
        {
          assert j == n - 1 ==> q.Graph? || q.Serial?;
        }
        LastRouteWordExists(alnum, s, n - 1);
      }
    }
  }

  /** What an answer is read as. */
  lemma DecisionIff(alnum: CharTest, lower: string, r: RouteDecision.Route)
    ensures RouteDecision.Decision(alnum, lower) == r <==> Chosen(alnum, lower, r)
  {
    var line := RouteDecision.BottomLine(alnum, Lines(lower));
    var marked := RouteDecision.ByMarker(alnum, lower, RouteDecision.MARKERS);
    assert RouteDecision.MARKERS == MARKED;
    forall q
      ensures line == Some(q) <==> ByLine(alnum, Lines(lower), q)
      ensures marked == Some(q) <==> ByMarkers(alnum, lower, MARKED, q)
    {
      BottomLineIff(alnum, Lines(lower), q);
      ByMarkerIff(alnum, lower, MARKED, q);
    }
    if line.Some? {
      assert ByLine(alnum, Lines(lower), line.value);
    } else if marked.Some? {
      assert ByMarkers(alnum, lower, MARKED, marked.value);
    } else {
      WordDecision(alnum, lower, r);
    }
  }

  lemma WordDecision(alnum: CharTest, lower: string, r: RouteDecision.Route)
    ensures RouteDecision.LastWord(alnum, lower, |lower|).GetOr(RouteDecision.Serial) == r <==>
            if exists i, q :: WordOf(alnum, lower, i, q) then exists i :: LastRouteWord(alnum, lower, i, r) else r.Serial?
  {
    if exists i: nat, q :: WordOf(alnum, lower, i, q) {
      LastRouteWordExists(alnum, lower, |lower|);
      var j: nat, p :| LastRouteWord(alnum, lower, j, p);
      LastWordIff(alnum, lower, |lower|, p);
      LastWordIff(alnum, lower, |lower|, r);
    } else {
      NoRouteWord(alnum, lower, RouteDecision.Graph);
      NoRouteWord(alnum, lower, RouteDecision.Serial);
    }
  }

  lemma NoRouteWord(alnum: CharTest, s: string, r: RouteDecision.Route)
    requires forall i: nat, q :: !WordOf(alnum, s, i, q)
    ensures RouteDecision.LastWord(alnum, s, |s|) != Some(r)
  {
    LastWordIff(alnum, s, |s|, r);
  }

  // ----- the last line

  lemma {:induction false} LineThen(line: string, rest: string)
    requires '\n' !in line
    ensures NewlineIndex(line + ['\n'] + rest) == |line|
  {
    if line != "" {
      LineThen(line[1..], rest);
      assert (line + ['\n'] + rest)[1..] == line[1..] + ['\n'] + rest;
    }
  }

  lemma LinesStep(line: string, rest: string)
    requires '\n' !in line
    ensures Lines(line + ['\n'] + rest) == [WithoutReturn(line)] + Lines(rest)
  {
    var s := line + ['\n'] + rest;
    LineThen(line, rest);
    assert s[..|line|] == line && s[|line| + 1..] == rest;
  }

  lemma {:induction false} FirstLine(s: string) returns (line: string, rest: Option<string>)
    ensures '\n' !in line
    ensures s == match rest case None => line case Some(more) => line + ['\n'] + more
  {
    if s == "" {
      line, rest := "", None;
    } else if s[0] == '\n' {
      line, rest := "", Some(s[1..]);
      assert s == "" + ['\n'] + s[1..];
    } else {
      line, rest := FirstLine(s[1..]);
      line := [s[0]] + line;
    }
  }

  lemma {:induction false} LinesAfter(above: string, rest: string)
    ensures Lines(above + ['\n'] + rest) == Lines(above + ['\n']) + Lines(rest)
    decreases |above|
  {
    var line, more := FirstLine(above);
    match more
    case None =>
      LinesStep(above, rest);
      LinesStep(above, "");
      assert above + ['\n'] + "" == above + ['\n'];
    case Some(below) =>
      LinesAfter(below, rest);
      LinesStep(line, below + ['\n'] + rest);
      LinesStep(line, below + ['\n']);
      Reassociate(line + ['\n'], below, ['\n'], rest);
      Associate(line + ['\n'], below, ['\n']);
      Associate([WithoutReturn(line)], Lines(below + ['\n']), Lines(rest));
  }

  lemma {:induction false} OneLine(s: string)
    requires '\n' !in s && s != ""
    ensures Lines(s) == [s]
  {
    NoNewline(s);
  }

  lemma {:induction false} NoNewline(s: string)
    requires '\n' !in s
    ensures NewlineIndex(s) == |s|
  {
    if s != "" {
      NoNewline(s[1..]);
    }
  }

  /** A last line that names one route decides, whatever stands above it. */
  lemma LastLineDecides(alnum: CharTest, above: string, last: string, r: RouteDecision.Route)
    requires '\n' !in last && OneRoute(alnum, last, r)
    ensures RouteDecision.Decision(alnum, above + ['\n'] + last) == r
  {
    SaysSomething(alnum, last, if r.Graph? then "parallel" else "serial");
    LinesAfter(above, last);
    OneLine(last);
    var lines := Lines(above + ['\n'] + last);
    LineLast(alnum, Lines(above + ['\n']), last, r);
    DecisionIff(alnum, above + ['\n'] + last, r);
  }

  lemma LineLast(alnum: CharTest, lines: seq<string>, last: string, r: RouteDecision.Route)
    requires OneRoute(alnum, last, r)
    ensures ByLine(alnum, lines + [last], r)
  {
    assert LineDecides(alnum, lines + [last], |lines|, r);
  }
}
