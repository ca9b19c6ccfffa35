/** `parse_route_decision`: which route a partitioner's answer names.

    The text is taken trimmed and in lower case; what is alphanumeric is a parameter, of which only the facts in
    `Lawful` are used. */
module RouteDecision {
  import opened Wrappers
  import opened Whitespace
  import opened Text

  ghost predicate Lawful(alnum: CharTest) {
    && (forall c :: 'a' <= c <= 'z' ==> alnum(c))
    && (forall c :: IsSpace(c) ==> !alnum(c))
  }

  datatype Route = Graph | Serial

  const PARALLEL_WORD := "parallel"
  const SERIAL_WORD := "serial"
  const MARKERS := ["decision:", "choice:", "conclusion:", "result:"]

  // ----- what the answer means

  /** `w` stands in `s` at `i` with no letter or digit on either side. */
  predicate WordAt(alnum: CharTest, s: string, i: nat, w: string) {
    && i + |w| <= |s| && s[i..i + |w|] == w
    && (i == 0 || !alnum(s[i - 1]))
    && (i + |w| == |s| || !alnum(s[i + |w|]))
  }

  ghost predicate Has(alnum: CharTest, s: string, w: string) {
    exists i :: WordAt(alnum, s, i, w)
  }

  /** The one route a piece of text names. */
  ghost function Names(alnum: CharTest, s: string): Option<Route> {
    if Has(alnum, s, PARALLEL_WORD) && !Has(alnum, s, SERIAL_WORD) then Some(Graph)
    else if Has(alnum, s, SERIAL_WORD) && !Has(alnum, s, PARALLEL_WORD) then Some(Serial)
    else None
  }

  /** The bottom-most line that names exactly one route. */
  ghost function BottomLine(alnum: CharTest, lines: seq<string>): Option<Route> {
    if lines == [] then None
    else if Names(alnum, lines[|lines| - 1]).Some? then Names(alnum, lines[|lines| - 1])
    else BottomLine(alnum, lines[..|lines| - 1])
  }

  /** The first marker whose last occurrence is followed by exactly one route. */
  ghost function ByMarker(alnum: CharTest, s: string, markers: seq<string>): Option<Route> {
    if markers == [] then None
    else
      match LastIndex(s, markers[0], |s|)
      case Some(pos) =>
        if Names(alnum, s[pos..]).Some? then Names(alnum, s[pos..]) else ByMarker(alnum, s, markers[1..])
      case None => ByMarker(alnum, s, markers[1..])
  }

  /** The last route word that starts before `n`. */
  function LastWord(alnum: CharTest, s: string, n: nat): Option<Route> {
    if n == 0 then None
    else if WordAt(alnum, s, n - 1, PARALLEL_WORD) then Some(Graph)
    else if WordAt(alnum, s, n - 1, SERIAL_WORD) then Some(Serial)
    else LastWord(alnum, s, n - 1)
  }

  ghost function Decision(alnum: CharTest, lower: string): Route {
    match BottomLine(alnum, Lines(lower))
    case Some(route) => route
    case None =>
      match ByMarker(alnum, lower, MARKERS)
      case Some(route) => route
      case None => LastWord(alnum, lower, |lower|).GetOr(Serial)
  }

  // ----- the string operations the source uses

  /** `rfind`, among positions up to `n`. */
  function LastIndex(s: string, w: string, n: nat): (pos: Option<nat>)
    ensures pos.Some? ==> OccursAt(s, pos.value, w) && pos.value <= n
    ensures forall i :: (if pos.Some? then pos.value < i <= n else 0 <= i <= n) ==> !OccursAt(s, i, w)
  {
    if OccursAt(s, n, w) then Some(n) else if n == 0 then None else LastIndex(s, w, n - 1)
  }

  /** The pieces between separators. */
  function Split(alnum: CharTest, s: string): (pieces: seq<string>)
    ensures |pieces| > 0
  {
    if s == "" then [""]
    else
      var rest := Split(alnum, s[1..]);
      if alnum(s[0]) then [[s[0]] + rest[0]] + rest[1..] else [""] + rest
  }

  function NonEmpty(pieces: seq<string>): seq<string> {
    if pieces == [] then []
    else if pieces[0] == "" then NonEmpty(pieces[1..])
    else [pieces[0]] + NonEmpty(pieces[1..])
  }

  function Tokens(alnum: CharTest, s: string): seq<string> {
    NonEmpty(Split(alnum, s))
  }

  /** The last of `positions` at which the word stands alone. */
  function LastWhole(alnum: CharTest, s: string, w: string, positions: seq<nat>): Option<nat> {
    if positions == [] then None
    else
      var i := positions[|positions| - 1];
      if WordAt(alnum, s, i, w) then Some(i) else LastWhole(alnum, s, w, positions[..|positions| - 1])
  }

  // ----- words and tokens

  ghost predicate Word(alnum: CharTest, w: string) {
    w != "" && forall c :: c in w ==> alnum(c)
  }

  lemma RouteWords(alnum: CharTest)
    requires Lawful(alnum)
    ensures Word(alnum, PARALLEL_WORD) && Word(alnum, SERIAL_WORD)
  {
    assert forall c :: c in PARALLEL_WORD ==> 'a' <= c <= 'z';
    assert forall c :: c in SERIAL_WORD ==> 'a' <= c <= 'z';
  }

  /** The word stands at the very start, whatever comes before. */
  ghost predicate Starts(alnum: CharTest, s: string, w: string) {
    w <= s && (|w| == |s| || !alnum(s[|w|]))
  }

  ghost predicate Later(alnum: CharTest, s: string, w: string) {
    exists i :: i > 0 && WordAt(alnum, s, i, w)
  }

  lemma HasIff(alnum: CharTest, s: string, w: string)
    ensures Has(alnum, s, w) <==> Starts(alnum, s, w) || Later(alnum, s, w)
  {
    if Starts(alnum, s, w) {
      assert WordAt(alnum, s, 0, w);
    }
    if i :| WordAt(alnum, s, i, w) {
      if i == 0 {
        assert s[0..|w|] == w;
      }
    }
  }

  lemma WordAtShift(alnum: CharTest, s: string, i: nat, w: string)
    requires s != "" && i > 0
    ensures WordAt(alnum, s, i + 1, w) <==> WordAt(alnum, s[1..], i, w)
  {
    if i + |w| <= |s| - 1 {
      assert s[1..][i..i + |w|] == s[i + 1..i + 1 + |w|];
    }
  }

  lemma LaterStep(alnum: CharTest, s: string, w: string)
    requires s != ""
    ensures Later(alnum, s, w) <==>
            (!alnum(s[0]) && Starts(alnum, s[1..], w)) || Later(alnum, s[1..], w)
  {
    var t := s[1..];
    if !alnum(s[0]) && Starts(alnum, t, w) {
      assert s[1..1 + |w|] == t[..|w|];
      assert WordAt(alnum, s, 1, w);
    }
    if i :| i > 0 && WordAt(alnum, t, i, w) {
      WordAtShift(alnum, s, i, w);
    }
    if i :| i > 0 && WordAt(alnum, s, i, w) {
      if i == 1 {
        assert s[1..1 + |w|] == t[..|w|];
      } else {
        WordAtShift(alnum, s, i - 1, w);
      }
    }
  }

  lemma {:induction false} FirstPieceEmpty(alnum: CharTest, s: string)
    ensures Split(alnum, s)[0] == "" <==> s == "" || !alnum(s[0])
  {}

  lemma {:induction false} FirstPiece(alnum: CharTest, s: string, w: string)
    requires Word(alnum, w)
    ensures Split(alnum, s)[0] == w <==> Starts(alnum, s, w)
  {
    if s != "" && alnum(s[0]) {
      var t := s[1..];
      var rest := Split(alnum, t);
      FirstPieceEmpty(alnum, t);
      if |w| > 1 {
        FirstPiece(alnum, t, w[1..]);
        assert w == [w[0]] + w[1..];
        assert s == [s[0]] + t;
        assert Starts(alnum, s, w) <==> w[0] == s[0] && Starts(alnum, t, w[1..]);
      } else {
        assert w == [w[0]];
      }
    } else if s != "" {
      assert w[0] in w;
    }
  }

  lemma {:induction false} LaterPieces(alnum: CharTest, s: string, w: string)
    requires Word(alnum, w)
    ensures w in Split(alnum, s)[1..] <==> Later(alnum, s, w)
  {
    if s != "" {
      var t := s[1..];
      var rest := Split(alnum, t);
      LaterPieces(alnum, t, w);
      FirstPiece(alnum, t, w);
      LaterStep(alnum, s, w);
      if alnum(s[0]) {
        assert Split(alnum, s)[1..] == rest[1..];
      } else {
        assert Split(alnum, s)[1..] == rest;
        assert rest == [rest[0]] + rest[1..];
      }
    }
  }

  lemma {:induction false} NonEmptyKeeps(pieces: seq<string>, w: string)
    requires w != ""
    ensures w in NonEmpty(pieces) <==> w in pieces
  {
    if pieces != [] {
      NonEmptyKeeps(pieces[1..], w);
    }
  }

  /** The tokens are exactly the words that stand alone. */
  lemma TokenIff(alnum: CharTest, s: string, w: string)
    requires Word(alnum, w)
    ensures w in Tokens(alnum, s) <==> Has(alnum, s, w)
  {
    var pieces := Split(alnum, s);
    NonEmptyKeeps(pieces, w);
    FirstPiece(alnum, s, w);
    LaterPieces(alnum, s, w);
    HasIff(alnum, s, w);
    assert pieces == [pieces[0]] + pieces[1..];
  }

  // ----- lines

  lemma InFront(alnum: CharTest, a: string, c: char, b: string, i: nat, w: string)
    requires !alnum(c) && i + |w| <= |a|
    ensures WordAt(alnum, a + [c] + b, i, w) <==> WordAt(alnum, a, i, w)
  {
    var s := a + [c] + b;
    assert s[i..i + |w|] == a[i..i + |w|];
  }

  lemma Behind(alnum: CharTest, a: string, c: char, b: string, i: nat, w: string)
    requires !alnum(c) && i + |w| <= |b|
    ensures WordAt(alnum, a + [c] + b, |a| + 1 + i, w) <==> WordAt(alnum, b, i, w)
  {
    var s := a + [c] + b;
    assert s[|a| + 1 + i..|a| + 1 + i + |w|] == b[i..i + |w|];
  }

  lemma NotAcross(alnum: CharTest, a: string, c: char, b: string, i: nat, w: string)
    requires Word(alnum, w) && !alnum(c) && WordAt(alnum, a + [c] + b, i, w)
    ensures i + |w| <= |a| || i > |a|
  {
    var s := a + [c] + b;
    forall k | i <= k < i + |w|
      ensures alnum(s[k])
    {
      assert s[k] == s[i..i + |w|][k - i];
      assert w[k - i] in w;
    }
    assert s[|a|] == c;
  }

  /** A character that is no letter or digit separates words. */
  lemma HasSplit(alnum: CharTest, a: string, c: char, b: string, w: string)
    requires Word(alnum, w) && !alnum(c)
    ensures Has(alnum, a + [c] + b, w) <==> Has(alnum, a, w) || Has(alnum, b, w)
  {
    if i: nat :| WordAt(alnum, a + [c] + b, i, w) {
      NotAcross(alnum, a, c, b, i, w);
      if i > |a| {
        Behind(alnum, a, c, b, i - |a| - 1, w);
      } else {
        InFront(alnum, a, c, b, i, w);
      }
    }
    if i: nat :| WordAt(alnum, a, i, w) {
      InFront(alnum, a, c, b, i, w);
    }
    if i: nat :| WordAt(alnum, b, i, w) {
      Behind(alnum, a, c, b, i, w);
    }
  }

  lemma HasWithoutReturn(alnum: CharTest, s: string, w: string)
    requires Lawful(alnum) && Word(alnum, w)
    ensures Has(alnum, WithoutReturn(s), w) <==> Has(alnum, s, w)
  {
    if s != "" && s[|s| - 1] == '\r' {
      var init := s[..|s| - 1];
      assert s == init + ['\r'] + "";
      HasSplit(alnum, init, '\r', "", w);
      NothingInEmpty(alnum, w);
    }
  }

  lemma NothingInEmpty(alnum: CharTest, w: string)
    requires w != ""
    ensures !Has(alnum, "", w)
  {}

  /** A word stands alone in the text exactly when it stands alone in one of its lines. */
  lemma {:induction false} HasInLine(alnum: CharTest, s: string, w: string)
    requires Lawful(alnum) && Word(alnum, w)
    ensures Has(alnum, s, w) <==> exists k :: 0 <= k < |Lines(s)| && Has(alnum, Lines(s)[k], w)
    decreases |s|
  {
    if s == "" {
      NothingInEmpty(alnum, w);
    } else {
      var n := NewlineIndex(s);
      if n == |s| {
        FirstOrRest(alnum, s, [], w);
        assert Lines(s) == [s] + [];
      } else {
        var line, rest := s[..n], s[n + 1..];
        assert s == line + ['\n'] + rest;
        HasSplit(alnum, line, '\n', rest, w);
        HasWithoutReturn(alnum, line, w);
        HasInLine(alnum, rest, w);
        FirstOrRest(alnum, WithoutReturn(line), Lines(rest), w);
        assert Lines(s) == [WithoutReturn(line)] + Lines(rest);
      }
    }
  }

  lemma FirstOrRest(alnum: CharTest, line: string, rest: seq<string>, w: string)
    ensures var lines := [line] + rest;
            (exists k :: 0 <= k < |lines| && Has(alnum, lines[k], w)) <==>
            Has(alnum, line, w) || exists k :: 0 <= k < |rest| && Has(alnum, rest[k], w)
  {
    var lines := [line] + rest;
    if Has(alnum, line, w) {
      assert Has(alnum, lines[0], w);
    }
    if k :| 0 <= k < |rest| && Has(alnum, rest[k], w) {
      assert lines[k + 1] == rest[k];
    }
  }

  /** When a line decides, it is the last one that names a single route. */
  lemma {:induction false} BottomLineIs(alnum: CharTest, lines: seq<string>)
    ensures BottomLine(alnum, lines) == None <==> forall k :: 0 <= k < |lines| ==> Names(alnum, lines[k]) == None
    ensures BottomLine(alnum, lines).Some? ==>
              exists k :: 0 <= k < |lines| && Names(alnum, lines[k]) == BottomLine(alnum, lines)
  {
    if lines != [] && Names(alnum, lines[|lines| - 1]) == None {
      BottomLineIs(alnum, lines[..|lines| - 1]);
    }
  }

  // ----- step 4 adds nothing

  /** If no line names a single route, the text names both or neither. */
  lemma NoLineDecides(alnum: CharTest, lower: string)
    requires Lawful(alnum) && BottomLine(alnum, Lines(lower)) == None
    ensures Has(alnum, lower, PARALLEL_WORD) <==> Has(alnum, lower, SERIAL_WORD)
    ensures Names(alnum, lower) == None
  {
    RouteWords(alnum);
    HasInLine(alnum, lower, PARALLEL_WORD);
    HasInLine(alnum, lower, SERIAL_WORD);
    BottomLineIs(alnum, Lines(lower));
    forall k | 0 <= k < |Lines(lower)|
      ensures Has(alnum, Lines(lower)[k], PARALLEL_WORD) <==> Has(alnum, Lines(lower)[k], SERIAL_WORD)
    {
      assert Names(alnum, Lines(lower)[k]) == None;
    }
  }

  /** A text that names one route decides for it. */
  lemma OnlyRouteNamed(alnum: CharTest, lower: string)
    requires Lawful(alnum) && Names(alnum, lower).Some?
    ensures Decision(alnum, lower) == Names(alnum, lower).value
  {
    if BottomLine(alnum, Lines(lower)) == None {
      NoLineDecides(alnum, lower);
    } else {
      RouteWords(alnum);
      HasInLine(alnum, lower, PARALLEL_WORD);
      HasInLine(alnum, lower, SERIAL_WORD);
      BottomLineIs(alnum, Lines(lower));
    }
  }

  // ----- step 1 adds nothing

  lemma {:induction false} HasInFront(alnum: CharTest, front: string, s: string, w: string)
    requires Word(alnum, w) && forall c :: c in front ==> !alnum(c)
    ensures Has(alnum, front + s, w) <==> Has(alnum, s, w)
  {
    if front == "" {
      assert front + s == s;
    } else {
      HasInFront(alnum, front[1..], s, w);
      assert front + s == "" + [front[0]] + (front[1..] + s);
      HasSplit(alnum, "", front[0], front[1..] + s, w);
      NothingInEmpty(alnum, w);
    }
  }

  lemma {:induction false} HasBehind(alnum: CharTest, s: string, back: string, w: string)
    requires Word(alnum, w) && forall c :: c in back ==> !alnum(c)
    ensures Has(alnum, s + back, w) <==> Has(alnum, s, w)
    decreases |back|
  {
    if back == "" {
      assert s + back == s;
    } else {
      HasBehind(alnum, s + [back[0]], back[1..], w);
      assert s + back == (s + [back[0]]) + back[1..];
      assert s + [back[0]] == s + [back[0]] + "";
      HasSplit(alnum, s, back[0], "", w);
      NothingInEmpty(alnum, w);
    }
  }

  /** Trimming characters that are no letters or digits leaves the same words. */
  lemma HasTrimmed(alnum: CharTest, p: CharTest, s: string, w: string)
    requires Word(alnum, w) && forall c :: p(c) ==> !alnum(c)
    ensures Has(alnum, Trim(p, s), w) <==> Has(alnum, s, w)
  {
    var m := TrimStartIs(p, s);
    var middle := TrimStart(p, s);
    assert s == s[..m] + middle;
    HasInFront(alnum, s[..m], middle, w);
    var n := TrimEndIs(p, middle);
    assert middle == middle[..n] + middle[n..];
    HasBehind(alnum, middle[..n], middle[n..], w);
  }

  function Other(alnum: CharTest): CharTest {
    c => !alnum(c)
  }

  function RouteOf(w: string): Option<Route> {
    if w == PARALLEL_WORD then Some(Graph) else if w == SERIAL_WORD then Some(Serial) else None
  }

  lemma RouteWordNames(alnum: CharTest, w: string)
    requires Lawful(alnum) && RouteOf(w).Some?
    ensures Names(alnum, w) == RouteOf(w)
  {
    assert WordAt(alnum, w, 0, w);
    forall i: nat, v | v != w && (v == PARALLEL_WORD || v == SERIAL_WORD)
      ensures !WordAt(alnum, w, i, v)
    {
      if i + |v| <= |w| {
        assert w[i..i + |v|][0] == w[i] && w[i..i + |v|][1] == w[i + 1];
      }
    }
  }

  /** A piece of text that is a single route word, whatever surrounds it, names that route. */
  lemma CleanWordNames(alnum: CharTest, s: string)
    requires Lawful(alnum) && RouteOf(Trim(Other(alnum), s)).Some?
    ensures Names(alnum, s) == RouteOf(Trim(Other(alnum), s))
  {
    RouteWords(alnum);
    HasTrimmed(alnum, Other(alnum), s, PARALLEL_WORD);
    HasTrimmed(alnum, Other(alnum), s, SERIAL_WORD);
    RouteWordNames(alnum, Trim(Other(alnum), s));
  }

  /** So does a line that is one after its white space is trimmed. */
  lemma CleanLineNames(alnum: CharTest, line: string)
    requires Lawful(alnum) && RouteOf(Trim(Other(alnum), Trim(IsSpace, line))).Some?
    ensures Names(alnum, line) == RouteOf(Trim(Other(alnum), Trim(IsSpace, line)))
  {
    RouteWords(alnum);
    HasTrimmed(alnum, IsSpace, line, PARALLEL_WORD);
    HasTrimmed(alnum, IsSpace, line, SERIAL_WORD);
    CleanWordNames(alnum, Trim(IsSpace, line));
  }

  // ----- step 5

  lemma {:induction false} MatchesAscend(s: string, w: string, start: nat, k: nat)
    requires w != "" && k < |Matches(s, w, start)|
    ensures Matches(s, w, start)[k] >= start
    ensures forall j :: 0 <= j < k ==> Matches(s, w, start)[j] < Matches(s, w, start)[k]
    decreases |s| - start
  {
    if OccursAt(s, start, w) {
      var rest := Matches(s, w, start + |w|);
      if k > 0 {
        MatchesAscend(s, w, start + |w|, k - 1);
        assert forall j :: 0 < j < k ==> Matches(s, w, start)[j] == rest[j - 1];
      }
    } else {
      MatchesAscend(s, w, start + 1, k);
    }
  }

  lemma {:induction false} LastWholeIs(alnum: CharTest, s: string, w: string, positions: seq<nat>)
    requires forall j, k :: 0 <= j < k < |positions| ==> positions[j] < positions[k]
    ensures var last := LastWhole(alnum, s, w, positions);
            && (last.Some? ==> last.value in positions && WordAt(alnum, s, last.value, w))
            && forall i :: i in positions && WordAt(alnum, s, i, w) ==> last.Some? && i <= last.value
  {
    if positions != [] {
      var n := |positions| - 1;
      if !WordAt(alnum, s, positions[n], w) {
        LastWholeIs(alnum, s, w, positions[..n]);
      }
      assert positions == positions[..n] + [positions[n]];
    }
  }

  /** The last place a word stands alone. */
  ghost predicate LastPlace(alnum: CharTest, s: string, w: string, last: Option<nat>) {
    && (last.Some? ==> WordAt(alnum, s, last.value, w))
    && forall i: nat :: WordAt(alnum, s, i, w) ==> last.Some? && i <= last.value
  }

  /** The scan over occurrences finds it: there is one exactly when the word is a token. */
  lemma LastWholeIsLast(alnum: CharTest, s: string, w: string)
    requires NoOverlap(w)
    ensures LastPlace(alnum, s, w, LastWhole(alnum, s, w, Matches(s, w, 0)))
    ensures LastWhole(alnum, s, w, Matches(s, w, 0)).Some? <==> Has(alnum, s, w)
  {
    var positions := Matches(s, w, 0);
    forall j, k | 0 <= j < k < |positions|
      ensures positions[j] < positions[k]
    {
      MatchesAscend(s, w, 0, k);
    }
    LastWholeIs(alnum, s, w, positions);
    forall i: nat | WordAt(alnum, s, i, w)
      ensures i in positions
    {
      MatchesAll(s, w, 0, i);
    }
  }

  lemma RouteWordsDoNotOverlap()
    ensures NoOverlap(PARALLEL_WORD) && NoOverlap(SERIAL_WORD)
  {}

  lemma NotBoth(alnum: CharTest, s: string, i: nat)
    ensures !(WordAt(alnum, s, i, PARALLEL_WORD) && WordAt(alnum, s, i, SERIAL_WORD))
  {
    if WordAt(alnum, s, i, PARALLEL_WORD) {
      assert s[i] == s[i..i + 8][0] == 'p';
      assert i + 6 <= |s| ==> s[i..i + 6][0] == 'p';
    }
  }

  lemma {:induction false} LastWordIs(alnum: CharTest, s: string, n: nat, g: Option<nat>, t: Option<nat>)
    requires LastPlace(alnum, s, PARALLEL_WORD, g) && LastPlace(alnum, s, SERIAL_WORD, t)
    requires (g.Some? ==> g.value < n) && (t.Some? ==> t.value < n)
    ensures LastWord(alnum, s, n) ==
            if g.Some? && (t.Some? ==> g.value > t.value) then Some(Graph) else if t.Some? then Some(Serial) else None
  {
    if n > 0 {
      NotBoth(alnum, s, n - 1);
      if !WordAt(alnum, s, n - 1, PARALLEL_WORD) && !WordAt(alnum, s, n - 1, SERIAL_WORD) {
        LastWordIs(alnum, s, n - 1, g, t);
      }
    }
  }

  /** When both words are tokens, the later one decides. */
  lemma LaterWordDecides(alnum: CharTest, s: string)
    ensures var g := LastWhole(alnum, s, PARALLEL_WORD, Matches(s, PARALLEL_WORD, 0));
            var t := LastWhole(alnum, s, SERIAL_WORD, Matches(s, SERIAL_WORD, 0));
            LastWord(alnum, s, |s|) ==
            if g.Some? && (t.Some? ==> g.value > t.value) then Some(Graph) else if t.Some? then Some(Serial) else None
  {
    RouteWordsDoNotOverlap();
    LastWholeIsLast(alnum, s, PARALLEL_WORD);
    LastWholeIsLast(alnum, s, SERIAL_WORD);
    LastWordIs(alnum, s, |s|, LastWhole(alnum, s, PARALLEL_WORD, Matches(s, PARALLEL_WORD, 0)),
               LastWhole(alnum, s, SERIAL_WORD, Matches(s, SERIAL_WORD, 0)));
  }

  // ----- no route is made up

  lemma {:induction false} LastWordNamed(alnum: CharTest, s: string, n: nat)
    ensures LastWord(alnum, s, n) == Some(Graph) ==> Has(alnum, s, PARALLEL_WORD)
    ensures LastWord(alnum, s, n) == Some(Serial) ==> Has(alnum, s, SERIAL_WORD)
  {
    if n > 0 {
      LastWordNamed(alnum, s, n - 1);
    }
  }

  lemma WordAtStart(alnum: CharTest, s: string, i: nat, w: string)
    requires w != "" && WordAt(alnum, s, i, w)
    ensures s[i] == w[0]
  {
    assert s[i] == s[i..i + |w|][0];
  }

  lemma AfterMarkerNamed(alnum: CharTest, s: string, pos: nat, w: string)
    requires pos < |s| && w != "" && s[pos] != w[0] && Has(alnum, s[pos..], w)
    ensures Has(alnum, s, w)
  {
    var i: nat :| WordAt(alnum, s[pos..], i, w);
    WordAtStart(alnum, s[pos..], i, w);
    assert s[pos..][i..i + |w|] == s[pos + i..pos + i + |w|];
    assert WordAt(alnum, s, pos + i, w);
  }

  /** It starts with no letter of a route word. */
  predicate PlainMarker(m: string) {
    m != "" && m[0] != 'p' && m[0] != 's'
  }

  lemma MarkerNamed(alnum: CharTest, s: string, m: string)
    requires PlainMarker(m) && LastIndex(s, m, |s|).Some?
    ensures var after := s[LastIndex(s, m, |s|).value..];
            && (Has(alnum, after, PARALLEL_WORD) ==> Has(alnum, s, PARALLEL_WORD))
            && (Has(alnum, after, SERIAL_WORD) ==> Has(alnum, s, SERIAL_WORD))
  {
    var pos := LastIndex(s, m, |s|).value;
    assert s[pos] == s[pos..pos + |m|][0] == m[0];
    if Has(alnum, s[pos..], PARALLEL_WORD) {
      AfterMarkerNamed(alnum, s, pos, PARALLEL_WORD);
    }
    if Has(alnum, s[pos..], SERIAL_WORD) {
      AfterMarkerNamed(alnum, s, pos, SERIAL_WORD);
    }
  }

  lemma {:induction false} ByMarkerNamed(alnum: CharTest, s: string, markers: seq<string>)
    requires forall i :: 0 <= i < |markers| ==> PlainMarker(markers[i])
    ensures ByMarker(alnum, s, markers) == Some(Graph) ==> Has(alnum, s, PARALLEL_WORD)
    ensures ByMarker(alnum, s, markers) == Some(Serial) ==> Has(alnum, s, SERIAL_WORD)
  {
    if markers != [] {
      ByMarkerNamed(alnum, s, markers[1..]);
      if LastIndex(s, markers[0], |s|).Some? {
        MarkerNamed(alnum, s, markers[0]);
      }
    }
  }

  /** The graph route is chosen only by a text that says "parallel" as a word of its own. */
  lemma GraphIsNamed(alnum: CharTest, lower: string)
    requires Lawful(alnum) && Decision(alnum, lower) == Graph
    ensures Has(alnum, lower, PARALLEL_WORD)
  {
    RouteWords(alnum);
    if BottomLine(alnum, Lines(lower)).Some? {
      HasInLine(alnum, lower, PARALLEL_WORD);
      BottomLineIs(alnum, Lines(lower));
      var k :| 0 <= k < |Lines(lower)| && Names(alnum, Lines(lower)[k]) == Some(Graph);
      assert Has(alnum, Lines(lower)[k], PARALLEL_WORD);
    } else if ByMarker(alnum, lower, MARKERS).Some? {
      ByMarkerNamed(alnum, lower, MARKERS);
      assert ByMarker(alnum, lower, MARKERS) == Some(Graph);
    } else {
      LastWordNamed(alnum, lower, |lower|);
    }
  }

  // ----- the decision as the source takes it

  /** One side of the choice that steps 2, 3 and 4 share. */
  function Single(tokens: seq<string>): Option<Route> {
    var g, s := PARALLEL_WORD in tokens, SERIAL_WORD in tokens;
    if g && !s then Some(Graph) else if s && !g then Some(Serial) else None
  }

  lemma SingleNames(alnum: CharTest, s: string)
    requires Lawful(alnum)
    ensures Single(Tokens(alnum, s)) == Names(alnum, s)
  {
    RouteWords(alnum);
    TokenIff(alnum, s, PARALLEL_WORD);
    TokenIff(alnum, s, SERIAL_WORD);
  }

  method LineRoute(alnum: CharTest, line: string) returns (route: Option<Route>)
    requires Lawful(alnum)
    ensures route == Names(alnum, line)
  {
    SingleNames(alnum, line);
    var clean := Trim(Other(alnum), Trim(IsSpace, line));
    if clean == PARALLEL_WORD {
      CleanLineNames(alnum, line);
      return Some(Graph);
    }
    if clean == SERIAL_WORD {
      CleanLineNames(alnum, line);
      return Some(Serial);
    }
    route := Single(Tokens(alnum, line));
  }

  method LinesRoute(alnum: CharTest, lines: seq<string>) returns (route: Option<Route>)
    requires Lawful(alnum)
    ensures route == BottomLine(alnum, lines)
  {
    var n := |lines|;
    assert lines[..n] == lines;
    while n > 0
      invariant n <= |lines| && BottomLine(alnum, lines) == BottomLine(alnum, lines[..n])
    {
      n := n - 1;
      route := LineRoute(alnum, lines[n]);
      assert lines[..n + 1][..n] == lines[..n];
      if route.Some? {
        return;
      }
    }
    route := None;
  }

  method MarkerRoute(alnum: CharTest, lower: string) returns (route: Option<Route>)
    requires Lawful(alnum)
    ensures route == ByMarker(alnum, lower, MARKERS)
  {
    assert MARKERS[0..] == MARKERS;
    for i := 0 to |MARKERS|
      invariant ByMarker(alnum, lower, MARKERS) == ByMarker(alnum, lower, MARKERS[i..])
    {
      assert MARKERS[i..][0] == MARKERS[i] && MARKERS[i..][1..] == MARKERS[i + 1..];
      var found := LastIndex(lower, MARKERS[i], |lower|);
      if found.Some? {
        SingleNames(alnum, lower[found.value..]);
        route := Single(Tokens(alnum, lower[found.value..]));
        if route.Some? {
          return;
        }
      }
    }
    route := None;
  }

  /** `parse_route_decision`, for the trimmed text in lower case. */
  method ParseRouteDecision(alnum: CharTest, lower: string) returns (route: Route)
    requires Lawful(alnum)
    ensures route == Decision(alnum, lower)
  {
    var clean := Trim(Other(alnum), lower);
    if clean == PARALLEL_WORD {
      CleanWordNames(alnum, lower);
      OnlyRouteNamed(alnum, lower);
      return Graph;
    }
    if clean == SERIAL_WORD {
      CleanWordNames(alnum, lower);
      OnlyRouteNamed(alnum, lower);
      return Serial;
    }
    var line := LinesRoute(alnum, Lines(lower));
    if line.Some? {
      return line.value;
    }
    var marked := MarkerRoute(alnum, lower);
    if marked.Some? {
      return marked.value;
    }
    NoLineDecides(alnum, lower);
    route := WordsRoute(alnum, lower);
  }

  /** The last steps: all tokens, then the later word, then the fallback. */
  method WordsRoute(alnum: CharTest, lower: string) returns (route: Route)
    requires Lawful(alnum) && Names(alnum, lower) == None
    ensures route == LastWord(alnum, lower, |lower|).GetOr(Serial)
  {
    SingleNames(alnum, lower);
    var tokens := Tokens(alnum, lower);
    var g, s := PARALLEL_WORD in tokens, SERIAL_WORD in tokens;
    LaterWordDecides(alnum, lower);
    if g && !s {
      return Graph;
    }
    if s && !g {
      return Serial;
    }
    var lastG := LastWhole(alnum, lower, PARALLEL_WORD, Matches(lower, PARALLEL_WORD, 0));
    var lastS := LastWhole(alnum, lower, SERIAL_WORD, Matches(lower, SERIAL_WORD, 0));
    TokensAreLast(alnum, lower);
    if g && s {
      match (lastG, lastS) {
        case (Some(i), Some(j)) => return if i > j then Graph else Serial;
        case (Some(_), None) => return Graph;
        case (None, Some(_)) => return Serial;
        case (None, None) =>
      }
    }
    route := Serial;
  }

  /** A word is found by the scan for its last place exactly when it is a token, so that scan never comes back empty-handed. */
  lemma TokensAreLast(alnum: CharTest, lower: string)
    requires Lawful(alnum)
    ensures PARALLEL_WORD in Tokens(alnum, lower) <==>
            LastWhole(alnum, lower, PARALLEL_WORD, Matches(lower, PARALLEL_WORD, 0)).Some?
    ensures SERIAL_WORD in Tokens(alnum, lower) <==>
            LastWhole(alnum, lower, SERIAL_WORD, Matches(lower, SERIAL_WORD, 0)).Some?
  {
    RouteWords(alnum);
    RouteWordsDoNotOverlap();
    TokenIff(alnum, lower, PARALLEL_WORD);
    TokenIff(alnum, lower, SERIAL_WORD);
    LastWholeIsLast(alnum, lower, PARALLEL_WORD);
    LastWholeIsLast(alnum, lower, SERIAL_WORD);
  }
}
