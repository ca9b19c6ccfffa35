/** The `<ACCEPT>`/`<FEEDBACK>` verdict at the end of a node's answer, and its bounded repair. */
module Verdict {
  import opened Wrappers
  import opened Whitespace
  import opened Text
  import opened Collections

  datatype Error = Protocol | Failed(message: string)

  function Marker(feedback: bool): string {
    if feedback then "<FEEDBACK>" else "<ACCEPT>"
  }

  /** Does the answer give feedback? */
  function Feedback(output: string): Result<bool, Error> {
    var lines := Lines(Trim(IsSpace, output));
    if lines == [] then Err(Protocol)
    else
      var last := Trim(IsSpace, lines[|lines| - 1]);
      if last == Marker(false) then Ok(false)
      else if last == Marker(true) then Ok(true)
      else Err(Protocol)
  }

  /** Where the last line starts. */
  function LineStart(s: string): (n: nat)
    ensures n <= |s|
    ensures n == 0 || s[n - 1] == '\n'
    ensures forall k :: n <= k < |s| ==> s[k] != '\n'
  {
    if s == "" then 0 else if s[|s| - 1] == '\n' then |s| else LineStart(s[..|s| - 1])
  }

  function FeedbackBody(output: string): Result<string, Error> {
    if Feedback(output).Err? then Err(Feedback(output).error)
    else
      var text := TrimEnd(IsSpace, output);
      var marker := if LineStart(text) == 0 then 0 else LineStart(text) - 1;
      Ok(TrimEnd(IsSpace, text[..marker]))
  }

  // ----- what a readable answer looks like

  /** Lines, then a line with the marker and white space, then white space. */
  ghost predicate Ends(output: string, feedback: bool, lines: string, indent: string, rest: string) {
    && output == lines + indent + Marker(feedback) + rest
    && (lines == "" || lines[|lines| - 1] == '\n')
    && Blank(indent) && Blank(rest)
  }

  ghost predicate Readable(output: string, feedback: bool) {
    exists lines, indent, rest :: Ends(output, feedback, lines, indent, rest)
  }

  /** No white space at either end. */
  predicate Bare(s: string) {
    s != "" && !IsSpace(s[0]) && !IsSpace(s[|s| - 1])
  }

  lemma MarkersAreBare(feedback: bool)
    ensures Bare(Marker(feedback)) && forall k :: 0 <= k < |Marker(feedback)| ==> Marker(feedback)[k] != '\n'
  {}

  lemma {:induction false} TrimStartSkips(blank: string, s: string)
    requires Blank(blank)
    ensures TrimStart(IsSpace, blank + s) == TrimStart(IsSpace, s)
  {
    if blank == "" {
      assert blank + s == s;
    } else {
      assert blank[0] in blank;
      TrimStartSkips(blank[1..], s);
      assert (blank + s)[1..] == blank[1..] + s;
    }
  }

  lemma {:induction false} TrimEndSkips(s: string, blank: string)
    requires Blank(blank)
    ensures TrimEnd(IsSpace, s + blank) == TrimEnd(IsSpace, s)
    decreases |blank|
  {
    if blank == "" {
      assert s + blank == s;
    } else {
      var n := |blank| - 1;
      assert blank[n] in blank;
      TrimEndSkips(s, blank[..n]);
      assert (s + blank)[..|s + blank| - 1] == s + blank[..n];
    }
  }

  lemma {:induction false} TrimStartStops(s: string, bare: string)
    requires bare != "" && !IsSpace(bare[0])
    ensures TrimStart(IsSpace, s + bare) == TrimStart(IsSpace, s) + bare
  {
    if s == "" {
      assert s + bare == bare;
    } else {
      TrimStartStops(s[1..], bare);
      assert (s + bare)[1..] == s[1..] + bare;
    }
  }

  lemma TrimEndStops(s: string, bare: string)
    requires Bare(bare)
    ensures TrimEnd(IsSpace, s + bare) == s + bare
  {}

  lemma {:induction false} LineStartAfter(a: string, b: string)
    requires a == "" || a[|a| - 1] == '\n'
    ensures LineStart(a + b) == |a| + LineStart(b)
  {
    if b == "" {
      assert a + b == a;
    } else if b[|b| - 1] != '\n' {
      LineStartAfter(a, b[..|b| - 1]);
      assert (a + b)[..|a + b| - 1] == a + b[..|b| - 1];
    }
  }

  lemma LinesStep(s: string, n: nat)
    requires n == NewlineIndex(s) < |s| && Lines(s[n + 1..]) != []
    ensures Lines(s) != [] && Lines(s)[|Lines(s)| - 1] == Lines(s[n + 1..])[|Lines(s[n + 1..])| - 1]
  {}

  lemma {:induction false} LastLine(s: string)
    requires s != "" && s[|s| - 1] != '\n'
    ensures |Lines(s)| > 0 && Lines(s)[|Lines(s)| - 1] == s[LineStart(s)..]
    decreases |s|
  {
    var n := NewlineIndex(s);
    if n == |s| {
      NoNewline(s);
    } else {
      LastLine(s[n + 1..]);
      LinesStep(s, n);
      LineStartStep(s, n);
    }
  }

  lemma LineStartStep(s: string, n: nat)
    requires n < |s| && s[n] == '\n'
    ensures s[n + 1..][LineStart(s[n + 1..])..] == s[LineStart(s)..]
  {
    assert s == s[..n + 1] + s[n + 1..];
    LineStartAfter(s[..n + 1], s[n + 1..]);
  }

  lemma {:induction false} NoNewline(s: string)
    requires NewlineIndex(s) == |s|
    ensures LineStart(s) == 0
  {
    if LineStart(s) > 0 {
      BeforeNewline(s, LineStart(s) - 1);
    }
  }

  lemma {:induction false} BeforeNewline(s: string, k: nat)
    requires k < |s| && s[k] == '\n'
    ensures NewlineIndex(s) <= k
  {
    if s[0] != '\n' {
      BeforeNewline(s[1..], k - 1);
    }
  }

  lemma LineStartInFront(a: string, b: string)
    requires forall k :: 0 <= k < |b| ==> b[k] != '\n'
    ensures LineStart(a + b) <= |a|
  {
    forall k | |a| <= k < |a + b|
      ensures (a + b)[k] != '\n'
    {
      assert (a + b)[k] == b[k - |a|];
    }
  }

  /** The last line of lines, an indent and a marker, where it starts and what is left of it. */
  lemma MarkerLine(lines: string, indent: string, marker: string)
    requires lines == "" || lines[|lines| - 1] == '\n'
    requires Blank(indent) && Bare(marker) && forall k :: 0 <= k < |marker| ==> marker[k] != '\n'
    ensures var text := lines + indent + marker;
            && |lines| <= LineStart(text) <= |lines + indent|
            && Trim(IsSpace, text[LineStart(text)..]) == marker
  {
    var text := lines + indent + marker;
    var line := indent + marker;
    assert text == lines + line;
    LineStartAfter(lines, line);
    var n := LineStart(line);
    LineStartInFront(indent, marker);
    assert text[LineStart(text)..] == indent[n..] + marker;
    IndentTrimmed(indent[n..], marker);
  }

  lemma IndentTrimmed(indent: string, marker: string)
    requires Blank(indent) && Bare(marker)
    ensures Trim(IsSpace, indent + marker) == marker
  {
    TrimStartSkips(indent, marker);
    assert "" + marker == marker;
    TrimEndStops("", marker);
  }

  lemma ReadableParts(output: string, feedback: bool, lines: string, indent: string, rest: string)
    requires Ends(output, feedback, lines, indent, rest)
    ensures TrimEnd(IsSpace, output) == lines + indent + Marker(feedback)
    ensures Trim(IsSpace, output) == TrimStart(IsSpace, lines + indent) + Marker(feedback)
  {
    var marker := Marker(feedback);
    MarkersAreBare(feedback);
    var before := lines + indent;
    TrimEndSkips(before + marker, rest);
    TrimEndStops(before, marker);
    assert output == before + (marker + rest);
    TrimStartStops(before, marker + rest);
    var start := TrimStart(IsSpace, before);
    assert start + (marker + rest) == start + marker + rest;
    TrimEndSkips(start + marker, rest);
    TrimEndStops(start, marker);
  }

  lemma LineRead(output: string, feedback: bool, text: string)
    requires Trim(IsSpace, output) == text && text != "" && text[|text| - 1] != '\n'
    requires Trim(IsSpace, text[LineStart(text)..]) == Marker(feedback)
    ensures Feedback(output) == Ok(feedback)
  {
    LastLine(text);
    assert Marker(true) != Marker(false);
  }

  /** Trimming the start of lines and an indent leaves lines and an indent. */
  lemma StillLines(lines: string, indent: string, n: nat) returns (lines': string, indent': string)
    requires n <= |lines + indent| && Blank(indent) && (lines == "" || lines[|lines| - 1] == '\n')
    ensures (lines + indent)[n..] == lines' + indent'
    ensures Blank(indent') && (lines' == "" || lines'[|lines'| - 1] == '\n')
  {
    if n <= |lines| {
      lines', indent' := lines[n..], indent;
    } else {
      lines', indent' := "", indent[n - |lines|..];
    }
  }

  lemma ReadableIsRead(output: string, feedback: bool, lines: string, indent: string, rest: string)
    requires Ends(output, feedback, lines, indent, rest)
    ensures Feedback(output) == Ok(feedback)
  {
    ReadableParts(output, feedback, lines, indent, rest);
    MarkersAreBare(feedback);
    var n := TrimStartIs(IsSpace, lines + indent);
    var lines', indent' := StillLines(lines, indent, n);
    MarkerLine(lines', indent', Marker(feedback));
    LineRead(output, feedback, lines' + indent' + Marker(feedback));
  }

  /** An output is white space, its trimmed text, and white space. */
  lemma TrimSplits(output: string) returns (front: string, rest: string)
    ensures output == front + Trim(IsSpace, output) + rest && Blank(front) && Blank(rest)
    ensures Trim(IsSpace, output) == "" || Bare(Trim(IsSpace, output))
  {
    var i := TrimStartIs(IsSpace, output);
    var start := output[i..];
    var j := TrimEndIs(IsSpace, start);
    front, rest := output[..i], start[j..];
    TrimEndBare(start);
    TrimStartBare(output);
  }

  lemma {:induction false} TrimStartBare(s: string)
    ensures var t := TrimStart(IsSpace, s); t == "" || !IsSpace(t[0])
  {
    if s != "" && IsSpace(s[0]) {
      TrimStartBare(s[1..]);
    }
  }

  /** A last line that trims to a marker is an indent and that marker. */
  lemma MarkerLineSplits(line: string, marker: string) returns (indent: string)
    requires line != "" && !IsSpace(line[|line| - 1]) && Trim(IsSpace, line) == marker
    ensures line == indent + marker && Blank(indent)
  {
    var a := TrimStartIs(IsSpace, line);
    var b := TrimEndIs(IsSpace, line[a..]);
    TrimmedToEnd(line, a, b);
    indent := line[..a];
  }

  lemma LastLineOf(text: string)
    requires text != "" && !IsSpace(text[|text| - 1])
    ensures LineStart(text) < |text| && |Lines(text)| > 0
    ensures Lines(text)[|Lines(text)| - 1] == text[LineStart(text)..]
  {
    NewlineIsSpace(text[|text| - 1]);
    LastLine(text);
  }

  lemma NewlineIsSpace(c: char)
    requires !IsSpace(c)
    ensures c != '\n'
  {}

  lemma PartsReadable(output: string, feedback: bool, front: string, text: string, k: nat, rest: string)
    requires output == front + text + rest && Blank(front) && Blank(rest)
    requires k < |text| && !IsSpace(text[|text| - 1]) && (k == 0 || text[k - 1] == '\n')
    requires Trim(IsSpace, text[k..]) == Marker(feedback)
    ensures Readable(output, feedback)
  {
    var indent := MarkerLineSplits(text[k..], Marker(feedback));
    assert text == text[..k] + text[k..];
    Associate(text[..k], indent, Marker(feedback));
    if k > 0 {
      EndsAfterLines(output, feedback, front, text[..k], indent, rest);
    } else {
      EndsAtOnce(output, feedback, front, indent, rest);
    }
  }

  lemma TextReadable(output: string, feedback: bool)
    requires var lines := Lines(Trim(IsSpace, output));
             lines != [] && Trim(IsSpace, lines[|lines| - 1]) == Marker(feedback)
    ensures Readable(output, feedback)
  {
    var front, rest := TrimSplits(output);
    var text := Trim(IsSpace, output);
    LastLineOf(text);
    PartsReadable(output, feedback, front, text, LineStart(text), rest);
  }

  lemma ReadMeansReadable(output: string, feedback: bool)
    requires Feedback(output) == Ok(feedback)
    ensures Readable(output, feedback)
  {
    TextReadable(output, feedback);
  }

  lemma EndsAfterLines(output: string, feedback: bool, front: string, lines: string, indent: string, rest: string)
    requires output == front + (lines + indent + Marker(feedback)) + rest && Blank(indent) && Blank(rest)
    requires lines != "" && lines[|lines| - 1] == '\n'
    ensures Readable(output, feedback)
  {
    assert output == (front + lines) + indent + Marker(feedback) + rest;
    assert Ends(output, feedback, front + lines, indent, rest);
  }

  lemma EndsAtOnce(output: string, feedback: bool, front: string, indent: string, rest: string)
    requires output == front + ("" + indent + Marker(feedback)) + rest && Blank(front) && Blank(indent) && Blank(rest)
    ensures Readable(output, feedback)
  {
    assert output == "" + (front + indent) + Marker(feedback) + rest;
    assert Ends(output, feedback, "", front + indent, rest);
  }

  lemma {:induction false} TrimEndBare(s: string)
    ensures var t := TrimEnd(IsSpace, s); t == "" || !IsSpace(t[|t| - 1])
  {
    if s != "" && IsSpace(s[|s| - 1]) {
      TrimEndBare(s[..|s| - 1]);
    }
  }

  /** A line that ends in no white space is trimmed at its start only. */
  lemma TrimmedToEnd(line: string, a: nat, b: nat)
    requires a <= |line| && b <= |line| - a && line != "" && !IsSpace(line[|line| - 1])
    requires forall k :: b <= k < |line| - a ==> IsSpace(line[a..][k])
    ensures b == |line| - a
  {
    if a < |line| {
      assert line[a..][|line| - a - 1] == line[|line| - 1];
    }
  }

  /** An answer is read exactly when its last line with any text is the marker alone. */
  lemma FeedbackIff(output: string, feedback: bool)
    ensures Feedback(output) == Ok(feedback) <==> Readable(output, feedback)
  {
    if Feedback(output) == Ok(feedback) {
      ReadMeansReadable(output, feedback);
    }
    if lines, indent, rest :| Ends(output, feedback, lines, indent, rest) {
      ReadableIsRead(output, feedback, lines, indent, rest);
    }
  }

  /** The body of a readable answer is what stands before the marker, with its end trimmed. */
  lemma BodyIs(output: string, feedback: bool, lines: string, indent: string, rest: string)
    requires Ends(output, feedback, lines, indent, rest)
    ensures FeedbackBody(output) == Ok(TrimEnd(IsSpace, lines))
  {
    ReadableIsRead(output, feedback, lines, indent, rest);
    ReadableParts(output, feedback, lines, indent, rest);
    MarkersAreBare(feedback);
    var marker := Marker(feedback);
    MarkerLine(lines, indent, marker);
    CutBody(lines, indent, marker, LineStart(lines + indent + marker));
  }

  /** Cutting at the last newline, or at the start if there is none, leaves the lines. */
  lemma CutBody(lines: string, indent: string, marker: string, n: nat)
    requires lines == "" || lines[|lines| - 1] == '\n'
    requires Blank(indent) && |lines| <= n <= |lines + indent|
    ensures TrimEnd(IsSpace, (lines + indent + marker)[..if n == 0 then 0 else n - 1]) == TrimEnd(IsSpace, lines)
  {
    if n > 0 {
      var before := lines + indent;
      assert (before + marker)[..n - 1] == before[..n - 1];
      assert before == before[..n - 1] + before[n - 1..];
      CutIsBlank(lines, indent, n - 1);
      TrimEndSkips(before[..n - 1], before[n - 1..]);
      TrimEndSkips(lines, indent);
    }
  }

  lemma CutIsBlank(lines: string, indent: string, n: nat)
    requires Blank(indent) && n < |lines + indent|
    requires n >= |lines| - 1 && (lines == "" || lines[|lines| - 1] == '\n')
    ensures Blank((lines + indent)[n..])
  {
    var cut := (lines + indent)[n..];
    forall c | c in cut
      ensures IsSpace(c)
    {
      var k :| 0 <= k < |cut| && cut[k] == c;
      if n + k >= |lines| {
        assert c == indent[n + k - |lines|];
      }
    }
  }

  /** Writing a body, a marker on a line of its own and any white space is undone by reading the body. */
  lemma BodyRoundTrip(body: string, feedback: bool, indent: string, rest: string)
    requires Blank(indent) && Blank(rest)
    ensures var output := body + "\n" + indent + Marker(feedback) + rest;
            Feedback(output) == Ok(feedback) && FeedbackBody(output) == Ok(TrimEnd(IsSpace, body))
  {
    var output := body + "\n" + indent + Marker(feedback) + rest;
    assert Ends(output, feedback, body + "\n", indent, rest);
    ReadableIsRead(output, feedback, body + "\n", indent, rest);
    BodyIs(output, feedback, body + "\n", indent, rest);
    TrimEndSkips(body, "\n");
  }

  /** A body is read exactly when the verdict is. */
  lemma BodyIffVerdict(output: string)
    ensures FeedbackBody(output).Ok? <==> Feedback(output).Ok?
    ensures FeedbackBody(output).Ok? <==> exists feedback :: Readable(output, feedback)
  {
    FeedbackIff(output, true);
    FeedbackIff(output, false);
  }

  // ----- repair

  const ATTEMPTS := 2

  /** The answer on the table after `n` repair turns; `turns(k)` is what turn `k` yields. */
  function AnswerAfter(turns: nat -> Result<string, string>, output: string, n: nat): Result<string, string> {
    if n == 0 then Ok(output) else turns(n - 1)
  }

  /** Turn `n` follows: every answer so far arrived, and none could be read. */
  ghost predicate Needed(turns: nat -> Result<string, string>, output: string, n: nat) {
    forall k :: 0 <= k < n ==> Unread(AnswerAfter(turns, output, k))
  }

  predicate Unread(answer: Result<string, string>) {
    answer.Ok? && Feedback(answer.value).Err?
  }

  /** `repair_feedback_verdict`: at most two further turns, only while the answer is unreadable. */
  method RepairFeedbackVerdict(turns: nat -> Result<string, string>, output: string)
    returns (verdict: Result<string, Error>, used: nat)
    ensures Settles(turns, output, verdict, used)
  {
    var current := output;
    used := 0;
    while used < ATTEMPTS
      invariant used <= ATTEMPTS && Needed(turns, output, used)
      invariant AnswerAfter(turns, output, used) == Ok(current)
    {
      var read := Feedback(current);
      if read.Ok? {
        return Ok(current), used;
      }
      NeededNext(turns, output, used);
      var answer := turns(used);
      used := used + 1;
      if answer.Err? {
        return Err(Failed(answer.error)), used;
      }
      current := answer.value;
    }
    var read := Feedback(current);
    verdict := if read.Ok? then Ok(current) else Err(read.error);
    OnlyProtocolErrors(current);
  }

  lemma OnlyProtocolErrors(output: string)
    ensures Feedback(output).Err? ==> Feedback(output).error == Protocol
  {}

  /** An answer that can be read is returned as it is, with no further turn. */
  lemma ReadableUntouched(turns: nat -> Result<string, string>, output: string, verdict: Result<string, Error>, used: nat)
    requires Settles(turns, output, verdict, used) && Feedback(output).Ok?
    ensures verdict == Ok(output) && used == 0
  {
    assert used > 0 ==> Unread(AnswerAfter(turns, output, 0));
  }

  lemma NeededNext(turns: nat -> Result<string, string>, output: string, n: nat)
    requires Needed(turns, output, n) && Unread(AnswerAfter(turns, output, n))
    ensures Needed(turns, output, n + 1)
  {}

  /** The verdict is the answer after the turns used; it fails only with that answer's own error, or when turns run out. */
  ghost predicate Settles(turns: nat -> Result<string, string>, output: string, verdict: Result<string, Error>, used: nat) {
    && used <= ATTEMPTS && Needed(turns, output, used)
    && match AnswerAfter(turns, output, used)
       case Err(message) => verdict == Err(Failed(message))
       case Ok(answer) =>
         if Feedback(answer).Ok? then verdict == Ok(answer) else used == ATTEMPTS && verdict == Err(Protocol)
  }

  /** Repair succeeds exactly when an answer within two turns is readable, all turns before it having arrived. */
  lemma RepairSucceedsIff(turns: nat -> Result<string, string>, output: string, verdict: Result<string, Error>, used: nat)
    requires Settles(turns, output, verdict, used)
    ensures verdict.Ok? <==> exists n: nat :: n <= ATTEMPTS && ReadAfter(turns, output, n)
  {
    if verdict.Ok? {
      assert ReadAfter(turns, output, used);
    }
    forall n: nat | n <= ATTEMPTS && ReadAfter(turns, output, n)
      ensures verdict.Ok?
    {
      assert used < n ==> Unread(AnswerAfter(turns, output, used));
      assert n < used ==> Unread(AnswerAfter(turns, output, n));
    }
  }

  ghost predicate ReadAfter(turns: nat -> Result<string, string>, output: string, n: nat) {
    && Needed(turns, output, n)
    && AnswerAfter(turns, output, n).Ok? && Feedback(AnswerAfter(turns, output, n).value).Ok?
  }
}
