/** What a node's answer says, and what repairing it gives, with the markers and the number of turns written out. */
module VerdictAnswers {
  import opened Wrappers
  import opened Whitespace
  import opened Text
  import opened Verdict

  /** White space by code point: 25 characters. */
  lemma SpaceIs(c: char)
    ensures IsSpace(c) <==>
            c as int in {9, 10, 11, 12, 13, 32, 133, 160, 5760, 8192, 8193, 8194, 8195, 8196, 8197, 8198, 8199, 8200, 8201,
                         8202, 8232, 8233, 8239, 8287, 12288}
  {
    assert '\t' as int == 9 && '\r' as int == 13 && '\U{2000}' as int == 8192 && '\U{200A}' as int == 8202;
  }

  /** The last line with any text is this mark, white space aside; `above` stands on the lines before it. */
  ghost predicate SignedOff(output: string, above: string, mark: string) {
    exists indent, rest :: SignsOff(output, above, indent, mark, rest)
  }

  ghost predicate SignsOff(output: string, above: string, indent: string, mark: string, rest: string) {
    && output == above + indent + mark + rest
    && (above == "" || above[|above| - 1] == '\n')
    && (forall c :: c in indent ==> IsSpace(c)) && (forall c :: c in rest ==> IsSpace(c))
  }

  ghost predicate SaysFeedback(output: string) {
    exists above :: SignedOff(output, above, "<FEEDBACK>")
  }

  ghost predicate SaysAccept(output: string) {
    exists above :: SignedOff(output, above, "<ACCEPT>")
  }

  lemma SignedOffIff(output: string, feedback: bool)
    ensures Readable(output, feedback) <==> if feedback then SaysFeedback(output) else SaysAccept(output)
  {
    var mark := if feedback then "<FEEDBACK>" else "<ACCEPT>";
    if above, indent, rest :| Ends(output, feedback, above, indent, rest) {
      assert SignsOff(output, above, indent, mark, rest);
      assert SignedOff(output, above, mark);
    }
    if above :| SignedOff(output, above, mark) {
      var indent, rest :| SignsOff(output, above, indent, mark, rest);
      assert Ends(output, feedback, above, indent, rest);
    }
  }

  /** Feedback is given by its mark, acceptance by the other, and anything else breaks the protocol. */
  lemma FeedbackMeans(output: string)
    ensures Feedback(output) == Ok(true) <==> SaysFeedback(output)
    ensures Feedback(output) == Ok(false) <==> SaysAccept(output)
    ensures !SaysFeedback(output) && !SaysAccept(output) ==> Feedback(output) == Err(Protocol)
  {
    FeedbackIff(output, true);
    FeedbackIff(output, false);
    SignedOffIff(output, true);
    SignedOffIff(output, false);
  }

  /** `body` is `text` up to the white space at its end. */
  ghost predicate CutOff(text: string, body: string) {
    && body <= text && (forall c :: c in text[|body|..] ==> IsSpace(c))
    && (body == "" || !IsSpace(body[|body| - 1]))
  }

  lemma TrimEndCuts(text: string)
    ensures CutOff(text, TrimEnd(IsSpace, text))
  {
    var n := TrimEndIs(IsSpace, text);
    TrimEndBare(text);
    forall c | c in text[n..]
      ensures IsSpace(c)
    {
      var k :| 0 <= k < |text[n..]| && text[n..][k] == c;
      assert text[n + k] == c;
    }
  }

  /** The body of an answer with either mark is what stands above it, up to the white space at its end; without a mark
      there is none. */
  lemma BodyMeans(output: string)
    ensures !SaysFeedback(output) && !SaysAccept(output) ==> FeedbackBody(output) == Err(Protocol)
    ensures SaysFeedback(output) || SaysAccept(output) ==>
              FeedbackBody(output).Ok?
              && forall above :: SignedOff(output, above, "<FEEDBACK>") || SignedOff(output, above, "<ACCEPT>") ==>
                   CutOff(above, FeedbackBody(output).value)
  {
    FeedbackMeans(output);
    BodyIffVerdict(output);
    forall above | SignedOff(output, above, "<FEEDBACK>") || SignedOff(output, above, "<ACCEPT>")
      ensures FeedbackBody(output).Ok? && CutOff(above, FeedbackBody(output).value)
    {
      AboveIsBody(output, above, SignedOff(output, above, "<FEEDBACK>"));
    }
  }

  lemma AboveIsBody(output: string, above: string, feedback: bool)
    requires SignedOff(output, above, if feedback then "<FEEDBACK>" else "<ACCEPT>")
    ensures FeedbackBody(output).Ok? && CutOff(above, FeedbackBody(output).value)
  {
    var indent, rest :| SignsOff(output, above, indent, if feedback then "<FEEDBACK>" else "<ACCEPT>", rest);
    assert Ends(output, feedback, above, indent, rest);
    BodyIs(output, feedback, above, indent, rest);
    TrimEndCuts(above);
  }

  /** The answer carries either mark. */
  ghost predicate Marked(output: string) {
    SaysFeedback(output) || SaysAccept(output)
  }

  /** Repair, turn by turn: the first answer that carries a mark is taken; a turn that fails ends it; after two turns
      without a mark the protocol is broken. */
  lemma RepairIs(turns: nat -> Result<string, string>, output: string, verdict: Result<string, Error>, used: nat)
    requires Settles(turns, output, verdict, used)
    ensures
      if Marked(output) then verdict == Ok(output) && used == 0
      else if turns(0).Err? then verdict == Err(Failed(turns(0).error)) && used == 1
      else if Marked(turns(0).value) then verdict == Ok(turns(0).value) && used == 1
      else if turns(1).Err? then verdict == Err(Failed(turns(1).error)) && used == 2
      else if Marked(turns(1).value) then verdict == Ok(turns(1).value) && used == 2
      else verdict == Err(Protocol) && used == 2
  {
    UnmarkedBefore(turns, output, used);
    SettledAt(turns, output, verdict, used);
  }

  lemma UnmarkedBefore(turns: nat -> Result<string, string>, output: string, used: nat)
    requires used <= 2 && Needed(turns, output, used)
    ensures used > 0 ==> !Marked(output)
    ensures used > 1 ==> turns(0).Ok? && !Marked(turns(0).value)
  {
    if used > 0 {
      assert Unread(AnswerAfter(turns, output, 0));
      MarkedIff(output);
    }
    if used > 1 {
      assert Unread(AnswerAfter(turns, output, 1));
      MarkedIff(turns(0).value);
    }
  }

  lemma SettledAt(turns: nat -> Result<string, string>, output: string, verdict: Result<string, Error>, used: nat)
    requires Settles(turns, output, verdict, used)
    ensures used <= 2
    ensures var answer := if used == 0 then Ok(output) else turns(used - 1);
            if answer.Err? then verdict == Err(Failed(answer.error))
            else if Marked(answer.value) then verdict == Ok(answer.value)
            else used == 2 && verdict == Err(Protocol)
  {
    var answer := AnswerAfter(turns, output, used);
    if answer.Ok? {
      MarkedIff(answer.value);
    }
  }

  lemma MarkedIff(output: string)
    ensures Marked(output) <==> Feedback(output).Ok?
    ensures !Marked(output) ==> Feedback(output) == Err(Protocol)
  {
    FeedbackMeans(output);
  }
}
