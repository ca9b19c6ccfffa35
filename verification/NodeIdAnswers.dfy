/** What the slug and the id of a node name are, in terms of its letters and digits. */
module NodeIdAnswers {
  import opened Collections
  import opened NodeId

  ghost predicate AllPlain(s: string) {
    forall i :: 0 <= i < |s| ==> 'a' <= s[i] <= 'z' || 'A' <= s[i] <= 'Z' || '0' <= s[i] <= '9'
  }

  ghost predicate NonePlain(s: string) {
    forall i :: 0 <= i < |s| ==> !('a' <= s[i] <= 'z' || 'A' <= s[i] <= 'Z' || '0' <= s[i] <= '9')
  }

  // ----- words

  lemma LowerNext(init: string, c: char)
    ensures Lower(init + [c]) == Lower(init) + [LowerChar(c)]
  {}

  lemma OneLetter(c: char)
    requires AllPlain([c])
    ensures Words([c]) == [Lower([c])]
  {
    assert [c][0] == c && [c][..0] == "";
    assert Lower([c]) == [LowerChar(c)];
  }

  lemma OneMore(init: string, c: char)
    requires init != "" && AllPlain(init) && AllPlain([c]) && Words(init) == [Lower(init)]
    ensures Words(init + [c]) == [Lower(init) + [LowerChar(c)]]
  {
    WordsUnfold(init, c);
    assert [c][0] == c;
  }

  /** A run of letters and digits is one word, in lower case. */
  lemma {:induction false} OneWord(s: string)
    requires s != "" && AllPlain(s)
    ensures Words(s) == [Lower(s)]
  {
    var init, c := s[..|s| - 1], s[|s| - 1];
    assert s == init + [c] && AllPlain([c]);
    LowerNext(init, c);
    if init == "" {
      OneLetter(c);
      assert s == [c];
    } else {
      OneWord(init);
      OneMore(init, c);
    }
  }

  /** Anything else separates words. */
  lemma {:induction false} SeparatedWords(a: string, c: char, b: string)
    requires NonePlain([c])
    ensures Words(a + [c] + b) == Words(a) + Words(b)
    decreases |b|
  {
    var s := a + [c] + b;
    assert [c][0] == c;
    if b == "" {
      WordsUnfold(a, c);
      assert s == a + [c];
      assert Words(a) + [] == Words(a);
    } else {
      var init, last := b[..|b| - 1], b[|b| - 1];
      SeparatedWords(a, c, init);
      assert b == init + [last];
      assert s == a + [c] + init + [last];
      WordsUnfold(a + [c] + init, last);
      WordsUnfold(init, last);
      Grown(a, c, init, last);
    }
  }

  lemma Grown(a: string, c: char, init: string, last: char)
    requires NonePlain([c]) && Words(a + [c] + init) == Words(a) + Words(init)
    ensures Words(a + [c] + init + [last]) == Words(a) + Words(init + [last])
  {
    assert [c][0] == c;
    var before := a + [c] + init;
    WordsUnfold(before, last);
    WordsUnfold(init, last);
    assert InWord(before) == InWord(init);
    if IsLetterOrDigit(last) && !InWord(init) {
      Associate(Words(a), Words(init), [[LowerChar(last)]]);
    }
  }

  // ----- the slug

  /** A joined slug cut to 24 characters, without the dashes this leaves at the end. */
  ghost predicate IsCut(joined: string, slug: string) {
    && |slug| <= 24 && slug <= joined
    && (slug != "" ==> slug[|slug| - 1] != '-')
    && forall k :: |slug| <= k < |joined| && k < 24 ==> joined[k] == '-'
  }

  /** The words of the name joined by dashes, cut to length; "node" if there is no word. */
  lemma SlugIs(name: string)
    ensures if Words(name) == [] then Slug(name) == "node" else IsCut(JoinWords(Words(name)), Slug(name))
  {
    var words := Words(name);
    var joined := JoinWords(words);
    var cut := if |joined| > 24 then joined[..24] else joined;
    WordsNonempty(name);
    JoinEmptyIff(words);
    TrimPrefix(cut);
    TrimmedDashes(cut);
    if words != [] {
      JoinFirst(words);
      WordsChars(name);
      assert words[0] in words && words[0][0] in words[0];
      TrimKeepsFirst(cut);
    } else {
      assert cut == "";
    }
  }

  lemma {:induction false} TrimmedDashes(s: string)
    ensures TrimDashes(s) <= s && forall k :: |TrimDashes(s)| <= k < |s| ==> s[k] == '-'
  {
    if s != "" && s[|s| - 1] == '-' {
      TrimmedDashes(s[..|s| - 1]);
    }
  }

  /** Joining puts one dash between words and nothing else. */
  lemma Joined(words: seq<string>, w: string)
    ensures JoinWords([w]) == w
    ensures words != [] ==> JoinWords(words + [w]) == JoinWords(words) + "-" + w
  {
    JoinAppend(words, w);
  }

  // ----- kept names

  /** The first part of a name, in lower case, is one of Windows' devices. */
  ghost predicate NamesDevice(part: string) {
    || Lower(part) in {"con", "prn", "aux", "nul", "conin$", "conout$"}
    || exists n :: '1' <= n <= '9' && (Lower(part) == "com" + [n] || Lower(part) == "lpt" + [n])
  }

  ghost predicate Reserved(name: string) {
    exists part :: IsFirstPart(name, part) && NamesDevice(part)
  }

  ghost predicate IsFirstPart(name: string, part: string) {
    '.' !in part && (part == name || (|part| < |name| && part == name[..|part|] && name[|part|] == '.'))
  }

  lemma {:induction false} BeforeDotIs(name: string, part: string)
    ensures part == BeforeDot(name) <==> IsFirstPart(name, part)
  {
    if name == "" || name[0] == '.' {
      if part != "" {
        assert part[0] in part;
      }
    } else {
      if part != "" {
        BeforeDotIs(name[1..], part[1..]);
        assert part == [part[0]] + part[1..] && name == [name[0]] + name[1..];
        assert '.' in part <==> part[0] == '.' || '.' in part[1..];
        assert |part| <= |name| ==> name[1..][..|part| - 1] == name[1..|part|];
      }
    }
  }

  lemma DeviceIff(device: string)
    ensures (("com" <= device || "lpt" <= device) && |device| == 4 && '1' <= device[3] <= '9') <==>
            exists n :: '1' <= n <= '9' && (device == "com" + [n] || device == "lpt" + [n])
  {
    if |device| == 4 {
      assert device == device[..3] + [device[3]];
    }
  }

  /** A name is kept as its own id exactly when it is short, plain and no Windows device. */
  lemma KeptIff(digest: Digest, name: string)
    ensures IsLegacy(name) <==>
            && 1 <= |name| <= 64
            && (forall c :: c in name ==> 'a' <= c <= 'z' || 'A' <= c <= 'Z' || '0' <= c <= '9' || c == '_' || c == '-')
            && !Reserved(name)
    ensures Id(digest, name) == if IsLegacy(name) then name else Slug(name) + "." + (if |digest(name)| < 12 then digest(name) else digest(name)[..12])
  {
    BeforeDotIs(name, BeforeDot(name));
    DeviceIff(Lower(BeforeDot(name)));
    forall part | IsFirstPart(name, part)
      ensures part == BeforeDot(name)
    {
      BeforeDotIs(name, part);
    }
    assert IsReserved(name) <==> NamesDevice(BeforeDot(name));
  }
}
