/** Node names as directory and Git ref components. */
module NodeId {
  import opened Names
  import opened Model
  import Compiler

  /** The hexadecimal Git blob hash of a name, left uninterpreted. */
  type Digest = string -> string

  predicate IsLetterOrDigit(c: char) {
    '0' <= c <= '9' || 'A' <= c <= 'Z' || 'a' <= c <= 'z'
  }

  function LowerChar(c: char): char {
    if 'A' <= c <= 'Z' then c - 'A' + 'a' else c
  }

  /** `to_ascii_lowercase`. */
  function Lower(s: string): string {
    seq(|s|, i requires 0 <= i < |s| => LowerChar(s[i]))
  }

  predicate IsAscii(s: string) {
    forall c :: c in s ==> c < '\U{80}'
  }

  // ----- names kept as they are

  function BeforeDot(s: string): string {
    if s == "" || s[0] == '.' then "" else [s[0]] + BeforeDot(s[1..])
  }

  predicate IsReserved(name: string) {
    var device := Lower(BeforeDot(name));
    || device in {"con", "prn", "aux", "nul", "conin$", "conout$"}
    || (("com" <= device || "lpt" <= device) && |device| == 4 && '1' <= device[3] <= '9')
  }

  predicate IsPlainChar(c: char) {
    IsLetterOrDigit(c) || c == '_' || c == '-'
  }

  predicate IsLegacy(name: string) {
    && name != "" && |name| <= 64
    && (forall c :: c in name ==> IsPlainChar(c))
    && !IsReserved(name)
  }

  // ----- slugs

  /** The maximal runs of letters and digits, in lower case. */
  function Words(s: string): (r: seq<string>)
    ensures s != "" && IsLetterOrDigit(s[|s| - 1]) ==> r != []
  {
    if s == "" then []
    else
      var init, c := s[..|s| - 1], s[|s| - 1];
      if !IsLetterOrDigit(c) then Words(init)
      else if init == "" || !IsLetterOrDigit(init[|init| - 1]) then Words(init) + [[LowerChar(c)]]
      else
        var words := Words(init);
        words[|words| - 1 := words[|words| - 1] + [LowerChar(c)]]
  }

  function JoinWords(words: seq<string>): string {
    if words == [] then ""
    else if |words| == 1 then words[0]
    else JoinWords(words[..|words| - 1]) + "-" + words[|words| - 1]
  }

  function TrimDashes(s: string): string {
    if s != "" && s[|s| - 1] == '-' then TrimDashes(s[..|s| - 1]) else s
  }

  /** The words joined with dashes, at most 24 characters, or a stand-in when there is none. */
  function Slug(name: string): string {
    var joined := JoinWords(Words(name));
    var short := TrimDashes(if |joined| > 24 then joined[..24] else joined);
    if short == "" then "node" else short
  }

  function Short(digest: string): string {
    if |digest| >= 12 then digest[..12] else digest
  }

  function Id(digest: Digest, name: string): string {
    if IsLegacy(name) then name else Slug(name) + "." + Short(digest(name))
  }

  // ----- the construction, character by character

  lemma {:induction false} JoinAppend(words: seq<string>, w: string)
    ensures JoinWords(words + [w]) == (if words == [] then w else JoinWords(words) + "-" + w)
  {
    assert (words + [w])[..|words|] == words;
  }

  lemma JoinExtend(words: seq<string>, c: char)
    requires words != []
    ensures JoinWords(words[|words| - 1 := words[|words| - 1] + [c]]) == JoinWords(words) + [c]
  {
    var longer := words[|words| - 1 := words[|words| - 1] + [c]];
    assert longer[..|words| - 1] == words[..|words| - 1];
  }

  lemma {:induction false} WordsNonempty(s: string)
    ensures forall i :: 0 <= i < |Words(s)| ==> Words(s)[i] != ""
  {
    if s != "" {
      WordsNonempty(s[..|s| - 1]);
    }
  }

  lemma {:induction false} JoinEmptyIff(words: seq<string>)
    requires words != [] ==> words[0] != ""
    ensures JoinWords(words) == "" <==> words == []
  {
  }

  /** A slug is clean: lower-case letters, digits and dashes only. */
  predicate IsSlugChar(c: char) {
    '0' <= c <= '9' || 'a' <= c <= 'z' || c == '-'
  }

  lemma {:induction false} WordsChars(s: string)
    ensures forall w, c :: w in Words(s) && c in w ==> IsSlugChar(c) && c != '-'
  {
    if s != "" {
      WordsChars(s[..|s| - 1]);
    }
  }

  lemma {:induction false} JoinChars(words: seq<string>)
    requires forall w, c :: w in words && c in w ==> IsSlugChar(c)
    ensures forall c :: c in JoinWords(words) ==> IsSlugChar(c)
  {
    if |words| == 1 {
      assert words[0] in words;
    } else if words != [] {
      var init, last := words[..|words| - 1], words[|words| - 1];
      assert last in words;
      assert forall w :: w in init ==> w in words;
      JoinChars(init);
    }
  }

  lemma {:induction false} TrimPrefix(s: string)
    ensures TrimDashes(s) <= s
    ensures TrimDashes(s) != "" ==> TrimDashes(s)[|TrimDashes(s)| - 1] != '-'
  {
    if s != "" && s[|s| - 1] == '-' {
      TrimPrefix(s[..|s| - 1]);
    }
  }

  lemma {:induction false} TrimKeepsFirst(s: string)
    requires s != "" && s[0] != '-'
    ensures TrimDashes(s) != "" && TrimDashes(s)[0] == s[0]
  {
    if s[|s| - 1] == '-' {
      TrimKeepsFirst(s[..|s| - 1]);
    }
  }

  lemma {:induction false} JoinFirst(words: seq<string>)
    requires words != [] && words[0] != ""
    ensures JoinWords(words) != "" && JoinWords(words)[0] == words[0][0]
  {
    if |words| > 1 {
      JoinFirst(words[..|words| - 1]);
    }
  }

  lemma SlugShape(name: string)
    ensures Slug(name) != "" && |Slug(name)| <= 24
    ensures forall c :: c in Slug(name) ==> IsSlugChar(c)
    ensures Slug(name)[0] != '-' && Slug(name)[|Slug(name)| - 1] != '-'
  {
    var words := Words(name);
    var joined := JoinWords(words);
    var cut := if |joined| > 24 then joined[..24] else joined;
    WordsNonempty(name);
    WordsChars(name);
    JoinChars(words);
    TrimPrefix(cut);
    if words != [] {
      JoinFirst(words);
      assert words[0] in words && words[0][0] in words[0];
      TrimKeepsFirst(cut);
    }
  }

  /** The loop of `node_id` that grows the slug; `separator` says it has just written a dash. */
  method BuildSlug(name: string) returns (slug: string)
    ensures slug == Slug(name)
  {
    slug := "";
    var separator := false;
    for i := 0 to |name|
      invariant Written(name[..i], slug, separator)
    {
      var c := name[i];
      WriteNext(name, i, slug, separator);
      if IsLetterOrDigit(c) {
        slug := slug + [LowerChar(c)];
        separator := false;
      } else if !separator && slug != "" {
        slug := slug + "-";
        separator := true;
      }
    }
    assert name[..|name|] == name;
    WrittenTrims(name, slug, separator);
    slug := TrimDashesLoop(slug);
    if |slug| > 24 {
      slug := TrimDashesLoop(slug[..24]);
    }
    if slug == "" {
      slug := "node";
    }
  }

  method TrimDashesLoop(s: string) returns (r: string)
    ensures r == TrimDashes(s)
  {
    r := s;
    while r != "" && r[|r| - 1] == '-'
      invariant TrimDashes(r) == TrimDashes(s)
      decreases |r|
    {
      r := r[..|r| - 1];
    }
  }

  /** What the slug holds after a prefix: the words so far, and a dash once a later run may follow. */
  ghost predicate Written(prefix: string, slug: string, separator: bool) {
    var words := Words(prefix);
    && slug == JoinWords(words) + (if separator then "-" else "")
    && (separator <==> words != [] && !InWord(prefix))
  }

  predicate InWord(prefix: string) {
    prefix != "" && IsLetterOrDigit(prefix[|prefix| - 1])
  }

  /** How one more character changes the words. */
  lemma WordsUnfold(prefix: string, c: char)
    ensures !IsLetterOrDigit(c) ==> Words(prefix + [c]) == Words(prefix)
    ensures IsLetterOrDigit(c) && !InWord(prefix) ==> Words(prefix + [c]) == Words(prefix) + [[LowerChar(c)]]
    ensures IsLetterOrDigit(c) && InWord(prefix) ==> Words(prefix) != []
    ensures IsLetterOrDigit(c) && InWord(prefix) ==>
      Words(prefix + [c]) == Words(prefix)[|Words(prefix)| - 1 := Words(prefix)[|Words(prefix)| - 1] + [LowerChar(c)]]
  {
    var next := prefix + [c];
    assert next[..|next| - 1] == prefix && next[|next| - 1] == c;
  }

  lemma WordsNext(prefix: string, c: char)
    requires IsLetterOrDigit(c)
    ensures Words(prefix + [c]) != []
    ensures JoinWords(Words(prefix + [c])) ==
      JoinWords(Words(prefix)) + (if Words(prefix) != [] && !InWord(prefix) then "-" else "") + [LowerChar(c)]
  {
    WordsUnfold(prefix, c);
    if InWord(prefix) {
      JoinExtend(Words(prefix), LowerChar(c));
    } else {
      JoinAppend(Words(prefix), [LowerChar(c)]);
    }
  }

  lemma WriteNext(name: string, i: nat, slug: string, separator: bool)
    requires i < |name| && Written(name[..i], slug, separator)
    ensures IsLetterOrDigit(name[i]) ==> Written(name[..i + 1], slug + [LowerChar(name[i])], false)
    ensures !IsLetterOrDigit(name[i]) && !separator && slug != "" ==> Written(name[..i + 1], slug + "-", true)
    ensures !IsLetterOrDigit(name[i]) && (separator || slug == "") ==> Written(name[..i + 1], slug, separator)
  {
    var prefix, c := name[..i], name[i];
    assert name[..i + 1] == prefix + [c];
    WordsUnfold(prefix, c);
    if IsLetterOrDigit(c) {
      WordsNext(prefix, c);
    }
    WordsNonempty(prefix);
    JoinEmptyIff(Words(prefix));
  }

  /** A joined list of words ends in no dash, so trimming removes the separator alone. */
  lemma WrittenTrims(name: string, slug: string, separator: bool)
    requires Written(name, slug, separator)
    ensures TrimDashes(slug) == JoinWords(Words(name))
    ensures TrimDashes(JoinWords(Words(name))) == JoinWords(Words(name))
  {
    var joined := JoinWords(Words(name));
    WordsNonempty(name);
    WordsChars(name);
    JoinLast(Words(name));
    if separator {
      assert slug[..|slug| - 1] == joined;
    }
  }

  lemma JoinLast(words: seq<string>)
    requires words != [] ==> words[|words| - 1] != ""
    requires forall w, c :: w in words && c in w ==> c != '-'
    ensures JoinWords(words) != "" ==> JoinWords(words)[|JoinWords(words)| - 1] != '-'
  {
    if words != [] {
      var last := words[|words| - 1];
      assert last in words && last[|last| - 1] in last;
    }
  }

  method NodeId(digest: Digest, name: string) returns (id: string)
    ensures id == Id(digest, name)
  {
    if IsLegacy(name) {
      return name;
    }
    var slug := BuildSlug(name);
    id := slug + "." + Short(digest(name));
  }

  // ----- what an id looks like

  /** A Git object id: forty lower-case hexadecimal digits. */
  ghost predicate IsObjectId(s: string) {
    |s| == 40 && forall c :: c in s ==> IsHexChar(c)
  }

  function Dots(s: string): nat {
    if s == "" then 0 else (if s[0] == '.' then 1 else 0) + Dots(s[1..])
  }

  lemma {:induction false} NoDots(s: string)
    requires '.' !in s
    ensures Dots(s) == 0
  {
    if s != "" {
      NoDots(s[1..]);
    }
  }

  lemma {:induction false} DotsAdd(s: string, t: string)
    ensures Dots(s + t) == Dots(s) + Dots(t)
  {
    if s == "" {
      assert s + t == t;
    } else {
      assert (s + t)[1..] == s[1..] + t;
      DotsAdd(s[1..], t);
    }
  }

  /** Every id is a single safe path and ref component of bounded length; a kept name is its own id,
      a hashed one has exactly one dot. */
  lemma IdShape(digest: Digest, name: string)
    requires IsObjectId(digest(name))
    ensures var id := Id(digest, name);
      && 0 < |id| <= 64
      && (forall c :: c in id ==> IsPlainChar(c) || c == '.')
      && id[0] != '.' && id[|id| - 1] != '.'
      && Dots(id) == (if IsLegacy(name) then 0 else 1)
    ensures IsLegacy(name) ==> Id(digest, name) == name
  {
    if IsLegacy(name) {
      assert name[0] in name && name[|name| - 1] in name;
      NoDots(name);
    } else {
      SlugShape(name);
      ShortHex(digest(name));
      HashedShape(Slug(name), Short(digest(name)));
    }
  }

  predicate IsHexChar(c: char) {
    '0' <= c <= '9' || 'a' <= c <= 'f'
  }

  lemma ShortHex(d: string)
    requires IsObjectId(d)
    ensures |Short(d)| == 12 && forall c :: c in Short(d) ==> IsHexChar(c)
  {
    assert forall i :: 0 <= i < 12 ==> Short(d)[i] == d[i] && d[i] in d;
  }

  lemma HashedShape(slug: string, short: string)
    requires 0 < |slug| <= 24 && forall c :: c in slug ==> IsSlugChar(c)
    requires |short| == 12 && forall c :: c in short ==> IsHexChar(c)
    ensures var id := slug + "." + short;
      && 0 < |id| <= 64
      && (forall c :: c in id ==> IsPlainChar(c) || c == '.')
      && id[0] != '.' && id[|id| - 1] != '.'
      && Dots(id) == 1
  {
    assert slug[0] in slug && short[|short| - 1] in short;
    NoDots(slug);
    NoDots(short);
    DotsAdd(slug, ".");
    DotsAdd(slug + ".", short);
  }

  // ----- distinct nodes have distinct ids

  /** `to_lowercase` agrees with ASCII lowering where there is nothing else to lower. */
  ghost predicate FoldsAscii(fold: Compiler.Fold) {
    forall s :: IsAscii(s) ==> fold(s) == Lower(s)
  }

  /** Two names that need a hash get different short hashes. */
  ghost predicate ShortHashesDiffer(digest: Digest, g: Graph) {
    forall m, n :: m in g.nodes && n in g.nodes && m.name != n.name && !IsLegacy(m.name) && !IsLegacy(n.name) ==>
      Short(digest(m.name)) != Short(digest(n.name))
  }

  lemma {:induction false} LowerDots(s: string)
    ensures '.' in Lower(s) <==> '.' in s
  {
    if '.' in s {
      var i :| 0 <= i < |s| && s[i] == '.';
      assert Lower(s)[i] == '.';
    }
    if '.' in Lower(s) {
      var i :| 0 <= i < |Lower(s)| && Lower(s)[i] == '.';
      assert s[i] == '.';
    }
  }

  lemma LowerFixed(s: string)
    requires forall c :: c in s ==> !('A' <= c <= 'Z')
    ensures Lower(s) == s
  {
    forall i | 0 <= i < |s|
      ensures Lower(s)[i] == s[i]
    {
      assert s[i] in s;
    }
  }

  /** The part after the only dot tells two hashed ids apart. */
  lemma {:induction false} SplitAtDot(a: string, x: string, b: string, y: string)
    requires '.' !in a && '.' !in b && a + "." + x == b + "." + y
    ensures x == y
  {
    var s, t := a + "." + x, b + "." + y;
    assert s[0] == (if a == "" then '.' else a[0]) && t[0] == (if b == "" then '.' else b[0]);
    if a == "" || b == "" {
      assert x == s[1..] && y == t[1..];
    } else {
      assert s[1..] == a[1..] + "." + x && t[1..] == b[1..] + "." + y;
      SplitAtDot(a[1..], x, b[1..], y);
    }
  }

  lemma HashedLower(slug: string, short: string)
    requires forall c :: c in slug ==> IsSlugChar(c)
    requires forall c :: c in short ==> IsHexChar(c)
    ensures Lower(slug + "." + short) == slug + "." + short
  {
    LowerFixed(slug + "." + short);
  }

  lemma HashedIdsDiffer(digest: Digest, m: string, n: string)
    requires IsObjectId(digest(m)) && IsObjectId(digest(n))
    requires !IsLegacy(m) && !IsLegacy(n) && Short(digest(m)) != Short(digest(n))
    ensures Lower(Id(digest, m)) != Lower(Id(digest, n))
  {
    SlugShape(m);
    SlugShape(n);
    ShortHex(digest(m));
    ShortHex(digest(n));
    HashedLower(Slug(m), Short(digest(m)));
    HashedLower(Slug(n), Short(digest(n)));
    if Id(digest, m) == Id(digest, n) {
      SplitAtDot(Slug(m), Short(digest(m)), Slug(n), Short(digest(n)));
    }
  }

  lemma KeptAndHashedDiffer(digest: Digest, m: string, n: string)
    requires IsLegacy(m) && !IsLegacy(n)
    ensures Lower(Id(digest, m)) != Lower(Id(digest, n))
  {
    LowerDots(Id(digest, m));
    LowerDots(Id(digest, n));
    assert Id(digest, n)[|Slug(n)|] == '.';
  }

  /** Main result: in a graph the compiler accepts, different nodes never share a directory or a ref,
      even where letter case does not count. */
  lemma IdsDistinct(fold: Compiler.Fold, digest: Digest, g: Graph, finalCheck: bool, i: nat, j: nat)
    requires FoldsAscii(fold) && ShortHashesDiffer(digest, g)
    requires forall n :: n in g.nodes ==> IsObjectId(digest(n.name))
    requires Compiler.WellFormed(fold, g, finalCheck)
    requires i < j < |g.nodes|
    ensures Lower(Id(digest, g.nodes[i].name)) != Lower(Id(digest, g.nodes[j].name))
  {
    var m, n := g.nodes[i].name, g.nodes[j].name;
    assert g.nodes[i] in g.nodes && g.nodes[j] in g.nodes;
    assert fold(m) != fold(n);
    if IsLegacy(m) && IsLegacy(n) {
      assert IsAscii(m) && IsAscii(n);
    } else if IsLegacy(m) {
      KeptAndHashedDiffer(digest, m, n);
    } else if IsLegacy(n) {
      KeptAndHashedDiffer(digest, n, m);
    } else {
      HashedIdsDiffer(digest, m, n);
    }
  }
}
