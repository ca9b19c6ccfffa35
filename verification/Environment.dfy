/** Which environment a node starts from, given the results of its inputs.

    `environment.rs` compares results by their environment and launch references; a launch record is found under
    the digest of its content. */
module Environment {
  import opened Wrappers
  import opened Names
  import opened Collections
  import opened Paths
  import Sorting
  import Versions

  datatype Hint = Hint(manager: string, selector: string, executable: string)

  /** A launch record: its hints, whether it is bound to an environment, and the rest of its policy. */
  datatype Launch = Launch(policy: string, bound: bool, hints: seq<Hint>)

  datatype Domain = Domain(platform: string, arch: string, contract: string, policy: string, baseline: string)

  datatype InheritanceInput = InheritanceInput(node: string, environment: string, launch: string, layout: Option<string>)

  datatype Inheritance = Inheritance(reason: string, inputs: seq<InheritanceInput>)

  datatype Composite = Composite(
    domain: Domain,
    code: string,
    environment: string,
    launch: string,
    layout: Option<string>,
    selectedFrom: seq<string>,
    inheritance: Option<Inheritance>)

  datatype Input = Input(name: string, result: Composite)

  datatype Pair = Pair(environment: string, launch: string)

  function PairOf(r: Composite): Pair {
    Pair(r.environment, r.launch)
  }

  datatype Refusal = MissingInput | DifferentDomains | AuthorityNotInput | Ambiguous | Incompatible | Unusable

  /** `digest` and `validPolicy` stand for hashing the JSON of a record and for the checks on its other fields. */
  datatype Config = Config(
    authority: map<string, string>,
    allowDescendant: bool,
    bestEffort: bool,
    admits: Domain -> bool,
    validPolicy: (string, bool) -> bool,
    digest: Launch -> string)

  function InputNames(inputs: seq<Input>): seq<string> {
    seq(|inputs|, i requires 0 <= i < |inputs| => inputs[i].name)
  }

  // ----- strict selection

  ghost predicate OneDomain(inputs: seq<Input>) {
    forall i :: 0 <= i < |inputs| ==> inputs[i].result.domain == inputs[0].result.domain
  }

  ghost predicate OnePair(inputs: seq<Input>) {
    forall i :: 0 <= i < |inputs| ==> PairOf(inputs[i].result) == PairOf(inputs[0].result)
  }

  ghost predicate OneLaunch(inputs: seq<Input>) {
    forall i :: 0 <= i < |inputs| ==> inputs[i].result.launch == inputs[0].result.launch
  }

  ghost predicate DescendsFromAll(versions: Versions.Store, environment: string, inputs: seq<Input>) {
    forall i :: 0 <= i < |inputs| ==> Versions.DescendsFrom(versions, environment, inputs[i].result.environment)
  }

  ghost predicate Named(inputs: seq<Input>, i: int, name: string) {
    0 <= i < |inputs| && inputs[i].name == name
  }

  ghost predicate Candidate(versions: Versions.Store, inputs: seq<Input>, i: int) {
    0 <= i < |inputs| && DescendsFromAll(versions, inputs[i].result.environment, inputs)
  }

  ghost predicate NoCandidateBefore(versions: Versions.Store, inputs: seq<Input>, i: int) {
    forall j :: j < i ==> !Candidate(versions, inputs, j)
  }

  ghost predicate FirstCandidate(versions: Versions.Store, inputs: seq<Input>, i: int) {
    Candidate(versions, inputs, i) && NoCandidateBefore(versions, inputs, i)
  }

  ghost predicate IsFirstCandidate(versions: Versions.Store, inputs: seq<Input>, r: Composite) {
    exists i :: FirstCandidate(versions, inputs, i) && r == inputs[i].result.(selectedFrom := InputNames(inputs))
  }

  ghost predicate NoCandidate(versions: Versions.Store, inputs: seq<Input>) {
    forall i :: !Candidate(versions, inputs, i)
  }

  /** What `select` may answer: the input the authority names, else the pair all inputs share, else the first input
      that descends from all others. */
  ghost predicate Selects(c: Config, versions: Versions.Store, node: string, inputs: seq<Input>, r: Result<Composite, Refusal>) {
    if inputs == [] then r == Err(MissingInput)
    else if !OneDomain(inputs) then r == Err(DifferentDomains)
    else if node in c.authority then
      var parent := c.authority[node];
      if r.Err? then r == Err(AuthorityNotInput) && forall i :: !Named(inputs, i, parent)
      else
        exists i ::
          && Named(inputs, i, parent) && (forall j :: j < i ==> !Named(inputs, j, parent))
          && r.value == inputs[i].result.(selectedFrom := [parent])
    else if OnePair(inputs) then r == Ok(inputs[0].result.(selectedFrom := InputNames(inputs)))
    else if !c.allowDescendant || !OneLaunch(inputs) then r == Err(Incompatible)
    else if r.Err? then r == Err(Ambiguous) && NoCandidate(versions, inputs)
    else IsFirstCandidate(versions, inputs, r.value)
  }

  method DescendsFrom(versions: Versions.Store, version: string, parent: string) returns (r: bool)
    ensures r == Versions.DescendsFrom(versions, version, parent)
  {
    var ancestors := Versions.Ancestors(versions, version);
    r := ancestors.Some? && parent in ancestors.value;
  }

  method IsCandidate(versions: Versions.Store, inputs: seq<Input>, i: nat) returns (r: bool)
    requires i < |inputs|
    ensures r == Candidate(versions, inputs, i)
  {
    for j := 0 to |inputs|
      invariant forall k :: 0 <= k < j ==>
        Versions.DescendsFrom(versions, inputs[i].result.environment, inputs[k].result.environment)
    {
      var descends := DescendsFrom(versions, inputs[i].result.environment, inputs[j].result.environment);
      if !descends {
        return false;
      }
    }
    r := true;
  }

  /** `select`. */
  method Select(c: Config, versions: Versions.Store, node: string, inputs: seq<Input>) returns (r: Result<Composite, Refusal>)
    ensures Selects(c, versions, node, inputs, r)
  {
    if inputs == [] {
      return Err(MissingInput);
    }
    var first := inputs[0].result;
    if exists input :: input in inputs && input.result.domain != first.domain {
      return Err(DifferentDomains);
    }
    if node in c.authority {
      r := FindNamed(inputs, c.authority[node]);
      return;
    }
    if forall input :: input in inputs ==> PairOf(input.result) == PairOf(first) {
      return Ok(first.(selectedFrom := InputNames(inputs)));
    }
    if !c.allowDescendant || exists input :: input in inputs && input.result.launch != first.launch {
      return Err(Incompatible);
    }
    r := FindCandidate(versions, inputs);
  }

  method FindNamed(inputs: seq<Input>, parent: string) returns (r: Result<Composite, Refusal>)
    ensures r.Err? ==> r == Err(AuthorityNotInput) && forall i :: !Named(inputs, i, parent)
    ensures r.Ok? ==>
      exists i ::
        && Named(inputs, i, parent) && (forall j :: j < i ==> !Named(inputs, j, parent))
        && r.value == inputs[i].result.(selectedFrom := [parent])
  {
    for i := 0 to |inputs|
      invariant forall j :: j < i ==> !Named(inputs, j, parent)
    {
      if inputs[i].name == parent {
        assert Named(inputs, i, parent);
        return Ok(inputs[i].result.(selectedFrom := [parent]));
      }
    }
    r := Err(AuthorityNotInput);
  }

  lemma RuledOut(versions: Versions.Store, inputs: seq<Input>, i: nat)
    requires NoCandidateBefore(versions, inputs, i)
    ensures !Candidate(versions, inputs, i) ==> NoCandidateBefore(versions, inputs, i + 1)
    ensures i == |inputs| ==> NoCandidate(versions, inputs)
    ensures Candidate(versions, inputs, i) ==>
              IsFirstCandidate(versions, inputs, inputs[i].result.(selectedFrom := InputNames(inputs)))
  {
    if Candidate(versions, inputs, i) {
      assert FirstCandidate(versions, inputs, i);
    }
  }

  method FindCandidate(versions: Versions.Store, inputs: seq<Input>) returns (r: Result<Composite, Refusal>)
    ensures if r.Ok? then IsFirstCandidate(versions, inputs, r.value) else r == Err(Ambiguous) && NoCandidate(versions, inputs)
  {
    for i := 0 to |inputs|
      invariant NoCandidateBefore(versions, inputs, i)
    {
      var candidate := IsCandidate(versions, inputs, i);
      RuledOut(versions, inputs, i);
      if candidate {
        return Ok(inputs[i].result.(selectedFrom := InputNames(inputs)));
      }
    }
    RuledOut(versions, inputs, |inputs|);
    r := Err(Ambiguous);
  }

  // ----- the order of inputs does not matter

  ghost predicate SameInputs(a: seq<Input>, b: seq<Input>) {
    forall x :: x in a <==> x in b
  }

  function NameOf(x: Input): string {
    x.name
  }

  ghost predicate DistinctNames(inputs: seq<Input>) {
    DistinctBy(NameOf, inputs)
  }

  function Outcome(r: Result<Composite, Refusal>): Result<Pair, Refusal> {
    match r
    case Ok(value) => Ok(PairOf(value))
    case Err(refusal) => Err(refusal)
  }

  lemma SameProperties(a: seq<Input>, b: seq<Input>)
    requires SameInputs(a, b) && a != []
    ensures b != []
    ensures OneDomain(a) ==> OneDomain(b)
    ensures OnePair(a) ==> OnePair(b) && PairOf(a[0].result) == PairOf(b[0].result)
    ensures OneLaunch(a) ==> OneLaunch(b) && a[0].result.launch == b[0].result.launch
  {
    assert a[0] in b;
    forall i | 0 <= i < |b|
      ensures b[i] in a
    {
      assert b[i] in b;
    }
  }

  lemma SameNamed(a: seq<Input>, b: seq<Input>, name: string, i: int)
    requires SameInputs(a, b) && Named(a, i, name)
    ensures exists j :: Named(b, j, name) && b[j] == a[i]
  {
    assert a[i] in b;
    var j :| 0 <= j < |b| && b[j] == a[i];
    assert Named(b, j, name);
  }

  lemma SameCandidate(versions: Versions.Store, a: seq<Input>, b: seq<Input>, i: int)
    requires SameInputs(a, b) && Candidate(versions, a, i)
    ensures exists j :: Candidate(versions, b, j) && b[j] == a[i]
  {
    assert a[i] in b;
    var j :| 0 <= j < |b| && b[j] == a[i];
    forall k | 0 <= k < |b|
      ensures Versions.DescendsFrom(versions, b[j].result.environment, b[k].result.environment)
    {
      assert b[k] in a;
    }
    assert Candidate(versions, b, j);
  }

  /** Two inputs that each descend from all are the same version. */
  lemma OneCandidate(versions: Versions.Store, inputs: seq<Input>, i: int, j: int)
    requires Acyclic(Versions.Arcs(versions)) && OneLaunch(inputs)
    requires Candidate(versions, inputs, i) && Candidate(versions, inputs, j)
    ensures PairOf(inputs[i].result) == PairOf(inputs[j].result)
  {
    Versions.DescendsAntisymmetric(versions, inputs[i].result.environment, inputs[j].result.environment);
  }

  lemma SameAuthority(a: seq<Input>, b: seq<Input>, parent: string, i: int, j: int)
    requires SameInputs(a, b) && DistinctNames(b) && Named(a, i, parent) && Named(b, j, parent)
    ensures a[i] == b[j]
  {
    SameNamed(a, b, parent, i);
    var k :| Named(b, k, parent) && b[k] == a[i];
  }

  lemma AuthorityIndependent(c: Config, versions: Versions.Store, node: string, a: seq<Input>, b: seq<Input>,
                             ra: Result<Composite, Refusal>, rb: Result<Composite, Refusal>)
    requires SameInputs(a, b) && DistinctNames(b) && a != [] && OneDomain(a) && node in c.authority
    requires Selects(c, versions, node, a, ra) && Selects(c, versions, node, b, rb)
    ensures Outcome(ra) == Outcome(rb)
  {
    var parent := c.authority[node];
    SameProperties(a, b);
    if ra.Ok? {
      var i :| Named(a, i, parent) && ra.value == a[i].result.(selectedFrom := [parent]);
      SameNamed(a, b, parent, i);
      var j :| Named(b, j, parent) && rb.value == b[j].result.(selectedFrom := [parent]);
      SameAuthority(a, b, parent, i, j);
    } else if rb.Ok? {
      var j :| Named(b, j, parent);
      SameNamed(b, a, parent, j);
    }
  }

  lemma DescendantIndependent(c: Config, versions: Versions.Store, node: string, a: seq<Input>, b: seq<Input>,
                              ra: Result<Composite, Refusal>, rb: Result<Composite, Refusal>)
    requires SameInputs(a, b) && a != [] && OneDomain(a) && node !in c.authority && Acyclic(Versions.Arcs(versions))
    requires !OnePair(a) && c.allowDescendant && OneLaunch(a)
    requires Selects(c, versions, node, a, ra) && Selects(c, versions, node, b, rb)
    ensures Outcome(ra) == Outcome(rb)
  {
    SameProperties(a, b);
    SameProperties(b, a);
    if ra.Ok? {
      var i :| Candidate(versions, a, i) && ra.value == a[i].result.(selectedFrom := InputNames(a));
      SameCandidate(versions, a, b, i);
      var k :| Candidate(versions, b, k) && b[k] == a[i];
      var j :| Candidate(versions, b, j) && rb.value == b[j].result.(selectedFrom := InputNames(b));
      OneCandidate(versions, b, j, k);
    } else if rb.Ok? {
      var j :| Candidate(versions, b, j);
      SameCandidate(versions, b, a, j);
    }
  }

  /** The chosen environment and launch, or the refusal, do not depend on the order of the inputs. */
  lemma SelectOrderIrrelevant(c: Config, versions: Versions.Store, node: string, a: seq<Input>, b: seq<Input>,
                              ra: Result<Composite, Refusal>, rb: Result<Composite, Refusal>)
    requires SameInputs(a, b) && DistinctNames(a) && DistinctNames(b) && Acyclic(Versions.Arcs(versions))
    requires Selects(c, versions, node, a, ra) && Selects(c, versions, node, b, rb)
    ensures Outcome(ra) == Outcome(rb)
  {
    if a == [] {
      if b != [] {
        SameProperties(b, a);
      }
    } else {
      SameProperties(a, b);
      SameProperties(b, a);
      if OneDomain(a) {
        if node in c.authority {
          AuthorityIndependent(c, versions, node, a, b, ra, rb);
        } else if !OnePair(a) && c.allowDescendant && OneLaunch(a) {
          DescendantIndependent(c, versions, node, a, b, ra, rb);
        }
      }
    }
  }

  lemma PermutedInputsAreSame(a: seq<Input>, b: seq<Input>)
    requires multiset(a) == multiset(b)
    ensures SameInputs(a, b)
  {
    SameMembers(a, b);
  }

  /** With the versions any run of captures leaves, it needs only distinct names. */
  lemma SelectAfterCaptures(c: Config, captures: seq<Versions.Capture>, node: string, a: seq<Input>, b: seq<Input>,
                            ra: Result<Composite, Refusal>, rb: Result<Composite, Refusal>)
    requires multiset(a) == multiset(b) && DistinctNames(a)
    requires Selects(c, Versions.Run(captures), node, a, ra) && Selects(c, Versions.Run(captures), node, b, rb)
    ensures Outcome(ra) == Outcome(rb)
  {
    Versions.RunsAreAcyclic(captures);
    PermutedInputsAreSame(a, b);
    DistinctKept(a, b);
    SelectOrderIrrelevant(c, Versions.Run(captures), node, a, b, ra, rb);
  }

  lemma DistinctKept(a: seq<Input>, b: seq<Input>)
    requires multiset(a) == multiset(b) && DistinctNames(a)
    ensures DistinctNames(b)
  {
    DistinctByKept(NameOf, a, b);
  }

  /** A descendant choice descends from every input. */
  lemma ChosenDescendsFromAll(c: Config, versions: Versions.Store, node: string, inputs: seq<Input>, r: Result<Composite, Refusal>)
    requires Selects(c, versions, node, inputs, r) && r.Ok?
    requires node !in c.authority && !OnePair(inputs)
    ensures DescendsFromAll(versions, r.value.environment, inputs)
    ensures OneLaunch(inputs) && r.value.launch == inputs[0].result.launch
  {}

  // ----- hints, merged

  function Key(h: Hint): seq<string> {
    [h.manager, h.selector, h.executable]
  }

  predicate HintLess(a: Hint, b: Hint) {
    ListLess(Key(a), Key(b))
  }

  lemma HintLessTransitive(a: Hint, b: Hint, c: Hint)
    requires HintLess(a, b) && HintLess(b, c)
    ensures HintLess(a, c)
  {
    ListLessTransitive(Key(a), Key(b), Key(c));
  }

  lemma HintLessIrreflexive(a: Hint)
    ensures !HintLess(a, a)
  {
    ListLessIrreflexive(Key(a));
  }

  lemma HintLessTotal(a: Hint, b: Hint)
    ensures a == b || HintLess(a, b) || HintLess(b, a)
  {
    ListLessTotal(Key(a), Key(b));
    assert Key(a) == Key(b) ==> Key(a)[0] == Key(b)[0] && Key(a)[1] == Key(b)[1] && Key(a)[2] == Key(b)[2];
  }

  /** Every hint comes strictly before the next: sorted, and none twice. */
  ghost predicate Strict(hints: seq<Hint>) {
    hints != [] ==> AllAfter(hints[0], hints[1..]) && Strict(hints[1..])
  }

  ghost predicate AllAfter(h: Hint, hints: seq<Hint>) {
    forall g :: g in hints ==> HintLess(h, g)
  }

  function Sort(hints: seq<Hint>): seq<Hint> {
    Sorting.Sort(HintLess, hints)
  }

  function Dedup(hints: seq<Hint>): seq<Hint> {
    if |hints| < 2 then hints
    else if hints[0] == hints[1] then Dedup(hints[1..])
    else [hints[0]] + Dedup(hints[1..])
  }

  lemma HintLessOrders()
    ensures Sorting.StrictTotal(HintLess)
  {
    forall a, b
      ensures a == b || HintLess(a, b) || HintLess(b, a)
      ensures HintLess(a, b) ==> !HintLess(b, a)
    {
      HintLessTotal(a, b);
      if HintLess(a, b) && HintLess(b, a) {
        HintLessTransitive(a, b, a);
        HintLessIrreflexive(a);
      }
    }
    forall a, b, c | HintLess(a, b) && HintLess(b, c)
      ensures HintLess(a, c)
    {
      HintLessTransitive(a, b, c);
    }
  }

  lemma {:induction false} DedupIs(hints: seq<Hint>)
    requires Sorting.Ordered(HintLess, hints)
    ensures Strict(Dedup(hints)) && forall g :: g in Dedup(hints) <==> g in hints
  {
    if |hints| == 1 {
      assert hints[1..] == [];
    } else if |hints| >= 2 {
      var rest := hints[1..];
      DedupIs(rest);
      assert hints == [hints[0]] + rest;
      if hints[0] != hints[1] {
        AllLater(hints);
        assert ([hints[0]] + Dedup(rest))[1..] == Dedup(rest);
      }
    }
  }

  /** What does not come before the second of two hints in strict order comes after the first. */
  lemma AfterFirst(first: Hint, second: Hint, g: Hint)
    requires HintLess(first, second) && !HintLess(g, second)
    ensures HintLess(first, g)
  {
    HintLessTotal(second, g);
    if HintLess(second, g) {
      HintLessTransitive(first, second, g);
    }
  }

  lemma OrderedStart(hints: seq<Hint>)
    requires Sorting.Ordered(HintLess, hints) && |hints| >= 2
    ensures !HintLess(hints[1], hints[0])
    ensures forall g :: g in hints[1..] ==> !HintLess(g, hints[1])
  {
    var rest := hints[1..];
    assert rest[0] == hints[1] && rest[0] in rest;
    HintLessIrreflexive(rest[0]);
    forall g | g in rest
      ensures !HintLess(g, rest[0])
    {
      HeadOrRest(rest, g);
    }
  }

  lemma AllLater(hints: seq<Hint>)
    requires Sorting.Ordered(HintLess, hints) && |hints| >= 2 && hints[0] != hints[1]
    ensures AllAfter(hints[0], hints[1..])
  {
    OrderedStart(hints);
    HintLessTotal(hints[0], hints[1]);
    forall g | g in hints[1..]
      ensures HintLess(hints[0], g)
    {
      AfterFirst(hints[0], hints[1], g);
    }
  }

  /** Only one strict listing of given hints exists. */
  lemma {:induction false} StrictUnique(a: seq<Hint>, b: seq<Hint>)
    requires Strict(a) && Strict(b) && forall g :: g in a <==> g in b
    ensures a == b
  {
    assert a != [] ==> a[0] in a;
    assert b != [] ==> b[0] in b;
    if a != [] {
      assert a == [a[0]] + a[1..] && b == [b[0]] + b[1..];
      SameFirst(a, b);
      HintLessIrreflexive(a[0]);
      forall g
        ensures g in a[1..] <==> g in b[1..]
      {
        assert g in a[1..] ==> g in a;
        assert g in b[1..] ==> g in b;
      }
      StrictUnique(a[1..], b[1..]);
    }
  }

  lemma SameFirst(a: seq<Hint>, b: seq<Hint>)
    requires a != [] && b != [] && Strict(a) && Strict(b)
    requires a[0] in b && b[0] in a
    ensures a[0] == b[0]
  {
    assert a == [a[0]] + a[1..] && b == [b[0]] + b[1..];
    if a[0] != b[0] {
      assert HintLess(a[0], b[0]) && HintLess(b[0], a[0]);
      HintLessTransitive(a[0], b[0], a[0]);
      HintLessIrreflexive(a[0]);
    }
  }

  /** Merged hints are exactly the hints given, sorted, each once; so only which hints there are matters. */
  lemma MergedIs(hints: seq<Hint>)
    ensures Strict(Dedup(Sort(hints))) && forall g :: g in Dedup(Sort(hints)) <==> g in hints
  {
    HintLessOrders();
    Sorting.SortSorts(HintLess, hints);
    Sorting.SortKeeps(HintLess, hints);
    SameMembers(hints, Sort(hints));
    DedupIs(Sort(hints));
  }

  lemma MergedUnique(a: seq<Hint>, b: seq<Hint>)
    requires forall g :: g in a <==> g in b
    ensures Dedup(Sort(a)) == Dedup(Sort(b))
  {
    MergedIs(a);
    MergedIs(b);
    StrictUnique(Dedup(Sort(a)), Dedup(Sort(b)));
  }

  // ----- launch records

  type Records = map<string, Launch>

  predicate ValidHint(h: Hint) {
    && h.manager != "" && h.selector != "" && h.executable != ""
    && '\0' !in h.manager && '\0' !in h.selector && '\0' !in h.executable
  }

  predicate ValidLaunch(c: Config, l: Launch) {
    c.validPolicy(l.policy, l.bound) && forall h :: h in l.hints ==> ValidHint(h)
  }

  function Load(c: Config, records: Records, id: string): Option<Launch> {
    if id in records && c.digest(records[id]) == id && ValidLaunch(c, records[id]) then Some(records[id]) else None
  }

  /** `validate_result_metadata`. */
  predicate MetadataValid(c: Config, versions: Versions.Store, records: Records, r: Composite) {
    c.admits(r.domain) && r.environment in versions && Load(c, records, r.launch).Some?
  }

  // ----- selection for a workspace

  predicate Local(path: string, current: Option<Composite>, r: Composite) {
    r.layout == Some(path) && current.Some? && PairOf(current.value) == PairOf(r)
  }

  function FirstLocal(inputs: seq<Input>, path: string, current: Option<Composite>): Option<Composite> {
    if inputs == [] then None
    else if Local(path, current, inputs[0].result) then Some(inputs[0].result)
    else FirstLocal(inputs[1..], path, current)
  }

  function Sources(inputs: seq<Input>, current: Option<Composite>): seq<Composite> {
    seq(|inputs|, i requires 0 <= i < |inputs| => inputs[i].result) + if current.Some? then [current.value] else []
  }

  /** A hint some input's launch record, or the current one, contributes. */
  ghost predicate Contributed(c: Config, records: Records, sources: seq<Composite>, h: Hint) {
    exists r :: r in sources && Load(c, records, r.launch).Some? && h in Load(c, records, r.launch).value.hints
  }

  ghost predicate Bound(c: Config, records: Records, inputs: seq<Input>) {
    exists x :: x in inputs && Load(c, records, x.result.launch).Some? && Load(c, records, x.result.launch).value.bound
  }

  /** Everything that selection for a workspace reads. */
  datatype Request = Request(inputs: seq<Input>, path: string, baseline: Composite, current: Option<Composite>)

  ghost predicate Usable(c: Config, versions: Versions.Store, records: Records, q: Request) {
    && MetadataValid(c, versions, records, q.baseline)
    && (forall x :: x in q.inputs ==>
          x.result.domain == q.baseline.domain && MetadataValid(c, versions, records, x.result))
    && (q.current.Some? ==> Load(c, records, q.current.value.launch).Some?)
  }

  function Base(q: Request): Composite {
    FirstLocal(q.inputs, q.path, q.current).GetOr(q.baseline)
  }

  /** The launch content chosen: the base's own, with the hints of all sources, sorted and each once. */
  ghost predicate Chosen(c: Config, records: Records, q: Request, launch: Launch) {
    && Load(c, records, Base(q).launch).Some?
    && launch == Load(c, records, Base(q).launch).value.(hints := launch.hints)
    && Strict(launch.hints)
    && forall h :: h in launch.hints <==> Contributed(c, records, Sources(q.inputs, q.current), h)
  }

  ghost function Reason(c: Config, records: Records, q: Request): string {
    if FirstLocal(q.inputs, q.path, q.current).Some? then "same-layout"
    else if Bound(c, records, q.inputs) then "fixed-layout-not-reusable"
    else "unbound-inputs"
  }

  lemma {:induction false} FirstLocalIs(inputs: seq<Input>, path: string, current: Option<Composite>)
    ensures var local := FirstLocal(inputs, path, current);
            && (local.Some? <==> exists x :: x in inputs && Local(path, current, x.result))
            && (local.Some? ==> current.Some? && PairOf(local.value) == PairOf(current.value))
            && (local.Some? ==> Local(path, current, local.value) && exists x :: x in inputs && x.result == local.value)
  {
    if inputs != [] {
      assert inputs == [inputs[0]] + inputs[1..];
      FirstLocalIs(inputs[1..], path, current);
      assert inputs[0] in inputs;
    }
  }

  lemma SourceIs(inputs: seq<Input>, current: Option<Composite>, r: Composite)
    ensures r in Sources(inputs, current) <==> (exists x :: x in inputs && x.result == r) || current == Some(r)
  {
    var results := seq(|inputs|, i requires 0 <= i < |inputs| => inputs[i].result);
    if r in results {
      var i :| 0 <= i < |results| && results[i] == r;
      assert inputs[i] in inputs;
    }
    if x :| x in inputs && x.result == r {
      var i :| 0 <= i < |inputs| && inputs[i] == x;
      assert results[i] == r;
    }
  }

  lemma SameContributions(c: Config, records: Records, a: seq<Input>, b: seq<Input>, current: Option<Composite>, h: Hint)
    requires SameInputs(a, b)
    ensures Contributed(c, records, Sources(a, current), h) <==> Contributed(c, records, Sources(b, current), h)
  {
    forall r
      ensures r in Sources(a, current) <==> r in Sources(b, current)
    {
      SourceIs(a, current, r);
      SourceIs(b, current, r);
    }
  }

  /** The ingredients of a selection are the same for any order of the inputs. */
  lemma IngredientsOrderIrrelevant(c: Config, versions: Versions.Store, records: Records, q: Request, inputs: seq<Input>,
                                   l: Launch, l': Launch)
    requires SameInputs(q.inputs, inputs)
    ensures var q' := q.(inputs := inputs);
            && (Usable(c, versions, records, q) <==> Usable(c, versions, records, q'))
            && SameButCode(Base(q), Base(q'))
            && Reason(c, records, q) == Reason(c, records, q')
            && (Chosen(c, records, q, l) && Chosen(c, records, q', l') ==> l == l')
  {
    var q' := q.(inputs := inputs);
    FirstLocalIs(q.inputs, q.path, q.current);
    FirstLocalIs(inputs, q.path, q.current);
    if Chosen(c, records, q, l) && Chosen(c, records, q', l') {
      forall h
        ensures h in l.hints <==> h in l'.hints
      {
        SameContributions(c, records, q.inputs, inputs, q.current, h);
      }
      StrictUnique(l.hints, l'.hints);
    }
  }

  /** The same environment, launch and layout. */
  ghost predicate SameButCode(a: Composite, b: Composite) {
    PairOf(a) == PairOf(b) && a.layout == b.layout
  }

  /** The result under one launch content: refused if its digest is taken by another content, else persisted. */
  ghost predicate Persists(c: Config, records: Records, q: Request, launch: Launch, r: Option<Composite>, records': Records) {
    var id := c.digest(launch);
    if id in records && records[id] != launch then r == None && records' == records
    else
      && records' == records[id := launch]
      && r == Some(Base(q).(
           launch := id,
           selectedFrom := InputNames(q.inputs),
           inheritance := Some(Inheritance(Reason(c, records, q), InheritanceInputs(q.inputs)))))
  }

  /** What selection for a workspace answers and what it leaves of the records. */
  ghost predicate SelectsForWorkspace(c: Config, versions: Versions.Store, records: Records, q: Request,
                                      r: Option<Composite>, records': Records)
  {
    if Usable(c, versions, records, q) then
      exists launch :: Chosen(c, records, q, launch) && Persists(c, records, q, launch, r, records')
    else r == None && records' == records
  }

  /** For any order of the inputs selection is refused or not alike, stores the same record, and chooses the same
      environment, launch and layout for the same reason; the inputs are listed as they came. */
  lemma WorkspaceOrderIrrelevant(c: Config, versions: Versions.Store, records: Records, q: Request, inputs: seq<Input>,
                                 r: Option<Composite>, s: Records, r': Option<Composite>, s': Records)
    requires SameInputs(q.inputs, inputs)
    requires SelectsForWorkspace(c, versions, records, q, r, s)
    requires SelectsForWorkspace(c, versions, records, q.(inputs := inputs), r', s')
    ensures s == s' && (r.Some? <==> r'.Some?)
    ensures r.Some? ==>
              && SameButCode(r.value, r'.value)
              && r.value.selectedFrom == InputNames(q.inputs) && r'.value.selectedFrom == InputNames(inputs)
              && exists reason :: r.value.inheritance == Some(Inheritance(reason, InheritanceInputs(q.inputs)))
                                  && r'.value.inheritance == Some(Inheritance(reason, InheritanceInputs(inputs)))
  {
    var q', none := q.(inputs := inputs), Launch("", false, []);
    IngredientsOrderIrrelevant(c, versions, records, q, inputs, none, none);
    if Usable(c, versions, records, q) {
      var l :| Chosen(c, records, q, l) && Persists(c, records, q, l, r, s);
      var l' :| Chosen(c, records, q', l') && Persists(c, records, q', l', r', s');
      IngredientsOrderIrrelevant(c, versions, records, q, inputs, l, l');
    }
  }

  ghost predicate CodeFixed(q: Request) {
    forall inputs :: multiset(inputs) == multiset(q.inputs) ==> Base(q.(inputs := inputs)).code == Base(q).code
  }

  ghost predicate IsLocal(q: Request, x: Input) {
    x in q.inputs && Local(q.path, q.current, x.result)
  }

  /** The code version of the result does depend on the order, unless the local inputs agree on it. */
  lemma CodeFixedIff(q: Request)
    ensures CodeFixed(q) <==> forall x, y :: IsLocal(q, x) && IsLocal(q, y) ==> x.result.code == y.result.code
  {
    LocalIs(q, q.inputs);
    forall inputs: seq<Input> | multiset(inputs) == multiset(q.inputs)
      ensures var local := FirstLocal(inputs, q.path, q.current);
              if local.Some? then exists x :: IsLocal(q, x) && x.result == local.value else forall x :: !IsLocal(q, x)
    {
      LocalIs(q, inputs);
    }
    forall x | IsLocal(q, x) && CodeFixed(q)
      ensures x.result.code == Base(q).code
    {
      var i :| 0 <= i < |q.inputs| && q.inputs[i] == x;
      var inputs := MovedToFront(q.inputs, i);
      assert Base(q.(inputs := inputs)).code == Base(q).code;
    }
  }

  /** Two results of one layout and one environment, with different code: the first one listed decides. */
  lemma CodeFollowsOrder(baseline: Composite, path: string, code: string, other: string)
    requires code != other
    ensures var x := Input("x", baseline.(layout := Some(path), code := code));
            var y := Input("y", baseline.(layout := Some(path), code := other));
            var q := Request([x, y], path, baseline, Some(baseline));
            && Base(q).code == code && Base(q.(inputs := [y, x])).code == other
            && multiset([x, y]) == multiset([y, x]) && !CodeFixed(q)
  {
    var x := Input("x", baseline.(layout := Some(path), code := code));
    var y := Input("y", baseline.(layout := Some(path), code := other));
    var q := Request([x, y], path, baseline, Some(baseline));
    assert [x, y][0] == x && [y, x][0] == y;
    CodeFixedIff(q);
    assert x in q.inputs && y in q.inputs;
    assert IsLocal(q, x) && IsLocal(q, y);
  }

  /** The first local input, in whatever order, is a local input; without one the baseline is taken. */
  lemma LocalIs(q: Request, inputs: seq<Input>)
    requires multiset(inputs) == multiset(q.inputs)
    ensures var local := FirstLocal(inputs, q.path, q.current);
            if local.Some? then exists x :: IsLocal(q, x) && x.result == local.value else forall x :: !IsLocal(q, x)
  {
    PermutedInputsAreSame(inputs, q.inputs);
    FirstLocalIs(inputs, q.path, q.current);
    var local := FirstLocal(inputs, q.path, q.current);
    if local.Some? {
      var x :| x in inputs && x.result == local.value;
      assert IsLocal(q, x);
    }
  }

  lemma MovedToFront(inputs: seq<Input>, i: nat) returns (moved: seq<Input>)
    requires i < |inputs|
    ensures moved != [] && moved[0] == inputs[i] && multiset(moved) == multiset(inputs)
  {
    moved := [inputs[i]] + (inputs[..i] + inputs[i + 1..]);
    assert inputs == inputs[..i] + [inputs[i]] + inputs[i + 1..];
  }

  /** The merged record passes the checks every loaded record has passed. */
  lemma MergedValid(c: Config, records: Records, q: Request, launch: Launch)
    requires Chosen(c, records, q, launch)
    ensures ValidLaunch(c, launch)
  {
    forall h | h in launch.hints
      ensures ValidHint(h)
    {
      assert Contributed(c, records, Sources(q.inputs, q.current), h);
    }
  }

  class Environments {
    const config: Config
    var versions: Versions.Store
    var records: Records

    constructor (config: Config, versions: Versions.Store, records: Records)
      ensures this.config == config && this.versions == versions && this.records == records
    {
      this.config, this.versions, this.records := config, versions, records;
    }

    /** `launch`: records are immutable, and found under their digest. */
    method SaveLaunch(launch: Launch) returns (id: Option<string>)
      modifies this`records
      ensures id.Some? <==>
              ValidLaunch(config, launch) &&
              (config.digest(launch) in old(records) ==> old(records)[config.digest(launch)] == launch)
      ensures id.None? ==> records == old(records)
      ensures id.Some? ==> records == old(records)[id.value := launch] && id.value == config.digest(launch)
      ensures id.Some? ==> Load(config, records, id.value) == Some(launch)
    {
      if !ValidLaunch(config, launch) {
        return None;
      }
      var key := config.digest(launch);
      if key in records {
        if records[key] != launch {
          return None;
        }
        assert records == records[key := launch];
      } else {
        records := records[key := launch];
      }
      id := Some(key);
    }

    /** The hints of all sources, one after another. */
    method GatherHints(sources: seq<Composite>) returns (r: Option<seq<Hint>>)
      ensures r.Some? <==> forall s :: s in sources ==> Load(config, records, s.launch).Some?
      ensures r.Some? ==> forall h :: h in r.value <==> Contributed(config, records, sources, h)
    {
      var hints: seq<Hint> := [];
      for i := 0 to |sources|
        invariant forall s :: s in sources[..i] ==> Load(config, records, s.launch).Some?
        invariant forall h :: h in hints <==> Contributed(config, records, sources[..i], h)
      {
        var launch := Load(config, records, sources[i].launch);
        assert sources[..i + 1] == sources[..i] + [sources[i]];
        if launch == None {
          return None;
        }
        OneMoreSource(config, records, sources[..i], sources[i]);
        hints := hints + launch.value.hints;
      }
      assert sources[..|sources|] == sources;
      r := Some(hints);
    }

    method ValidateAll(q: Request) returns (ok: bool)
      ensures ok <==>
              MetadataValid(config, versions, records, q.baseline) &&
              forall x :: x in q.inputs ==>
                x.result.domain == q.baseline.domain && MetadataValid(config, versions, records, x.result)
    {
      if !MetadataValid(config, versions, records, q.baseline) {
        return false;
      }
      for i := 0 to |q.inputs|
        invariant forall k :: 0 <= k < i ==>
          q.inputs[k].result.domain == q.baseline.domain && MetadataValid(config, versions, records, q.inputs[k].result)
      {
        var input := q.inputs[i].result;
        if input.domain != q.baseline.domain || !MetadataValid(config, versions, records, input) {
          assert q.inputs[i] in q.inputs;
          return false;
        }
      }
      ok := true;
    }

    /** `select_for_workspace` under best-effort inheritance. */
    method SelectForWorkspace(q: Request) returns (r: Option<Composite>)
      modifies this`records
      ensures SelectsForWorkspace(config, versions, old(records), q, r, records)
    {
      ghost var before := records;
      var valid := ValidateAll(q);
      if !valid {
        return None;
      }
      var selected := Base(q);
      var reason := WhyChosen(q);
      var hints := GatherHints(Sources(q.inputs, q.current));
      SourcesLoad(config, versions, records, q);
      if hints == None {
        return None;
      }
      var launch := Load(config, records, selected.launch).value.(hints := Dedup(Sort(hints.value)));
      MergedIs(hints.value);
      MergedValid(config, records, q, launch);
      assert Chosen(config, before, q, launch);
      var id := SaveLaunch(launch);
      r :=
        if id == None then None
        else Some(selected.(
          launch := id.value,
          selectedFrom := InputNames(q.inputs),
          inheritance := Some(Inheritance(reason, InheritanceInputs(q.inputs)))));
      assert Persists(config, before, q, launch, r, records);
    }

    /** `select_for_workspace`: strict selection, unless the policy is best-effort. */
    method SelectFor(node: string, q: Request) returns (r: Result<Composite, Refusal>)
      modifies this`records
      ensures !config.bestEffort ==> records == old(records) && Selects(config, versions, node, q.inputs, r)
      ensures config.bestEffort ==> SelectsForWorkspace(config, versions, old(records), q, r.ToOption(), records)
      ensures config.bestEffort && r.Err? ==> r == Err(Unusable)
    {
      if !config.bestEffort {
        r := Select(config, versions, node, q.inputs);
        return;
      }
      var selected := SelectForWorkspace(q);
      r := if selected.Some? then Ok(selected.value) else Err(Unusable);
    }

    method WhyChosen(q: Request) returns (reason: string)
      ensures reason == Reason(config, records, q)
    {
      if FirstLocal(q.inputs, q.path, q.current).Some? {
        return "same-layout";
      }
      for i := 0 to |q.inputs|
        invariant forall x :: x in q.inputs[..i] ==>
          !(Load(config, records, x.result.launch).Some? && Load(config, records, x.result.launch).value.bound)
      {
        var launch := Load(config, records, q.inputs[i].result.launch);
        if launch.Some? && launch.value.bound {
          assert q.inputs[i] in q.inputs;
          return "fixed-layout-not-reusable";
        }
        assert q.inputs[..i + 1] == q.inputs[..i] + [q.inputs[i]];
      }
      assert q.inputs[..|q.inputs|] == q.inputs;
      reason := "unbound-inputs";
    }
  }

  function InheritanceInputs(inputs: seq<Input>): seq<InheritanceInput> {
    seq(|inputs|, i requires 0 <= i < |inputs| =>
      InheritanceInput(inputs[i].name, inputs[i].result.environment, inputs[i].result.launch, inputs[i].result.layout))
  }

  lemma OneMoreSource(c: Config, records: Records, sources: seq<Composite>, r: Composite)
    requires Load(c, records, r.launch).Some?
    ensures forall h ::
      Contributed(c, records, sources + [r], h) <==>
      Contributed(c, records, sources, h) || h in Load(c, records, r.launch).value.hints
  {
    assert r in sources + [r];
  }

  /** Once the inputs are valid, only the current result's own record can still be missing; the base's is there. */
  lemma SourcesLoad(c: Config, versions: Versions.Store, records: Records, q: Request)
    requires MetadataValid(c, versions, records, q.baseline)
    requires forall x :: x in q.inputs ==>
               x.result.domain == q.baseline.domain && MetadataValid(c, versions, records, x.result)
    ensures (forall s :: s in Sources(q.inputs, q.current) ==> Load(c, records, s.launch).Some?) <==>
            Usable(c, versions, records, q)
    ensures Load(c, records, Base(q).launch).Some?
  {
    FirstLocalIs(q.inputs, q.path, q.current);
    forall s
      ensures s in Sources(q.inputs, q.current) <==> (exists x :: x in q.inputs && x.result == s) || q.current == Some(s)
    {
      SourceIs(q.inputs, q.current, s);
    }
    if q.current.Some? {
      assert q.current.value in Sources(q.inputs, q.current);
    }
  }
}
