/** Which environment is selected, and why not, in terms of the inputs, the launch records and the versions. */
module EnvironmentAnswers {
  import opened Wrappers
  import opened Names
  import opened Paths
  import opened Environment
  import Versions

  // ----- versions

  /** Each version is a parent of the one before it. */
  ghost predicate ParentChain(s: Versions.Store, chain: seq<string>) {
    chain != [] && forall i {:trigger ParentStep(s, chain, i)} :: 0 <= i < |chain| - 1 ==> ParentStep(s, chain, i)
  }

  ghost predicate ParentStep(s: Versions.Store, chain: seq<string>, i: int)
    requires 0 <= i < |chain| - 1
  {
    chain[i] in s && chain[i + 1] in s[chain[i]]
  }

  ghost predicate IsAncestor(s: Versions.Store, version: string, ancestor: string) {
    exists chain :: ParentChain(s, chain) && chain[0] == version && chain[|chain| - 1] == ancestor
  }

  lemma ChainIff(s: Versions.Store, chain: seq<string>)
    ensures ParentChain(s, chain) <==> Path(Versions.Arcs(s), chain)
  {
    forall i | 0 <= i < |chain| - 1
      ensures ParentStep(s, chain, i) <==> Step(Versions.Arcs(s), chain, i)
    {
      Versions.ArcIff(s, chain[i], chain[i + 1]);
    }
    if chain != [] && ParentChain(s, chain) {
      forall i {:trigger Step(Versions.Arcs(s), chain, i)} | 0 <= i < |chain| - 1
        ensures Step(Versions.Arcs(s), chain, i)
      {
        assert ParentStep(s, chain, i);
      }
    }
    if Path(Versions.Arcs(s), chain) {
      forall i {:trigger ParentStep(s, chain, i)} | 0 <= i < |chain| - 1
        ensures ParentStep(s, chain, i)
      {
        assert Step(Versions.Arcs(s), chain, i);
      }
    }
  }

  lemma AncestorIff(s: Versions.Store, version: string, ancestor: string)
    ensures ancestor in Versions.Ancestry(s, version) <==> IsAncestor(s, version, ancestor)
  {
    ReachableIff(Versions.Arcs(s), version, ancestor);
    if Reaches(Versions.Arcs(s), version, ancestor) {
      var p :| PathBetween(Versions.Arcs(s), p, version, ancestor);
      ChainIff(s, p);
    }
    if chain :| ParentChain(s, chain) && chain[0] == version && chain[|chain| - 1] == ancestor {
      ChainIff(s, chain);
      assert PathBetween(Versions.Arcs(s), chain, version, ancestor);
    }
  }

  ghost predicate AreAncestors(s: Versions.Store, version: string, ancestors: set<string>) {
    forall a :: a in ancestors <==> IsAncestor(s, version, a)
  }

  /** One version descends from another exactly when a chain of parents leads there, every ancestor is saved, and there
      are at most ten thousand of them. */
  lemma DescendsIff(s: Versions.Store, version: string, parent: string)
    ensures Versions.DescendsFrom(s, version, parent) <==>
            && IsAncestor(s, version, parent)
            && (forall a :: IsAncestor(s, version, a) ==> a in s)
            && exists ancestors :: AreAncestors(s, version, ancestors) && |ancestors| <= 10_000
  {
    var ancestry := Versions.Ancestry(s, version);
    forall a
      ensures a in ancestry <==> IsAncestor(s, version, a)
    {
      AncestorIff(s, version, a);
    }
    assert AreAncestors(s, version, ancestry);
    forall ancestors | AreAncestors(s, version, ancestors)
      ensures ancestors == ancestry
    {
    }
  }

  /** A capture saves a new version with its parents, if these are there, and changes nothing else. */
  lemma CaptureIs(s: Versions.Store, c: Versions.Capture, v: string)
    ensures var s' := Versions.Captured(s, c);
            if v == c.version && v !in s && forall p :: p in c.parents ==> p in s then v in s' && s'[v] == c.parents
            else (v in s' <==> v in s) && (v in s ==> s'[v] == s[v])
  {}

  // ----- strict selection

  ghost predicate SameDomains(inputs: seq<Input>) {
    forall i, j :: 0 <= i < |inputs| && 0 <= j < |inputs| ==> inputs[i].result.domain == inputs[j].result.domain
  }

  ghost predicate SameLaunches(inputs: seq<Input>) {
    forall i, j :: 0 <= i < |inputs| && 0 <= j < |inputs| ==> inputs[i].result.launch == inputs[j].result.launch
  }

  ghost predicate SameEnvironments(inputs: seq<Input>) {
    forall i, j :: 0 <= i < |inputs| && 0 <= j < |inputs| ==> inputs[i].result.environment == inputs[j].result.environment
  }

  /** Input `i` descends from every input. */
  ghost predicate Dominates(versions: Versions.Store, inputs: seq<Input>, i: int) {
    0 <= i < |inputs|
    && forall j :: 0 <= j < |inputs| ==> Versions.DescendsFrom(versions, inputs[i].result.environment, inputs[j].result.environment)
  }

  ghost predicate HasName(inputs: seq<Input>, i: int, name: string) {
    0 <= i < |inputs| && inputs[i].name == name
  }

  /** The inputs by name, in order. */
  ghost predicate AreNames(inputs: seq<Input>, names: seq<string>) {
    |names| == |inputs| && forall i :: 0 <= i < |inputs| ==> names[i] == inputs[i].name
  }

  /** Everything but the list of names is the input's own result. */
  ghost predicate TakenFrom(r: Composite, input: Input) {
    && r.domain == input.result.domain && r.code == input.result.code && r.environment == input.result.environment
    && r.launch == input.result.launch && r.layout == input.result.layout && r.inheritance == input.result.inheritance
  }

  ghost predicate ByAuthority(c: Config, node: string, inputs: seq<Input>) {
    inputs != [] && SameDomains(inputs) && node in c.authority
  }

  ghost predicate Mixed(c: Config, node: string, inputs: seq<Input>) {
    inputs != [] && SameDomains(inputs) && node !in c.authority && !(SameEnvironments(inputs) && SameLaunches(inputs))
  }

  lemma PairsIff(inputs: seq<Input>)
    requires inputs != []
    ensures OneDomain(inputs) <==> SameDomains(inputs)
    ensures OneLaunch(inputs) <==> SameLaunches(inputs)
    ensures OnePair(inputs) <==> SameEnvironments(inputs) && SameLaunches(inputs)
  {
    assert forall i :: 0 <= i < |inputs| ==>
      PairOf(inputs[i].result).environment == inputs[i].result.environment && PairOf(inputs[i].result).launch == inputs[i].result.launch;
  }

  /** When selection is refused, and how. */
  lemma RefusedIff(c: Config, versions: Versions.Store, node: string, inputs: seq<Input>, r: Result<Composite, Refusal>)
    requires Selects(c, versions, node, inputs, r)
    ensures r == Err(MissingInput) <==> inputs == []
    ensures r == Err(DifferentDomains) <==> inputs != [] && !SameDomains(inputs)
    ensures r == Err(AuthorityNotInput) <==>
              ByAuthority(c, node, inputs) && forall i :: !HasName(inputs, i, c.authority[node])
    ensures r == Err(Incompatible) <==> Mixed(c, node, inputs) && (!c.allowDescendant || !SameLaunches(inputs))
    ensures r == Err(Ambiguous) <==>
              && Mixed(c, node, inputs) && c.allowDescendant && SameLaunches(inputs)
              && forall i :: !Dominates(versions, inputs, i)
    ensures r != Err(Unusable)
  {
    if inputs != [] {
      PairsIff(inputs);
      assert node in c.authority ==> forall i :: Named(inputs, i, c.authority[node]) <==> HasName(inputs, i, c.authority[node]);
      assert forall i :: Environment.Candidate(versions, inputs, i) <==> Dominates(versions, inputs, i);
    }
  }

  /** What is selected: the input the authority names; else the first, if all share environment and launch; else the first
      that descends from every input. */
  lemma SelectedIs(c: Config, versions: Versions.Store, node: string, inputs: seq<Input>, r: Result<Composite, Refusal>)
    requires Selects(c, versions, node, inputs, r) && r.Ok?
    ensures ByAuthority(c, node, inputs) ==>
              && r.value.selectedFrom == [c.authority[node]]
              && exists i :: HasName(inputs, i, c.authority[node]) && (forall j :: j < i ==> !HasName(inputs, j, c.authority[node]))
                             && TakenFrom(r.value, inputs[i])
    ensures !ByAuthority(c, node, inputs) ==> AreNames(inputs, r.value.selectedFrom)
    ensures !ByAuthority(c, node, inputs) && !Mixed(c, node, inputs) ==> inputs != [] && TakenFrom(r.value, inputs[0])
    ensures Mixed(c, node, inputs) ==>
              exists i :: Dominates(versions, inputs, i) && (forall j :: j < i ==> !Dominates(versions, inputs, j))
                          && TakenFrom(r.value, inputs[i])
  {
    PairsIff(inputs);
    if ByAuthority(c, node, inputs) {
      var parent := c.authority[node];
      var i :| Named(inputs, i, parent) && (forall j :: j < i ==> !Named(inputs, j, parent))
        && r.value == inputs[i].result.(selectedFrom := [parent]);
      forall j | j < i
        ensures !HasName(inputs, j, parent)
      {
        assert !Named(inputs, j, parent);
      }
      assert HasName(inputs, i, parent) && TakenFrom(r.value, inputs[i]);
    } else if Mixed(c, node, inputs) {
      var i :| FirstCandidate(versions, inputs, i) && r.value == inputs[i].result.(selectedFrom := InputNames(inputs));
      forall j | j < i
        ensures !Dominates(versions, inputs, j)
      {
        assert !Environment.Candidate(versions, inputs, j);
      }
      assert Dominates(versions, inputs, i) && TakenFrom(r.value, inputs[i]);
    }
  }

  // ----- launch records

  ghost predicate Filled(s: string) {
    s != "" && '\0' !in s
  }

  /** The record `l` is stored under its digest, and its policy and hints are in order. */
  ghost predicate Loads(c: Config, records: Records, id: string, l: Launch) {
    && id in records && records[id] == l && c.digest(l) == id
    && c.validPolicy(l.policy, l.bound)
    && forall h :: h in l.hints ==> Filled(h.manager) && Filled(h.selector) && Filled(h.executable)
  }

  lemma LoadIff(c: Config, records: Records, id: string, l: Launch)
    ensures Load(c, records, id) == Some(l) <==> Loads(c, records, id, l)
  {
    if id in records {
      assert ValidLaunch(c, records[id]) <==>
        && c.validPolicy(records[id].policy, records[id].bound)
        && forall h :: h in records[id].hints ==> Filled(h.manager) && Filled(h.selector) && Filled(h.executable);
    }
  }

  ghost predicate Known(c: Config, versions: Versions.Store, records: Records, r: Composite) {
    c.admits(r.domain) && r.environment in versions && exists l :: Loads(c, records, r.launch, l)
  }

  /** A request that can be answered: the baseline and every input are known and of one domain, and the current launch
      record, if any, loads. */
  ghost predicate Answerable(c: Config, versions: Versions.Store, records: Records, q: Request) {
    && Known(c, versions, records, q.baseline)
    && (forall x :: x in q.inputs ==> x.result.domain == q.baseline.domain && Known(c, versions, records, x.result))
    && (q.current.Some? ==> exists l :: Loads(c, records, q.current.value.launch, l))
  }

  lemma LoadsIff(c: Config, records: Records, id: string)
    ensures Load(c, records, id).Some? <==> exists l :: Loads(c, records, id, l)
  {
    if Load(c, records, id).Some? {
      LoadIff(c, records, id, Load(c, records, id).value);
    }
    if l :| Loads(c, records, id, l) {
      LoadIff(c, records, id, l);
    }
  }

  lemma AnswerableIff(c: Config, versions: Versions.Store, records: Records, q: Request)
    ensures Usable(c, versions, records, q) <==> Answerable(c, versions, records, q)
  {
    forall id
      ensures Load(c, records, id).Some? <==> exists l :: Loads(c, records, id, l)
    {
      LoadsIff(c, records, id);
    }
  }

  // ----- selection for a workspace

  /** Input `i` has the workspace's own layout, and the environment and launch the workspace runs now. */
  ghost predicate Reusable(q: Request, i: int) {
    && 0 <= i < |q.inputs|
    && q.inputs[i].result.layout == Some(q.path)
    && q.current.Some? && q.current.value.environment == q.inputs[i].result.environment
    && q.current.value.launch == q.inputs[i].result.launch
  }

  ghost predicate IsBase(q: Request, base: Composite) {
    || (exists i :: Reusable(q, i) && (forall j :: j < i ==> !Reusable(q, j)) && base == q.inputs[i].result)
    || ((forall i :: !Reusable(q, i)) && base == q.baseline)
  }

  lemma {:induction false} FirstLocalFrom(q: Request, k: nat)
    requires k <= |q.inputs| && forall j :: j < k ==> !Reusable(q, j)
    ensures var local := FirstLocal(q.inputs[k..], q.path, q.current);
      if local.Some? then exists i :: Reusable(q, i) && (forall j :: j < i ==> !Reusable(q, j)) && local.value == q.inputs[i].result
      else forall i :: !Reusable(q, i)
    decreases |q.inputs| - k
  {
    if k < |q.inputs| {
      var rest := q.inputs[k..];
      assert rest[0] == q.inputs[k] && rest[1..] == q.inputs[k + 1..];
      assert Local(q.path, q.current, rest[0].result) <==> Reusable(q, k);
      if !Reusable(q, k) {
        FirstLocalFrom(q, k + 1);
      }
    }
  }

  lemma BaseIs(q: Request)
    ensures IsBase(q, Base(q))
    ensures FirstLocal(q.inputs, q.path, q.current).Some? <==> exists i :: Reusable(q, i)
  {
    assert q.inputs[0..] == q.inputs;
    FirstLocalFrom(q, 0);
  }

  /** A hint of a launch record that an input, or the current result, refers to. */
  ghost predicate IsHint(c: Config, records: Records, q: Request, h: Hint) {
    exists id, l :: Loads(c, records, id, l) && h in l.hints
                    && ((exists i :: 0 <= i < |q.inputs| && q.inputs[i].result.launch == id)
                        || (q.current.Some? && q.current.value.launch == id))
  }

  lemma HintIff(c: Config, records: Records, q: Request, h: Hint)
    ensures Contributed(c, records, Sources(q.inputs, q.current), h) <==> IsHint(c, records, q, h)
  {
    var sources := Sources(q.inputs, q.current);
    forall r
      ensures r in sources <==> (exists x :: x in q.inputs && x.result == r) || q.current == Some(r)
    {
      SourceIs(q.inputs, q.current, r);
    }
    if r :| r in sources && Load(c, records, r.launch).Some? && h in Load(c, records, r.launch).value.hints {
      LoadIff(c, records, r.launch, Load(c, records, r.launch).value);
      if q.current != Some(r) {
        var x :| x in q.inputs && x.result == r;
        var i :| 0 <= i < |q.inputs| && q.inputs[i] == x;
        assert q.inputs[i].result.launch == r.launch;
      }
    }
    if id, l :| Loads(c, records, id, l) && h in l.hints
                && ((exists i :: 0 <= i < |q.inputs| && q.inputs[i].result.launch == id)
                    || (q.current.Some? && q.current.value.launch == id)) {
      LoadIff(c, records, id, l);
      if i :| 0 <= i < |q.inputs| && q.inputs[i].result.launch == id {
        assert q.inputs[i] in q.inputs;
        assert q.inputs[i].result in sources;
      } else {
        assert q.current.value in sources;
      }
    }
  }

  /** By manager, then selector, then executable, each in the order of names. */
  lemma HintOrder(a: Hint, b: Hint)
    ensures HintLess(a, b) <==>
            || Less(a.manager, b.manager)
            || (a.manager == b.manager && (Less(a.selector, b.selector)
                || (a.selector == b.selector && Less(a.executable, b.executable))))
  {
    var p, q := Key(a), Key(b);
    assert p[1..][0] == a.selector && q[1..][0] == b.selector;
    assert p[1..][1..][0] == a.executable && q[1..][1..][0] == b.executable;
    assert p[1..][1..][1..] == [] && q[1..][1..][1..] == [];
    assert ListLess(p[1..][1..], q[1..][1..]) <==> Less(a.executable, b.executable);
    assert ListLess(p[1..], q[1..]) <==>
      Less(a.selector, b.selector) || (a.selector == b.selector && Less(a.executable, b.executable));
  }

  /** The record stored: the base's own, with all hints in order and each once. */
  ghost predicate IsMerged(c: Config, records: Records, q: Request, base: Composite, launch: Launch) {
    && (exists own :: Loads(c, records, base.launch, own) && launch.policy == own.policy && launch.bound == own.bound)
    && (forall i, j {:trigger HintLess(launch.hints[i], launch.hints[j])} ::
         0 <= i < j < |launch.hints| ==> HintLess(launch.hints[i], launch.hints[j]))
    && (forall h :: h in launch.hints <==> IsHint(c, records, q, h))
  }

  lemma {:induction false} StrictOrder(hints: seq<Hint>)
    requires Strict(hints)
    ensures forall i, j {:trigger HintLess(hints[i], hints[j])} :: 0 <= i < j < |hints| ==> HintLess(hints[i], hints[j])
  {
    if hints != [] {
      var rest := hints[1..];
      StrictOrder(rest);
      forall i, j | 0 <= i < j < |hints|
        ensures HintLess(hints[i], hints[j])
      {
        assert hints[j] == rest[j - 1];
        if i == 0 {
          assert rest[j - 1] in rest;
        } else {
          assert hints[i] == rest[i - 1];
          assert HintLess(rest[i - 1], rest[j - 1]);
        }
      }
    }
  }

  lemma ChosenIsMerged(c: Config, records: Records, q: Request, launch: Launch)
    requires Chosen(c, records, q, launch)
    ensures IsMerged(c, records, q, Base(q), launch)
  {
    LoadIff(c, records, Base(q).launch, Load(c, records, Base(q).launch).value);
    StrictOrder(launch.hints);
    forall h
      ensures h in launch.hints <==> IsHint(c, records, q, h)
    {
      HintIff(c, records, q, h);
    }
  }

  /** Some input's launch record is bound to an environment. */
  ghost predicate SomeBound(c: Config, records: Records, q: Request) {
    exists i, l :: 0 <= i < |q.inputs| && Loads(c, records, q.inputs[i].result.launch, l) && l.bound
  }

  lemma BoundIff(c: Config, records: Records, q: Request)
    ensures Bound(c, records, q.inputs) <==> SomeBound(c, records, q)
  {
    if x :| x in q.inputs && Load(c, records, x.result.launch).Some? && Load(c, records, x.result.launch).value.bound {
      var i :| 0 <= i < |q.inputs| && q.inputs[i] == x;
      LoadIff(c, records, x.result.launch, Load(c, records, x.result.launch).value);
      assert Loads(c, records, q.inputs[i].result.launch, Load(c, records, x.result.launch).value);
    }
    if i, l :| 0 <= i < |q.inputs| && Loads(c, records, q.inputs[i].result.launch, l) && l.bound {
      LoadIff(c, records, q.inputs[i].result.launch, l);
      assert q.inputs[i] in q.inputs;
    }
  }

  ghost predicate Recorded(q: Request, listed: seq<InheritanceInput>) {
    && |listed| == |q.inputs|
    && forall i :: 0 <= i < |listed| ==>
         && listed[i].node == q.inputs[i].name && listed[i].environment == q.inputs[i].result.environment
         && listed[i].launch == q.inputs[i].result.launch && listed[i].layout == q.inputs[i].result.layout
  }

  /** The answer built on a base: its own fields, the new launch, and what was decided and why. */
  ghost predicate IsAnswer(c: Config, records: Records, q: Request, base: Composite, launch: Launch, r: Composite) {
    && r.domain == base.domain && r.code == base.code && r.environment == base.environment && r.layout == base.layout
    && r.launch == c.digest(launch)
    && AreNames(q.inputs, r.selectedFrom)
    && r.inheritance.Some? && Recorded(q, r.inheritance.value.inputs)
    && r.inheritance.value.reason ==
         if exists i :: Reusable(q, i) then "same-layout"
         else if SomeBound(c, records, q) then "fixed-layout-not-reusable"
         else "unbound-inputs"
  }

  ghost predicate DigestTaken(c: Config, records: Records, launch: Launch) {
    c.digest(launch) in records && records[c.digest(launch)] != launch
  }

  /** Selection for a workspace: an answerable request gets its base under the merged launch record, which is stored,
      unless the digest of that record is taken by another; any other request is refused and nothing is stored. */
  lemma WorkspaceAnswer(c: Config, versions: Versions.Store, records: Records, q: Request,
                        r: Option<Composite>, records': Records) returns (base: Composite, launch: Launch)
    requires SelectsForWorkspace(c, versions, records, q, r, records')
    ensures !Answerable(c, versions, records, q) ==> r == None && records' == records
    ensures Answerable(c, versions, records, q) ==>
              && IsBase(q, base) && IsMerged(c, records, q, base, launch)
              && if DigestTaken(c, records, launch) then r == None && records' == records
                 else r.Some? && IsAnswer(c, records, q, base, launch, r.value) && records' == records[c.digest(launch) := launch]
  {
    base, launch := Base(q), Launch("", false, []);
    AnswerableIff(c, versions, records, q);
    if Usable(c, versions, records, q) {
      launch :| Chosen(c, records, q, launch) && Persists(c, records, q, launch, r, records');
      BaseIs(q);
      ChosenIsMerged(c, records, q, launch);
      BoundIff(c, records, q);
    }
  }
}
