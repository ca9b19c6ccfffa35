/** When staging, removal and delivery go through, read off the files they find, and who can take an upload away. */
module AttachmentOwnership {
  import opened Wrappers
  import opened Collections
  import opened AttachmentInputs
  import opened AttachmentRecovery
  import Text

  // ----- calls

  /** A call whose process survives `budget` file steps does all its steps and gives its verdict, or exactly the first
      `budget` of them and gives none. */
  lemma CallIs(fs: Files, budget: nat, plan: Plan, fs': Files, budget': nat, outcome: Outcome)
    requires Carries(fs, budget, plan, fs', budget', outcome)
    ensures if |plan.steps| <= budget then
              fs' == Exec(fs, plan.steps) && budget' == budget - |plan.steps| && outcome == Finished(plan.verdict)
            else
              fs' == Exec(fs, plan.steps[..budget]) && budget' == 0 && outcome == Interrupted
  {
    TakeAll(plan.steps);
  }

  // ----- removal

  /** The manifest can be read, and names this node and this file. */
  ghost predicate NamedBy(f: Format, manifest: Bytes, node: string, name: string) {
    exists h :: f.decode(manifest) == Some(Input(node, name, h))
  }

  lemma NamedByIff(f: Format, manifest: Bytes, node: string, name: string)
    ensures NamedBy(f, manifest, node, name) <==>
            f.decode(manifest).Some? && f.decode(manifest).value.node == node && f.decode(manifest).value.name == name
  {
    if f.decode(manifest).Some? {
      var input := f.decode(manifest).value;
      assert input == Input(input.node, input.name, input.hash);
    }
  }

  lemma UnlinkBoth(fs: Files, a: File, b: File)
    requires a != b
    ensures Exec(fs, UnlinkSteps(fs, a) + UnlinkSteps(fs, b)) == fs - {a, b}
  {
    ExecConcat(fs, UnlinkSteps(fs, a), UnlinkSteps(fs, b));
    UnlinkWhole(fs, a, fs);
    UnlinkWhole(fs, b, fs - {a});
    assert fs - {a} - {b} == fs - {a, b};
  }

  /** A removal goes through exactly when there is no manifest, or one that names this node and file. Then both files
      go; otherwise nothing changes. */
  lemma RemoveDoneIff(f: Format, fs: Files, node: string, id: Id, name: string)
    ensures var plan := RemovePlan(f, fs, node, id, name);
      && (plan.verdict == Done <==> (Manifest(id) in fs ==> NamedBy(f, fs[Manifest(id)], node, name)))
      && Exec(fs, plan.steps) == if plan.verdict == Done then fs - {Manifest(id), Content(id)} else fs
  {
    if Manifest(id) in fs {
      NamedByIff(f, fs[Manifest(id)], node, name);
    }
    UnlinkBoth(fs, Manifest(id), Content(id));
  }

  lemma UnlinkWhole(fs: Files, file: File, fs': Files)
    requires file in fs <==> file in fs'
    ensures Exec(fs', UnlinkSteps(fs, file)) == fs' - {file}
  {
    if file in fs {
      assert [Unlink(file)][..0] == [];
    } else {
      assert fs' - {file} == fs';
    }
  }

  // ----- staging

  /** A file name that is one path component, without control characters. */
  ghost predicate PlainName(name: string) {
    && name != "" && name != "." && name != ".."
    && '/' !in name && '\\' !in name && ':' !in name
    && forall c :: c in name ==> 32 <= c as int && (c as int < 127 || c as int > 159)
  }

  lemma PlainNameIff(name: string)
    ensures ValidName(name) <==> PlainName(name)
  {}

  /** Staging goes through exactly under a plain name, over files that are absent or the same. Then both files are
      there; otherwise nothing but absent content may have been written. */
  lemma StageDoneIff(f: Format, fs: Files, node: string, id: Id, name: string, bytes: Bytes)
    ensures var plan := StagePlan(f, fs, node, id, name, bytes);
      var manifest := f.encode(Input(node, name, f.hash(bytes)));
      && (plan.verdict == Done <==>
           && PlainName(name)
           && (Content(id) in fs ==> fs[Content(id)] == bytes)
           && (Manifest(id) in fs ==> fs[Manifest(id)] == manifest))
      && (plan.verdict == Done ==> Exec(fs, plan.steps) == fs[Content(id) := bytes][Manifest(id) := manifest])
      && (plan.verdict == Refused ==>
           Exec(fs, plan.steps) == if PlainName(name) && Content(id) !in fs then fs[Content(id) := bytes] else fs)
  {
    PlainNameIff(name);
    var manifest := f.encode(Input(node, name, f.hash(bytes)));
    if ValidName(name) {
      var first, second := ImmutablePlan(fs, Content(id), bytes), ImmutablePlan(fs, Manifest(id), manifest);
      if first.verdict == Done {
        ImmutableWhole(fs, Content(id), bytes);
        ExecConcat(fs, first.steps, second.steps);
        var fs' := fs[Content(id) := bytes];
        if second.verdict == Done {
          assert ImmutablePlan(fs', Manifest(id), manifest) == second;
          ImmutableWhole(fs', Manifest(id), manifest);
        } else {
          assert Exec(fs', []) == fs';
          assert Content(id) in fs ==> fs' == fs;
        }
      }
    }
  }

  // ----- delivery

  /** A staged id can be delivered: its manifest names this node and a plain file name, the content has the hash the
      manifest gives, a receipt agrees, and a copy without receipt is whole. */
  ghost predicate Acceptable(f: Format, fs: Files, node: string, id: Id, ws: WorkspaceKey, input: Input) {
    && Manifest(id) in fs && f.decode(fs[Manifest(id)]) == Some(input)
    && input.node == node && PlainName(input.name)
    && Content(id) in fs && f.hash(fs[Content(id)]) == input.hash
    && (Receipt(id, ws) in fs ==> fs[Receipt(id, ws)] == input.hash)
    && (Copy(ws, id, input.name) in fs && Receipt(id, ws) !in fs ==> f.hash(fs[Copy(ws, id, input.name)]) == input.hash)
  }

  ghost predicate Accepted(f: Format, fs: Files, node: string, id: Id, ws: WorkspaceKey) {
    Manifest(id) in fs ==> exists input :: Acceptable(f, fs, node, id, ws, input)
  }

  lemma AcceptedIff(f: Format, fs: Files, node: string, id: Id, ws: WorkspaceKey)
    ensures Deliverable(f, fs, node, id, ws) <==> Accepted(f, fs, node, id, ws)
    ensures Manifest(id) in fs && Accepted(f, fs, node, id, ws) ==>
              Intact(f, fs, node, id).Some? && Acceptable(f, fs, node, id, ws, Intact(f, fs, node, id).value)
  {
    if Manifest(id) in fs && f.decode(fs[Manifest(id)]).Some? {
      var input := f.decode(fs[Manifest(id)]).value;
      PlainNameIff(input.name);
      assert Deliverable(f, fs, node, id, ws) <==> Acceptable(f, fs, node, id, ws, input);
    }
  }

  /** A delivery goes through exactly when each of its ids is not staged at all or can be delivered. */
  lemma DeliverAcceptedIff(f: Format, fs: Files, node: string, ids: seq<Id>, ws: WorkspaceKey, preserve: bool)
    requires Distinct(ids)
    ensures DeliverPlan(f, fs, node, ids, ws, preserve).verdict == Done <==>
            forall id :: id in ids ==> Accepted(f, fs, node, id, ws)
  {
    DeliverDoneIff(f, fs, node, ids, ws, preserve);
    forall id | id in ids
      ensures Deliverable(f, fs, node, id, ws) <==> Accepted(f, fs, node, id, ws)
    {
      AcceptedIff(f, fs, node, id, ws);
    }
  }

  /** And it leaves, for each staged id, the receipt and a copy: the one that was there, unless there was none; a new
      one, unless partial work is preserved and the receipt shows that the agent deleted it. */
  lemma DeliverLeaves(f: Format, fs: Files, node: string, ids: seq<Id>, ws: WorkspaceKey, preserve: bool, id: Id, input: Input)
    requires Distinct(ids) && id in ids && Manifest(id) in fs && f.decode(fs[Manifest(id)]) == Some(input)
    requires DeliverPlan(f, fs, node, ids, ws, preserve).verdict == Done
    ensures var fs' := Exec(fs, DeliverPlan(f, fs, node, ids, ws, preserve).steps);
      var receipt, copy := Receipt(id, ws), Copy(ws, id, input.name);
      && receipt in fs' && fs'[receipt] == input.hash
      && Content(id) in fs
      && (if copy in fs then copy in fs' && fs'[copy] == fs[copy]
          else if preserve && receipt in fs then copy !in fs'
          else copy in fs' && fs'[copy] == fs[Content(id)])
  {
    DeliverEffect(f, fs, node, ids, ws, preserve, id);
    DeliverAcceptedIff(f, fs, node, ids, ws, preserve);
    AcceptedIff(f, fs, node, id, ws);
  }

  // ----- which ids a task names

  /** The directory, a UUID of 36 characters, and a slash. */
  ghost predicate Spelled(parse: UuidParse, task: string, i: nat, id: Id) {
    && i + 57 <= |task|
    && task[i..i + 20] == "grapher-attachments/" && task[i + 56] == '/'
    && parse(task[i + 20..i + 56]) == Some(id)
  }

  lemma SpelledIff(parse: UuidParse, task: string, i: nat, id: Id)
    ensures NamesAt(parse, task, i, id) <==> Spelled(parse, task, i, id)
  {
    assert |PROJECT_PREFIX| == 20;
    if i + 57 <= |task| {
      var suffix := task[i + 20..];
      assert suffix[36] == task[i + 56] && suffix[..36] == task[i + 20..i + 56];
    }
  }

  /** An id is named exactly where it is spelled out so. */
  lemma NamedIff(parse: UuidParse, task: string, id: Id)
    ensures NamedIn(parse, task, id) <==> exists i: nat :: Spelled(parse, task, i, id)
  {
    if i: nat :| NamesAt(parse, task, i, id) {
      SpelledIff(parse, task, i, id);
    }
    if i: nat :| Spelled(parse, task, i, id) {
      SpelledIff(parse, task, i, id);
    }
  }

  // ----- who can take an upload away

  /** An upload of which both files are there, and whose manifest can be read. */
  ghost predicate StagedAs(f: Format, fs: Files, id: Id, bytes: Bytes, manifest: Bytes, input: Input) {
    && Content(id) in fs && fs[Content(id)] == bytes
    && Manifest(id) in fs && fs[Manifest(id)] == manifest && f.decode(manifest) == Some(input)
  }

  /** A call to remove this id under the name its manifest gives, for the node it belongs to. */
  ghost predicate RemovesIt(node: string, action: Action, id: Id, input: Input) {
    action.Remove? && action.id == id && action.name == input.name && input.node == node && action.steps > 0
  }

  lemma StageAvoidsStaged(f: Format, fs: Files, node: string, other: Id, name: string, bytes: Bytes, id: Id, file: File)
    requires Manifest(id) in fs && Content(id) in fs && (file == Content(id) || file == Manifest(id))
    ensures Avoids(StagePlan(f, fs, node, other, name, bytes).steps, file)
  {
    if other != id {
      StageAvoids(f, fs, node, other, name, bytes, file);
    } else {
      assert StagePlan(f, fs, node, other, name, bytes).steps == [];
    }
  }

  lemma RemoveAvoidsOther(f: Format, fs: Files, node: string, other: Id, name: string, n: nat, id: Id, input: Input, file: File)
    requires Manifest(id) in fs && f.decode(fs[Manifest(id)]) == Some(input)
    requires !(other == id && name == input.name && input.node == node && n > 0)
    requires file == Content(id) || file == Manifest(id)
    ensures Avoids(Cut(RemovePlan(f, fs, node, other, name).steps, n), file)
  {
    var steps := RemovePlan(f, fs, node, other, name).steps;
    if n > 0 {
      assert Avoids(steps, file);
    }
    CutAvoidsNone(steps, n, file);
  }

  lemma OtherFilesAvoided(f: Format, node: string, fs: Files, action: Action, id: Id, input: Input, file: File)
    requires Manifest(id) in fs && Content(id) in fs && f.decode(fs[Manifest(id)]) == Some(input)
    requires !RemovesIt(node, action, id, input)
    requires file == Content(id) || file == Manifest(id)
    ensures Avoids(StepsOf(f, node, fs, action), file)
  {
    match action
    case Stage(other, name, bytes, n) =>
      StageAvoidsStaged(f, fs, node, other, name, bytes, id, file);
      CutAvoids(StagePlan(f, fs, node, other, name, bytes).steps, n, file);
    case Remove(other, name, n) =>
      RemoveAvoidsOther(f, fs, node, other, name, n, id, input, file);
    case Deliver(ids, ws, preserve, n) =>
      DeliverTouchesIds(f, fs, node, ids, ws, preserve);
      CutAvoids(DeliverPlan(f, fs, node, ids, ws, preserve).steps, n, file);
    case AgentWrites(ws, other, name, bytes) => WriteAvoids(Copy(ws, other, name), bytes, file);
    case AgentDeletes(_, _, _) =>
  }

  lemma CutAvoidsNone(steps: seq<FileStep>, n: nat, file: File)
    requires n == 0 || Avoids(steps, file)
    ensures Avoids(Cut(steps, n), file)
  {}

  lemma StagedStays(f: Format, node: string, w: World, action: Action, id: Id, bytes: Bytes, manifest: Bytes, input: Input)
    requires StagedAs(f, w.files, id, bytes, manifest, input) && !RemovesIt(node, action, id, input)
    ensures StagedAs(f, Act(f, node, w, action).files, id, bytes, manifest, input)
  {
    OtherFilesAvoided(f, node, w.files, action, id, input, Content(id));
    OtherFilesAvoided(f, node, w.files, action, id, input, Manifest(id));
    AvoidedByAct(f, node, w, action, Content(id));
    AvoidedByAct(f, node, w, action, Manifest(id));
  }

  /** After `k` more actions the upload is as it was, and the next one removes it. */
  ghost predicate RemovedAt(f: Format, node: string, actions: seq<Action>, more: seq<Action>, k: int, id: Id,
                            bytes: Bytes, manifest: Bytes, input: Input)
  {
    && 0 <= k < |more| && RemovesIt(node, more[k], id, input)
    && StagedAs(f, Run(f, node, actions + more[..k]).files, id, bytes, manifest, input)
  }

  /** However a run goes on, an upload stays as it is until a call removes it under the name it was staged with. */
  lemma {:induction false} OnlyItsNameRemoves(f: Format, node: string, actions: seq<Action>, more: seq<Action>, id: Id,
                                              bytes: Bytes, manifest: Bytes, input: Input)
    requires StagedAs(f, Run(f, node, actions).files, id, bytes, manifest, input)
    ensures || StagedAs(f, Run(f, node, actions + more).files, id, bytes, manifest, input)
            || exists k :: RemovedAt(f, node, actions, more, k, id, bytes, manifest, input)
  {
    if more == [] {
      assert actions + more == actions;
    } else {
      var n := |more| - 1;
      var before := more[..n];
      OnlyItsNameRemoves(f, node, actions, before, id, bytes, manifest, input);
      RunMore(f, node, actions, more);
      if StagedAs(f, Run(f, node, actions + before).files, id, bytes, manifest, input) {
        if RemovesIt(node, more[n], id, input) {
          assert RemovedAt(f, node, actions, more, n, id, bytes, manifest, input);
        } else {
          StagedStays(f, node, Run(f, node, actions + before), more[n], id, bytes, manifest, input);
        }
      } else {
        var k :| RemovedAt(f, node, actions, before, k, id, bytes, manifest, input);
        assert before[..k] == more[..k] && before[k] == more[k];
        assert RemovedAt(f, node, actions, more, k, id, bytes, manifest, input);
      }
    }
  }
}
