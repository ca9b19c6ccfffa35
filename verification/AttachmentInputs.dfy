/** Attachment inputs: staged immutable uploads, and their delivery into a workspace.

    Every operation is a list of atomic file steps chosen from the files it finds; a crash (or a failing
    file operation) may stop it after any of them. One Run and one node are fixed, so an attachment is
    known by its id, and a workspace by its key. */
module AttachmentInputs {
  import opened Wrappers
  import opened Collections
  import Names
  import Text

  newtype Byte = x: int | 0 <= x < 256

  type Bytes = seq<Byte>

  type Id = string

  type WorkspaceKey = string

  datatype Input = Input(node: string, name: string, hash: Bytes)

  /** JSON and hashing, left uninterpreted. */
  datatype Format = Format(encode: Input -> Bytes, decode: Bytes -> Option<Input>, hash: Bytes -> Bytes)

  /** A manifest reads back as written, no cut-off manifest reads at all, and hashes have one length. */
  ghost predicate Lawful(f: Format) {
    && (forall i :: f.decode(f.encode(i)) == Some(i))
    && (forall i, k {:trigger f.encode(i)[..k]} :: 0 <= k < |f.encode(i)| ==> f.decode(f.encode(i)[..k]) == None)
    && (forall b :: |f.hash(b)| == 40)
  }

  predicate ValidName(name: string) {
    && name != "" && name != "." && name != ".."
    && forall c :: c in name ==> !IsControl(c) && c != '/' && c != '\\' && c != ':'
  }

  predicate IsControl(c: char) {
    c < ' ' || '\U{7F}' <= c <= '\U{9F}'
  }

  datatype File =
    | Content(id: Id)
    | Manifest(id: Id)
    | Receipt(id: Id, workspace: WorkspaceKey)
    | Copy(workspace: WorkspaceKey, id: Id, name: string)

  type Files = map<File, Bytes>

  datatype FileStep = Create(file: File) | Append(file: File, byte: Byte) | Unlink(file: File)

  function Apply(fs: Files, step: FileStep): Files {
    match step
    case Create(file) => fs[file := []]
    case Append(file, byte) => if file in fs then fs[file := fs[file] + [byte]] else fs
    case Unlink(file) => fs - {file}
  }

  function Exec(fs: Files, steps: seq<FileStep>): Files {
    if steps == [] then fs else Apply(Exec(fs, steps[..|steps| - 1]), steps[|steps| - 1])
  }

  datatype Verdict = Done | Refused

  /** What an operation will do to the files, and what it answers if it is not interrupted. */
  datatype Plan = Plan(steps: seq<FileStep>, verdict: Verdict)

  // ----- the operations

  function AppendSteps(file: File, bytes: Bytes): seq<FileStep> {
    if bytes == [] then [] else AppendSteps(file, bytes[..|bytes| - 1]) + [Append(file, bytes[|bytes| - 1])]
  }

  function WriteSteps(file: File, bytes: Bytes): seq<FileStep> {
    [Create(file)] + AppendSteps(file, bytes)
  }

  /** `immutable_file`: a new file, or one that already has exactly this content. */
  function ImmutablePlan(fs: Files, file: File, bytes: Bytes): Plan {
    if file !in fs then Plan(WriteSteps(file, bytes), Done)
    else Plan([], if fs[file] == bytes then Done else Refused)
  }

  /** One operation, then another in the files it leaves. */
  function Then(p: Plan, q: Plan): Plan {
    if p.verdict == Done then Plan(p.steps + q.steps, q.verdict) else p
  }

  /** Content first, manifest last. */
  function StagePlan(f: Format, fs: Files, node: string, id: Id, name: string, bytes: Bytes): Plan {
    if !ValidName(name) then Plan([], Refused)
    else
      Then(ImmutablePlan(fs, Content(id), bytes),
           ImmutablePlan(fs, Manifest(id), f.encode(Input(node, name, f.hash(bytes)))))
  }

  function UnlinkSteps(fs: Files, file: File): seq<FileStep> {
    if file in fs then [Unlink(file)] else []
  }

  predicate Owns(f: Format, fs: Files, node: string, id: Id, name: string) {
    Manifest(id) in fs ==>
      var input := f.decode(fs[Manifest(id)]);
      input.Some? && input.value.node == node && input.value.name == name
  }

  /** Manifest first, content last. */
  function RemovePlan(f: Format, fs: Files, node: string, id: Id, name: string): Plan {
    if !Owns(f, fs, node, id, name) then Plan([], Refused)
    else Plan(UnlinkSteps(fs, Manifest(id)) + UnlinkSteps(fs, Content(id)), Done)
  }

  /** The staged input an id stands for, when it is intact and owned by the node. */
  function Intact(f: Format, fs: Files, node: string, id: Id): Option<Input> {
    if Manifest(id) !in fs || Content(id) !in fs then None
    else
      match f.decode(fs[Manifest(id)])
      case None => None
      case Some(input) =>
        if input.node == node && ValidName(input.name) && f.hash(fs[Content(id)]) == input.hash then Some(input) else None
  }

  /** Delivery of one id: copy first, receipt last; a stale receipt goes before the copy is replaced. */
  function DeliverOnePlan(f: Format, fs: Files, node: string, id: Id, ws: WorkspaceKey, preserve: bool): Plan {
    if Manifest(id) !in fs then Plan([], Done)
    else
      match Intact(f, fs, node, id)
      case None => Plan([], Refused)
      case Some(input) =>
        var receipt, copy := Receipt(id, ws), Copy(ws, id, input.name);
        if receipt in fs && fs[receipt] != input.hash then Plan([], Refused)
        else if copy in fs then
          if receipt !in fs && f.hash(fs[copy]) != input.hash then Plan([], Refused)
          else ImmutablePlan(fs, receipt, input.hash)
        else if preserve && receipt in fs then Plan([], Done)
        else
          Plan(UnlinkSteps(fs, receipt) + WriteSteps(copy, fs[Content(id)]) + WriteSteps(receipt, input.hash), Done)
  }

  function DeliverPlan(f: Format, fs: Files, node: string, ids: seq<Id>, ws: WorkspaceKey, preserve: bool): Plan
    decreases |ids|
  {
    if ids == [] then Plan([], Done)
    else
      var one := DeliverOnePlan(f, fs, node, ids[0], ws, preserve);
      Then(one, DeliverPlan(f, Exec(fs, one.steps), node, ids[1..], ws, preserve))
  }

  // ----- executing steps

  lemma {:induction false} ExecConcat(fs: Files, a: seq<FileStep>, b: seq<FileStep>)
    ensures Exec(fs, a + b) == Exec(Exec(fs, a), b)
  {
    if b == [] {
      assert a + b == a;
    } else {
      var init := b[..|b| - 1];
      assert (a + b)[..|a + b| - 1] == a + init;
      ExecConcat(fs, a, init);
    }
  }

  ghost predicate TouchesOnly(steps: seq<FileStep>, touched: set<File>) {
    forall i :: 0 <= i < |steps| ==> steps[i].file in touched
  }

  /** Files no step names are as they were. */
  lemma {:induction false} ExecFrame(fs: Files, steps: seq<FileStep>, touched: set<File>)
    requires TouchesOnly(steps, touched)
    ensures forall x :: x !in touched ==> (x in Exec(fs, steps) <==> x in fs)
    ensures forall x :: x !in touched && x in fs ==> Exec(fs, steps)[x] == fs[x]
  {
    if steps != [] {
      ExecFrame(fs, steps[..|steps| - 1], touched);
    }
  }

  lemma {:induction false} AppendTouches(file: File, bytes: Bytes)
    ensures TouchesOnly(AppendSteps(file, bytes), {file})
    ensures |AppendSteps(file, bytes)| == |bytes|
    ensures forall i :: 0 <= i < |bytes| ==> AppendSteps(file, bytes)[i] == Append(file, bytes[i])
  {
    if bytes != [] {
      AppendTouches(file, bytes[..|bytes| - 1]);
    }
  }

  lemma WriteTouches(file: File, bytes: Bytes)
    ensures TouchesOnly(WriteSteps(file, bytes), {file})
    ensures |WriteSteps(file, bytes)| == |bytes| + 1
  {
    AppendTouches(file, bytes);
  }

  /** A write that is cut off leaves a prefix, or no file yet. */
  lemma {:induction false} WriteCut(fs: Files, file: File, bytes: Bytes, n: nat)
    requires n <= |WriteSteps(file, bytes)|
    ensures n <= |bytes| + 1
    ensures Exec(fs, WriteSteps(file, bytes)[..n]) == if n == 0 then fs else fs[file := bytes[..n - 1]]
  {
    var steps := WriteSteps(file, bytes);
    WriteTouches(file, bytes);
    AppendTouches(file, bytes);
    if n == 1 {
      assert steps[..1] == [Create(file)] && steps[..1][..0] == [];
    } else if n > 1 {
      WriteCut(fs, file, bytes, n - 1);
      assert steps[..n][..n - 1] == steps[..n - 1];
      assert steps[n - 1] == Append(file, bytes[n - 2]);
      assert bytes[..n - 1] == bytes[..n - 2] + [bytes[n - 2]];
    }
  }

  lemma WriteAll(fs: Files, file: File, bytes: Bytes)
    ensures Exec(fs, WriteSteps(file, bytes)) == fs[file := bytes]
  {
    var steps := WriteSteps(file, bytes);
    WriteTouches(file, bytes);
    WriteCut(fs, file, bytes, |steps|);
    assert steps[..|steps|] == steps && bytes[..|bytes|] == bytes;
  }

  // ----- runs: what has been uploaded, and what every workspace has held

  datatype Upload = Upload(id: Id, name: string, bytes: Bytes)

  /** A complete copy, under its name. */
  datatype Delivery = Delivery(workspace: WorkspaceKey, id: Id, name: string, hash: Bytes)

  /** The files, every upload called for so far, and every version of a copy that ever existed
      between two steps. The last two only record history. */
  datatype World = World(files: Files, uploads: set<Upload>, seen: set<Delivery>)

  ghost function Present(f: Format, fs: Files): set<Delivery> {
    set x | x in fs && x.Copy? :: Delivery(x.workspace, x.id, x.name, f.hash(fs[x]))
  }

  ghost function ApplyWorld(f: Format, w: World, step: FileStep): World {
    var files := Apply(w.files, step);
    World(files, w.uploads, w.seen + Present(f, files))
  }

  ghost function ExecWorld(f: Format, w: World, steps: seq<FileStep>): World {
    if steps == [] then w else ApplyWorld(f, ExecWorld(f, w, steps[..|steps| - 1]), steps[|steps| - 1])
  }

  lemma {:induction false} ExecWorldIs(f: Format, w: World, steps: seq<FileStep>)
    ensures ExecWorld(f, w, steps).files == Exec(w.files, steps)
    ensures ExecWorld(f, w, steps).uploads == w.uploads
    ensures w.seen <= ExecWorld(f, w, steps).seen
  {
    if steps != [] {
      ExecWorldIs(f, w, steps[..|steps| - 1]);
    }
  }

  /** The bytes begin the manifest of an upload under this name, of exactly the content that is there. */
  ghost predicate Describes(f: Format, node: string, w: World, id: Id, name: string, manifest: Bytes)
    requires Content(id) in w.files
  {
    && Upload(id, name, w.files[Content(id)]) in w.uploads
    && manifest <= f.encode(Input(node, name, f.hash(w.files[Content(id)])))
  }

  /** Every manifest, also a cut-off one, belongs to an upload whose content is there in full. */
  ghost predicate ManifestBacked(f: Format, node: string, w: World, id: Id) {
    Manifest(id) in w.files ==>
      && Content(id) in w.files
      && exists name :: Describes(f, node, w, id, name, w.files[Manifest(id)])
  }

  /** Some upload of `id` under this name had content with hash `h`. */
  ghost predicate Uploaded(f: Format, w: World, id: Id, name: string, h: Bytes) {
    exists bytes :: Upload(id, name, bytes) in w.uploads && f.hash(bytes) == h
  }

  /** A receipt for `h` may be written: a copy of such an upload was complete under its name. */
  ghost predicate Backs(f: Format, w: World, id: Id, ws: WorkspaceKey, name: string, h: Bytes) {
    Delivery(ws, id, name, h) in w.seen && Uploaded(f, w, id, name, h) && |h| == 40
  }

  /** Every receipt, also a cut-off one, is for a copy that was complete at some time, under some uploaded name. */
  ghost predicate ReceiptBacked(f: Format, w: World, id: Id, ws: WorkspaceKey) {
    Receipt(id, ws) in w.files ==>
      exists name, h :: Backs(f, w, id, ws, name, h) && w.files[Receipt(id, ws)] <= h
  }

  ghost predicate Inv(f: Format, node: string, w: World) {
    && (forall id :: ManifestBacked(f, node, w, id))
    && (forall id, ws :: ReceiptBacked(f, w, id, ws))
    && Present(f, w.files) <= w.seen
  }

  /** When a single file step keeps the invariant. Copies may change in any way: agents do. */
  ghost predicate Safe(f: Format, node: string, w: World, step: FileStep) {
    match step
    case Create(Content(id)) => Manifest(id) !in w.files
    case Append(Content(id), _) => Manifest(id) !in w.files
    case Unlink(Content(id)) => Manifest(id) !in w.files
    case Create(Manifest(id)) =>
      && Content(id) in w.files
      && exists name :: Describes(f, node, w, id, name, [])
    case Append(Manifest(id), b) =>
      && Content(id) in w.files && Manifest(id) in w.files
      && exists name :: Describes(f, node, w, id, name, w.files[Manifest(id)] + [b])
    case Create(Receipt(id, ws)) => exists name, h :: Backs(f, w, id, ws, name, h)
    case Append(Receipt(id, ws), b) =>
      && Receipt(id, ws) in w.files
      && exists name, h :: Backs(f, w, id, ws, name, h) && w.files[Receipt(id, ws)] + [b] <= h
    case _ => true
  }

  lemma SafeKeepsManifests(f: Format, node: string, w: World, step: FileStep, id: Id)
    requires ManifestBacked(f, node, w, id) && Safe(f, node, w, step)
    ensures ManifestBacked(f, node, ApplyWorld(f, w, step), id)
  {
    var w' := ApplyWorld(f, w, step);
    if Manifest(id) in w'.files {
      assert w'.files[Content(id)] == w.files[Content(id)];
      if step == Create(Manifest(id)) {
        var name :| Describes(f, node, w, id, name, []);
        assert Describes(f, node, w', id, name, w'.files[Manifest(id)]);
      } else if step.Append? && step.file == Manifest(id) {
        var name :| Describes(f, node, w, id, name, w.files[Manifest(id)] + [step.byte]);
        assert Describes(f, node, w', id, name, w'.files[Manifest(id)]);
      } else {
        var name :| Describes(f, node, w, id, name, w.files[Manifest(id)]);
        assert Describes(f, node, w', id, name, w'.files[Manifest(id)]);
      }
    }
  }

  lemma BacksKept(f: Format, w: World, w': World, id: Id, ws: WorkspaceKey, name: string, h: Bytes)
    requires Backs(f, w, id, ws, name, h) && w.uploads <= w'.uploads && w.seen <= w'.seen
    ensures Backs(f, w', id, ws, name, h)
  {
    var bytes :| Upload(id, name, bytes) in w.uploads && f.hash(bytes) == h;
    assert Upload(id, name, bytes) in w'.uploads;
  }

  lemma SafeKeepsReceipts(f: Format, node: string, w: World, step: FileStep, id: Id, ws: WorkspaceKey)
    requires ReceiptBacked(f, w, id, ws) && Safe(f, node, w, step)
    ensures ReceiptBacked(f, ApplyWorld(f, w, step), id, ws)
  {
    var w' := ApplyWorld(f, w, step);
    if Receipt(id, ws) in w'.files {
      var now := w'.files[Receipt(id, ws)];
      var name, h: Bytes :| Backs(f, w, id, ws, name, h) && now <= h;
      BacksKept(f, w, w', id, ws, name, h);
    }
  }

  lemma SafeKeepsInv(f: Format, node: string, w: World, step: FileStep)
    requires Inv(f, node, w) && Safe(f, node, w, step)
    ensures Inv(f, node, ApplyWorld(f, w, step))
  {
    forall id
      ensures ManifestBacked(f, node, ApplyWorld(f, w, step), id)
    {
      SafeKeepsManifests(f, node, w, step, id);
    }
    forall id, ws
      ensures ReceiptBacked(f, ApplyWorld(f, w, step), id, ws)
    {
      SafeKeepsReceipts(f, node, w, step, id, ws);
    }
  }

  ghost predicate SafeAt(f: Format, node: string, w: World, steps: seq<FileStep>, i: int)
    requires 0 <= i < |steps|
  {
    Safe(f, node, ExecWorld(f, w, steps[..i]), steps[i])
  }

  /** Each step is safe in the world the steps before it leave. */
  ghost predicate SafeAlong(f: Format, node: string, w: World, steps: seq<FileStep>) {
    forall i {:trigger SafeAt(f, node, w, steps, i)} :: 0 <= i < |steps| ==> SafeAt(f, node, w, steps, i)
  }

  /** A safe operation may be cut off anywhere. */
  lemma {:induction false} SafeAlongKeepsInv(f: Format, node: string, w: World, steps: seq<FileStep>, n: nat)
    requires Inv(f, node, w) && SafeAlong(f, node, w, steps) && n <= |steps|
    ensures Inv(f, node, ExecWorld(f, w, steps[..n]))
  {
    if n > 0 {
      SafeAlongKeepsInv(f, node, w, steps, n - 1);
      assert SafeAt(f, node, w, steps, n - 1);
      assert steps[..n][..n - 1] == steps[..n - 1] && steps[..n][n - 1] == steps[n - 1];
      SafeKeepsInv(f, node, ExecWorld(f, w, steps[..n - 1]), steps[n - 1]);
    }
  }

  lemma {:induction false} ExecWorldConcat(f: Format, w: World, a: seq<FileStep>, b: seq<FileStep>)
    ensures ExecWorld(f, w, a + b) == ExecWorld(f, ExecWorld(f, w, a), b)
  {
    if b == [] {
      assert a + b == a;
    } else {
      var init := b[..|b| - 1];
      assert (a + b)[..|a + b| - 1] == a + init;
      ExecWorldConcat(f, w, a, init);
    }
  }

  lemma SafeAlongConcat(f: Format, node: string, w: World, a: seq<FileStep>, b: seq<FileStep>)
    requires SafeAlong(f, node, w, a) && SafeAlong(f, node, ExecWorld(f, w, a), b)
    ensures SafeAlong(f, node, w, a + b)
  {
    var all := a + b;
    forall i {:trigger SafeAt(f, node, w, all, i)} | 0 <= i < |all|
      ensures SafeAt(f, node, w, all, i)
    {
      if i < |a| {
        assert SafeAt(f, node, w, a, i);
        assert all[..i] == a[..i] && all[i] == a[i];
      } else {
        var j := i - |a|;
        assert SafeAt(f, node, ExecWorld(f, w, a), b, j);
        assert all[..i] == a + b[..j] && all[i] == b[j];
        ExecWorldConcat(f, w, a, b[..j]);
      }
    }
  }

  // ----- the operations are safe

  /** What holds before each step of a write: nothing, or the file with the bytes so far. */
  lemma DuringWrite(f: Format, w: World, file: File, bytes: Bytes, i: nat)
    requires i < |WriteSteps(file, bytes)|
    ensures i <= |bytes|
    ensures var before := ExecWorld(f, w, WriteSteps(file, bytes)[..i]);
      && before.uploads == w.uploads && w.seen <= before.seen
      && before.files == (if i == 0 then w.files else w.files[file := bytes[..i - 1]])
    ensures WriteSteps(file, bytes)[i] == if i == 0 then Create(file) else Append(file, bytes[i - 1])
    ensures i > 0 ==> bytes[..i - 1] + [bytes[i - 1]] == bytes[..i]
  {
    WriteTouches(file, bytes);
    AppendTouches(file, bytes);
    WriteCut(w.files, file, bytes, i);
    ExecWorldIs(f, w, WriteSteps(file, bytes)[..i]);
  }

  lemma WriteContentSafe(f: Format, node: string, w: World, id: Id, bytes: Bytes)
    requires Manifest(id) !in w.files
    ensures SafeAlong(f, node, w, WriteSteps(Content(id), bytes))
  {
    var steps := WriteSteps(Content(id), bytes);
    forall i {:trigger SafeAt(f, node, w, steps, i)} | 0 <= i < |steps|
      ensures SafeAt(f, node, w, steps, i)
    {
      DuringWrite(f, w, Content(id), bytes, i);
    }
  }

  lemma WriteManifestSafe(f: Format, node: string, w: World, id: Id, name: string)
    requires Content(id) in w.files && Upload(id, name, w.files[Content(id)]) in w.uploads
    ensures SafeAlong(f, node, w, WriteSteps(Manifest(id), f.encode(Input(node, name, f.hash(w.files[Content(id)])))))
  {
    var manifest := f.encode(Input(node, name, f.hash(w.files[Content(id)])));
    var steps := WriteSteps(Manifest(id), manifest);
    forall i {:trigger SafeAt(f, node, w, steps, i)} | 0 <= i < |steps|
      ensures SafeAt(f, node, w, steps, i)
    {
      DuringWrite(f, w, Manifest(id), manifest, i);
      assert Describes(f, node, ExecWorld(f, w, steps[..i]), id, name, manifest[..i]);
    }
  }

  lemma WriteCopySafe(f: Format, node: string, w: World, ws: WorkspaceKey, id: Id, name: string, bytes: Bytes)
    ensures SafeAlong(f, node, w, WriteSteps(Copy(ws, id, name), bytes))
  {
    var steps := WriteSteps(Copy(ws, id, name), bytes);
    forall i {:trigger SafeAt(f, node, w, steps, i)} | 0 <= i < |steps|
      ensures SafeAt(f, node, w, steps, i)
    {
      DuringWrite(f, w, Copy(ws, id, name), bytes, i);
    }
  }

  lemma WriteReceiptSafe(f: Format, node: string, w: World, id: Id, ws: WorkspaceKey, name: string, h: Bytes)
    requires Backs(f, w, id, ws, name, h)
    ensures SafeAlong(f, node, w, WriteSteps(Receipt(id, ws), h))
  {
    var steps := WriteSteps(Receipt(id, ws), h);
    forall i {:trigger SafeAt(f, node, w, steps, i)} | 0 <= i < |steps|
      ensures SafeAt(f, node, w, steps, i)
    {
      DuringWrite(f, w, Receipt(id, ws), h, i);
      BacksKept(f, w, ExecWorld(f, w, steps[..i]), id, ws, name, h);
      assert h[..i] <= h;
    }
  }

  lemma StageSafe(f: Format, node: string, w: World, id: Id, name: string, bytes: Bytes)
    requires Inv(f, node, w) && Upload(id, name, bytes) in w.uploads
    ensures SafeAlong(f, node, w, StagePlan(f, w.files, node, id, name, bytes).steps)
  {
    var content := ImmutablePlan(w.files, Content(id), bytes);
    var manifest := ImmutablePlan(w.files, Manifest(id), f.encode(Input(node, name, f.hash(bytes))));
    if ValidName(name) && content.verdict == Done {
      assert ManifestBacked(f, node, w, id);
      var w' := ExecWorld(f, w, content.steps);
      ExecWorldIs(f, w, content.steps);
      if Content(id) !in w.files {
        WriteContentSafe(f, node, w, id, bytes);
        WriteAll(w.files, Content(id), bytes);
      }
      assert w'.files[Content(id)] == bytes;
      if Manifest(id) !in w.files {
        WriteManifestSafe(f, node, w', id, name);
      }
      SafeAlongConcat(f, node, w, content.steps, manifest.steps);
    }
  }

  lemma UnlinkIs(f: Format, w: World, file: File)
    ensures ExecWorld(f, w, UnlinkSteps(w.files, file)).files == w.files - {file}
  {
    var steps := UnlinkSteps(w.files, file);
    ExecWorldIs(f, w, steps);
    if file in w.files {
      assert steps[..0] == [];
    }
  }

  lemma OneStepSafe(f: Format, node: string, w: World, step: FileStep)
    requires Safe(f, node, w, step)
    ensures SafeAlong(f, node, w, [step])
  {
    assert [step][..0] == [];
  }

  lemma RemoveSafe(f: Format, node: string, w: World, id: Id, name: string)
    ensures SafeAlong(f, node, w, RemovePlan(f, w.files, node, id, name).steps)
  {
    var first, second := UnlinkSteps(w.files, Manifest(id)), UnlinkSteps(w.files, Content(id));
    var w' := ExecWorld(f, w, first);
    UnlinkIs(f, w, Manifest(id));
    if Manifest(id) in w.files {
      OneStepSafe(f, node, w, Unlink(Manifest(id)));
    }
    if Content(id) in w.files {
      OneStepSafe(f, node, w', Unlink(Content(id)));
    }
    SafeAlongConcat(f, node, w, first, second);
  }

  lemma UnlinkReceiptSafe(f: Format, node: string, w: World, id: Id, ws: WorkspaceKey)
    ensures SafeAlong(f, node, w, UnlinkSteps(w.files, Receipt(id, ws)))
  {
    if Receipt(id, ws) in w.files {
      OneStepSafe(f, node, w, Unlink(Receipt(id, ws)));
    }
  }

  /** Once a copy has been written in full, history has its hash. */
  lemma WrittenCopySeen(f: Format, w: World, ws: WorkspaceKey, id: Id, name: string, bytes: Bytes)
    ensures var w' := ExecWorld(f, w, WriteSteps(Copy(ws, id, name), bytes));
      && w'.files == w.files[Copy(ws, id, name) := bytes]
      && w'.uploads == w.uploads && Delivery(ws, id, name, f.hash(bytes)) in w'.seen
  {
    var steps := WriteSteps(Copy(ws, id, name), bytes);
    WriteAll(w.files, Copy(ws, id, name), bytes);
    ExecWorldIs(f, w, steps);
    assert steps != [];
    assert Delivery(ws, id, name, f.hash(bytes)) in Present(f, Exec(w.files, steps));
  }

  /** Replacing a copy: its receipt goes first, and comes back only when the copy is complete. */
  lemma ReplaceSafe(f: Format, node: string, w: World, id: Id, ws: WorkspaceKey, name: string, bytes: Bytes)
    requires |f.hash(bytes)| == 40 && Upload(id, name, bytes) in w.uploads
    ensures var receipt := Receipt(id, ws);
      SafeAlong(f, node, w,
                UnlinkSteps(w.files, receipt) + WriteSteps(Copy(ws, id, name), bytes) + WriteSteps(receipt, f.hash(bytes)))
  {
    var a := UnlinkSteps(w.files, Receipt(id, ws));
    var b := WriteSteps(Copy(ws, id, name), bytes);
    var c := WriteSteps(Receipt(id, ws), f.hash(bytes));
    var w1 := ExecWorld(f, w, a);
    UnlinkReceiptSafe(f, node, w, id, ws);
    WriteCopySafe(f, node, w1, ws, id, name, bytes);
    SafeAlongConcat(f, node, w, a, b);
    WrittenCopySeen(f, w1, ws, id, name, bytes);
    ExecWorldConcat(f, w, a, b);
    ExecWorldIs(f, w, a);
    var w2 := ExecWorld(f, w, a + b);
    assert Upload(id, name, bytes) in w2.uploads;
    WriteReceiptSafe(f, node, w2, id, ws, name, f.hash(bytes));
    SafeAlongConcat(f, node, w, a + b, c);
  }

  /** A manifest that reads at all was written in full. */
  lemma ReadableIsComplete(f: Format, input: Input, manifest: Bytes)
    requires Lawful(f) && manifest <= f.encode(input) && f.decode(manifest).Some?
    ensures f.decode(manifest) == Some(input)
  {
    assert manifest == f.encode(input)[..|manifest|];
    assert |manifest| == |f.encode(input)| ==> manifest == f.encode(input);
  }

  /** An intact staged input is an upload under its name. */
  lemma IntactIsUploaded(f: Format, node: string, w: World, id: Id)
    requires Lawful(f) && Inv(f, node, w) && Intact(f, w.files, node, id).Some?
    ensures Upload(id, Intact(f, w.files, node, id).value.name, w.files[Content(id)]) in w.uploads
  {
    assert ManifestBacked(f, node, w, id);
    var name :| Describes(f, node, w, id, name, w.files[Manifest(id)]);
    ReadableIsComplete(f, Input(node, name, f.hash(w.files[Content(id)])), w.files[Manifest(id)]);
  }

  lemma DeliverOneSafe(f: Format, node: string, w: World, id: Id, ws: WorkspaceKey, preserve: bool)
    requires Lawful(f) && Inv(f, node, w)
    ensures SafeAlong(f, node, w, DeliverOnePlan(f, w.files, node, id, ws, preserve).steps)
  {
    var intact := Intact(f, w.files, node, id);
    if Manifest(id) in w.files && intact.Some? {
      var input := intact.value;
      var receipt, copy := Receipt(id, ws), Copy(ws, id, input.name);
      IntactIsUploaded(f, node, w, id);
      assert input.hash == f.hash(w.files[Content(id)]);
      if copy in w.files {
        if receipt !in w.files && f.hash(w.files[copy]) == input.hash {
          assert Delivery(ws, id, input.name, input.hash) in Present(f, w.files);
          assert Uploaded(f, w, id, input.name, input.hash);
          WriteReceiptSafe(f, node, w, id, ws, input.name, input.hash);
        }
      } else {
        ReplaceSafe(f, node, w, id, ws, input.name, w.files[Content(id)]);
      }
    }
  }

  lemma WholePlanKeepsInv(f: Format, node: string, w: World, steps: seq<FileStep>)
    requires Inv(f, node, w) && SafeAlong(f, node, w, steps)
    ensures Inv(f, node, ExecWorld(f, w, steps))
  {
    SafeAlongKeepsInv(f, node, w, steps, |steps|);
    assert steps[..|steps|] == steps;
  }

  lemma {:induction false} DeliverSafe(f: Format, node: string, w: World, ids: seq<Id>, ws: WorkspaceKey, preserve: bool)
    requires Lawful(f) && Inv(f, node, w)
    ensures SafeAlong(f, node, w, DeliverPlan(f, w.files, node, ids, ws, preserve).steps)
    decreases |ids|
  {
    if ids != [] {
      var one := DeliverOnePlan(f, w.files, node, ids[0], ws, preserve);
      DeliverOneSafe(f, node, w, ids[0], ws, preserve);
      if one.verdict == Done {
        var w' := ExecWorld(f, w, one.steps);
        WholePlanKeepsInv(f, node, w, one.steps);
        ExecWorldIs(f, w, one.steps);
        DeliverSafe(f, node, w', ids[1..], ws, preserve);
        SafeAlongConcat(f, node, w, one.steps, DeliverPlan(f, w'.files, node, ids[1..], ws, preserve).steps);
      }
    }
  }

  // ----- every run

  /** What can happen: calls that may stop after any number of file steps, and agents at work on the
      delivered copies. */
  datatype Action =
    | Stage(id: Id, name: string, bytes: Bytes, steps: nat)
    | Remove(id: Id, name: string, steps: nat)
    | Deliver(ids: seq<Id>, ws: WorkspaceKey, preserve: bool, steps: nat)
    | AgentWrites(ws: WorkspaceKey, id: Id, name: string, bytes: Bytes)
    | AgentDeletes(ws: WorkspaceKey, id: Id, name: string)

  function Cut(steps: seq<FileStep>, n: nat): seq<FileStep> {
    if n <= |steps| then steps[..n] else steps
  }

  ghost function Act(f: Format, node: string, w: World, action: Action): World {
    match action
    case Stage(id, name, bytes, n) =>
      ExecWorld(f, w.(uploads := w.uploads + {Upload(id, name, bytes)}),
                Cut(StagePlan(f, w.files, node, id, name, bytes).steps, n))
    case Remove(id, name, n) => ExecWorld(f, w, Cut(RemovePlan(f, w.files, node, id, name).steps, n))
    case Deliver(ids, ws, preserve, n) =>
      ExecWorld(f, w, Cut(DeliverPlan(f, w.files, node, ids, ws, preserve).steps, n))
    case AgentWrites(ws, id, name, bytes) => ExecWorld(f, w, WriteSteps(Copy(ws, id, name), bytes))
    case AgentDeletes(ws, id, name) => ExecWorld(f, w, [Unlink(Copy(ws, id, name))])
  }

  ghost function Run(f: Format, node: string, actions: seq<Action>): World {
    if actions == [] then World(map[], {}, {})
    else Act(f, node, Run(f, node, actions[..|actions| - 1]), actions[|actions| - 1])
  }

  lemma CutKeepsInv(f: Format, node: string, w: World, steps: seq<FileStep>, n: nat)
    requires Inv(f, node, w) && SafeAlong(f, node, w, steps)
    ensures Inv(f, node, ExecWorld(f, w, Cut(steps, n)))
  {
    SafeAlongKeepsInv(f, node, w, steps, if n <= |steps| then n else |steps|);
    assert steps[..|steps|] == steps;
  }

  lemma UploadKeepsInv(f: Format, node: string, w: World, u: Upload)
    requires Inv(f, node, w)
    ensures Inv(f, node, w.(uploads := w.uploads + {u}))
  {
    var w' := w.(uploads := w.uploads + {u});
    forall id
      ensures ManifestBacked(f, node, w', id)
    {
      assert ManifestBacked(f, node, w, id);
      if Manifest(id) in w.files {
        var name :| Describes(f, node, w, id, name, w.files[Manifest(id)]);
        assert Describes(f, node, w', id, name, w'.files[Manifest(id)]);
      }
    }
    forall id, ws
      ensures ReceiptBacked(f, w', id, ws)
    {
      assert ReceiptBacked(f, w, id, ws);
      if Receipt(id, ws) in w.files {
        var name, h :| Backs(f, w, id, ws, name, h) && w.files[Receipt(id, ws)] <= h;
        BacksKept(f, w, w', id, ws, name, h);
      }
    }
  }

  lemma ActKeepsInv(f: Format, node: string, w: World, action: Action)
    requires Lawful(f) && Inv(f, node, w)
    ensures Inv(f, node, Act(f, node, w, action))
  {
    match action
    case Stage(id, name, bytes, n) =>
      var w' := w.(uploads := w.uploads + {Upload(id, name, bytes)});
      UploadKeepsInv(f, node, w, Upload(id, name, bytes));
      StageSafe(f, node, w', id, name, bytes);
      CutKeepsInv(f, node, w', StagePlan(f, w.files, node, id, name, bytes).steps, n);
    case Remove(id, name, n) =>
      RemoveSafe(f, node, w, id, name);
      CutKeepsInv(f, node, w, RemovePlan(f, w.files, node, id, name).steps, n);
    case Deliver(ids, ws, preserve, n) =>
      DeliverSafe(f, node, w, ids, ws, preserve);
      CutKeepsInv(f, node, w, DeliverPlan(f, w.files, node, ids, ws, preserve).steps, n);
    case AgentWrites(ws, id, name, bytes) =>
      WriteCopySafe(f, node, w, ws, id, name, bytes);
      WholePlanKeepsInv(f, node, w, WriteSteps(Copy(ws, id, name), bytes));
    case AgentDeletes(ws, id, name) =>
      OneStepSafe(f, node, w, Unlink(Copy(ws, id, name)));
      WholePlanKeepsInv(f, node, w, [Unlink(Copy(ws, id, name))]);
  }

  lemma {:induction false} RunKeepsInv(f: Format, node: string, actions: seq<Action>)
    requires Lawful(f)
    ensures Inv(f, node, Run(f, node, actions))
  {
    if actions != [] {
      RunKeepsInv(f, node, actions[..|actions| - 1]);
      ActKeepsInv(f, node, Run(f, node, actions[..|actions| - 1]), actions[|actions| - 1]);
    }
  }

  /** Main result for staging: over all runs, with a crash between any two file steps, a manifest that
      can be read names an upload of this very content, under its name and hash. */
  lemma StagedIsComplete(f: Format, node: string, actions: seq<Action>, id: Id)
    requires Lawful(f)
    ensures var w := Run(f, node, actions);
      Manifest(id) in w.files && f.decode(w.files[Manifest(id)]).Some? ==>
        var input := f.decode(w.files[Manifest(id)]).value;
        && input.node == node
        && Content(id) in w.files && f.hash(w.files[Content(id)]) == input.hash
        && Upload(id, input.name, w.files[Content(id)]) in w.uploads
  {
    RunKeepsInv(f, node, actions);
    var w := Run(f, node, actions);
    assert ManifestBacked(f, node, w, id);
    if Manifest(id) in w.files && f.decode(w.files[Manifest(id)]).Some? {
      var name :| Describes(f, node, w, id, name, w.files[Manifest(id)]);
      ReadableIsComplete(f, Input(node, name, f.hash(w.files[Content(id)])), w.files[Manifest(id)]);
    }
  }

  /** Over all runs, a whole receipt proves that its workspace once held a complete copy with that hash, under a name
      such content was uploaded with. It need not be the name the manifest gives now. */
  lemma ReceiptProvesDelivery(f: Format, node: string, actions: seq<Action>, id: Id, ws: WorkspaceKey)
    requires Lawful(f)
    ensures var w := Run(f, node, actions);
      Receipt(id, ws) in w.files && |w.files[Receipt(id, ws)]| == 40 ==>
        exists name :: Backs(f, w, id, ws, name, w.files[Receipt(id, ws)])
  {
    RunKeepsInv(f, node, actions);
    var w := Run(f, node, actions);
    assert ReceiptBacked(f, w, id, ws);
    if Receipt(id, ws) in w.files && |w.files[Receipt(id, ws)]| == 40 {
      var name, h :| Backs(f, w, id, ws, name, h) && w.files[Receipt(id, ws)] <= h;
      assert h == w.files[Receipt(id, ws)];
    }
  }

  /** History is made of versions that did exist between two steps. */
  lemma {:induction false} SeenExisted(f: Format, w: World, steps: seq<FileStep>, d: Delivery)
    requires d in ExecWorld(f, w, steps).seen
    ensures d in w.seen || exists n :: 0 <= n <= |steps| && d in Present(f, Exec(w.files, steps[..n]))
  {
    if steps != [] {
      var init := steps[..|steps| - 1];
      ExecWorldIs(f, w, init);
      if d in ExecWorld(f, w, init).seen {
        SeenExisted(f, w, init, d);
        if d !in w.seen {
          var n :| 0 <= n <= |init| && d in Present(f, Exec(w.files, init[..n]));
          assert init[..n] == steps[..n];
        }
      } else {
        assert steps[..|steps|] == steps;
      }
    }
  }

  // ----- what delivery achieves

  /** What one id needs for its delivery to succeed. A copy that is there needs a receipt or the right
      content: a truncated copy has neither. */
  ghost predicate Deliverable(f: Format, fs: Files, node: string, id: Id, ws: WorkspaceKey) {
    Manifest(id) in fs ==>
      var intact := Intact(f, fs, node, id);
      && intact.Some?
      && (Receipt(id, ws) in fs ==> fs[Receipt(id, ws)] == intact.value.hash)
      && (Copy(ws, id, intact.value.name) in fs && Receipt(id, ws) !in fs ==>
           f.hash(fs[Copy(ws, id, intact.value.name)]) == intact.value.hash)
  }

  /** The files after one id has been delivered. */
  ghost function DeliveredFiles(fs: Files, input: Input, id: Id, ws: WorkspaceKey, preserve: bool): Files
    requires Content(id) in fs
  {
    var receipt, copy := Receipt(id, ws), Copy(ws, id, input.name);
    if copy in fs || (preserve && receipt in fs) then fs[receipt := input.hash]
    else fs[copy := fs[Content(id)]][receipt := input.hash]
  }

  lemma DeliverOneDoneIff(f: Format, fs: Files, node: string, id: Id, ws: WorkspaceKey, preserve: bool)
    ensures DeliverOnePlan(f, fs, node, id, ws, preserve).verdict == Done <==> Deliverable(f, fs, node, id, ws)
  {
  }

  lemma ReplaceEffect(fs: Files, id: Id, ws: WorkspaceKey, name: string, bytes: Bytes, h: Bytes)
    ensures var receipt, copy := Receipt(id, ws), Copy(ws, id, name);
      Exec(fs, UnlinkSteps(fs, receipt) + WriteSteps(copy, bytes) + WriteSteps(receipt, h)) ==
        fs[copy := bytes][receipt := h]
  {
    var receipt, copy := Receipt(id, ws), Copy(ws, id, name);
    var a, b, c := UnlinkSteps(fs, receipt), WriteSteps(copy, bytes), WriteSteps(receipt, h);
    assert Exec(fs, a) == fs - {receipt} by {
      if receipt in fs {
        assert a[..0] == [];
      }
    }
    ExecConcat(fs, a + b, c);
    ExecConcat(fs, a, b);
    WriteAll(fs - {receipt}, copy, bytes);
    WriteAll((fs - {receipt})[copy := bytes], receipt, h);
  }

  lemma DeliverOneEffect(f: Format, fs: Files, node: string, id: Id, ws: WorkspaceKey, preserve: bool)
    requires Manifest(id) in fs && Deliverable(f, fs, node, id, ws)
    ensures Exec(fs, DeliverOnePlan(f, fs, node, id, ws, preserve).steps) ==
      DeliveredFiles(fs, Intact(f, fs, node, id).value, id, ws, preserve)
  {
    var input := Intact(f, fs, node, id).value;
    var receipt, copy := Receipt(id, ws), Copy(ws, id, input.name);
    if copy in fs {
      if receipt in fs {
        assert fs[receipt := input.hash] == fs;
      } else {
        WriteAll(fs, receipt, input.hash);
      }
    } else if preserve && receipt in fs {
      assert fs[receipt := input.hash] == fs;
    } else {
      ReplaceEffect(fs, id, ws, input.name, fs[Content(id)], input.hash);
    }
  }

  /** The files that matter for one id in one workspace. */
  ghost predicate SameFor(fs: Files, fs': Files, id: Id, ws: WorkspaceKey) {
    forall x :: x == Manifest(id) || x == Content(id) || x == Receipt(id, ws) || (x.Copy? && x.workspace == ws && x.id == id) ==>
      (x in fs <==> x in fs') && (x in fs ==> fs[x] == fs'[x])
  }

  /** Delivering one id leaves alone what matters for another. */
  lemma DeliverOneFrame(f: Format, fs: Files, node: string, id: Id, ws: WorkspaceKey, preserve: bool, other: Id)
    requires other != id && Deliverable(f, fs, node, id, ws)
    ensures SameFor(fs, Exec(fs, DeliverOnePlan(f, fs, node, id, ws, preserve).steps), other, ws)
  {
    if Manifest(id) in fs {
      DeliverOneEffect(f, fs, node, id, ws, preserve);
    }
  }

  lemma SameForDeliverable(f: Format, fs: Files, fs': Files, node: string, id: Id, ws: WorkspaceKey)
    requires SameFor(fs, fs', id, ws)
    ensures Intact(f, fs, node, id) == Intact(f, fs', node, id)
    ensures Deliverable(f, fs, node, id, ws) <==> Deliverable(f, fs', node, id, ws)
  {
    if Intact(f, fs, node, id).Some? {
      var copy := Copy(ws, id, Intact(f, fs, node, id).value.name);
      assert copy in fs <==> copy in fs';
    }
  }

  /** Main result for delivery, success: it is done exactly when every id is deliverable as found. In
      particular a truncated copy without a receipt always refuses it. */
  lemma {:induction false} DeliverDoneIff(f: Format, fs: Files, node: string, ids: seq<Id>, ws: WorkspaceKey, preserve: bool)
    requires Distinct(ids)
    ensures DeliverPlan(f, fs, node, ids, ws, preserve).verdict == Done <==>
      forall id :: id in ids ==> Deliverable(f, fs, node, id, ws)
    decreases |ids|
  {
    if ids != [] {
      var id, rest := ids[0], ids[1..];
      assert ids == [id] + rest;
      DeliverOneDoneIff(f, fs, node, id, ws, preserve);
      if Deliverable(f, fs, node, id, ws) {
        var fs' := Exec(fs, DeliverOnePlan(f, fs, node, id, ws, preserve).steps);
        DeliverDoneIff(f, fs', node, rest, ws, preserve);
        forall other | other in rest
          ensures Deliverable(f, fs, node, other, ws) <==> Deliverable(f, fs', node, other, ws)
        {
          DeliverOneFrame(f, fs, node, id, ws, preserve, other);
          SameForDeliverable(f, fs, fs', node, other, ws);
        }
      }
    }
  }

  /** What a finished delivery means for one staged id: a receipt, and a copy that is complete or was
      found with a receipt; a deleted copy stays away exactly when partial work is preserved. */
  ghost predicate Delivered(f: Format, fs: Files, fs': Files, node: string, id: Id, ws: WorkspaceKey, preserve: bool) {
    Manifest(id) in fs ==>
      var intact := Intact(f, fs, node, id);
      && intact.Some?
      && var receipt, copy := Receipt(id, ws), Copy(ws, id, intact.value.name);
         && receipt in fs' && fs'[receipt] == intact.value.hash
         && (copy in fs ==> copy in fs' && fs'[copy] == fs[copy] && (receipt in fs || f.hash(fs[copy]) == intact.value.hash))
         && (copy !in fs && preserve && receipt in fs ==> copy !in fs')
         && (copy !in fs && !(preserve && receipt in fs) ==> copy in fs' && fs'[copy] == fs[Content(id)])
  }

  lemma DeliveredByOne(f: Format, fs: Files, node: string, id: Id, ws: WorkspaceKey, preserve: bool)
    requires Deliverable(f, fs, node, id, ws)
    ensures Delivered(f, fs, Exec(fs, DeliverOnePlan(f, fs, node, id, ws, preserve).steps), node, id, ws, preserve)
  {
    if Manifest(id) in fs {
      DeliverOneEffect(f, fs, node, id, ws, preserve);
    }
  }

  /** What the remaining deliveries leave alone. */
  lemma {:induction false} DeliverFrame(f: Format, fs: Files, node: string, ids: seq<Id>, ws: WorkspaceKey, preserve: bool, other: Id)
    requires Distinct(ids) && other !in ids
    requires forall id :: id in ids ==> Deliverable(f, fs, node, id, ws)
    ensures SameFor(fs, Exec(fs, DeliverPlan(f, fs, node, ids, ws, preserve).steps), other, ws)
    decreases |ids|
  {
    if ids != [] {
      var id, rest := ids[0], ids[1..];
      assert ids == [id] + rest;
      var one := DeliverOnePlan(f, fs, node, id, ws, preserve);
      var fs' := Exec(fs, one.steps);
      DeliverOneDoneIff(f, fs, node, id, ws, preserve);
      DeliverOneFrame(f, fs, node, id, ws, preserve, other);
      forall x | x in rest
        ensures Deliverable(f, fs', node, x, ws)
      {
        DeliverOneFrame(f, fs, node, id, ws, preserve, x);
        SameForDeliverable(f, fs, fs', node, x, ws);
      }
      DeliverFrame(f, fs', node, rest, ws, preserve, other);
      ExecConcat(fs, one.steps, DeliverPlan(f, fs', node, rest, ws, preserve).steps);
    }
  }

  lemma DeliveredAfterMore(f: Format, fs: Files, fs': Files, fs'': Files, node: string, id: Id, ws: WorkspaceKey, preserve: bool)
    requires Delivered(f, fs, fs', node, id, ws, preserve) && SameFor(fs', fs'', id, ws)
    ensures Delivered(f, fs, fs'', node, id, ws, preserve)
  {
    if Manifest(id) in fs {
      var copy := Copy(ws, id, Intact(f, fs, node, id).value.name);
      assert copy in fs' <==> copy in fs'';
      assert Receipt(id, ws) in fs' <==> Receipt(id, ws) in fs'';
    }
  }

  lemma DeliveredBefore(f: Format, fs: Files, fs': Files, fs'': Files, node: string, id: Id, ws: WorkspaceKey, preserve: bool)
    requires SameFor(fs, fs', id, ws) && Delivered(f, fs', fs'', node, id, ws, preserve)
    ensures Delivered(f, fs, fs'', node, id, ws, preserve)
  {
    SameForDeliverable(f, fs, fs', node, id, ws);
    if Manifest(id) in fs {
      var copy := Copy(ws, id, Intact(f, fs, node, id).value.name);
      assert copy in fs <==> copy in fs';
      assert Receipt(id, ws) in fs <==> Receipt(id, ws) in fs';
    }
  }

  /** Main result for delivery, effect: every staged id is delivered in the sense above. */
  lemma {:induction false} DeliverEffect(f: Format, fs: Files, node: string, ids: seq<Id>, ws: WorkspaceKey, preserve: bool, id: Id)
    requires Distinct(ids) && id in ids
    requires DeliverPlan(f, fs, node, ids, ws, preserve).verdict == Done
    ensures Delivered(f, fs, Exec(fs, DeliverPlan(f, fs, node, ids, ws, preserve).steps), node, id, ws, preserve)
    decreases |ids|
  {
    DeliverDoneIff(f, fs, node, ids, ws, preserve);
    var head, rest := ids[0], ids[1..];
    assert ids == [head] + rest;
    var one := DeliverOnePlan(f, fs, node, head, ws, preserve);
    var fs' := Exec(fs, one.steps);
    var more := DeliverPlan(f, fs', node, rest, ws, preserve);
    ExecConcat(fs, one.steps, more.steps);
    DeliverDoneIff(f, fs', node, rest, ws, preserve);
    if id == head {
      DeliveredByOne(f, fs, node, id, ws, preserve);
      DeliverFrame(f, fs', node, rest, ws, preserve, id);
      DeliveredAfterMore(f, fs, fs', Exec(fs', more.steps), node, id, ws, preserve);
    } else {
      DeliverEffect(f, fs', node, rest, ws, preserve, id);
      DeliverOneFrame(f, fs, node, head, ws, preserve, id);
      DeliveredBefore(f, fs, fs', Exec(fs', more.steps), node, id, ws, preserve);
    }
  }

  /** Over all runs: when a delivery is done, every staged input it names has a whole receipt, and its copy
      is complete, or an earlier copy in this workspace was, under a name the content was uploaded with. */
  lemma DeliveryOverRuns(f: Format, node: string, actions: seq<Action>, ids: seq<Id>, ws: WorkspaceKey, preserve: bool, id: Id)
    requires Lawful(f) && Distinct(ids) && id in ids
    requires var fs := Run(f, node, actions).files;
      Manifest(id) in fs && DeliverPlan(f, fs, node, ids, ws, preserve).verdict == Done
    ensures var w := Run(f, node, actions);
      var fs' := Exec(w.files, DeliverPlan(f, w.files, node, ids, ws, preserve).steps);
      var intact := Intact(f, w.files, node, id);
      && intact.Some?
      && Upload(id, intact.value.name, w.files[Content(id)]) in w.uploads
      && Receipt(id, ws) in fs' && fs'[Receipt(id, ws)] == intact.value.hash
      && ((Copy(ws, id, intact.value.name) in fs' && f.hash(fs'[Copy(ws, id, intact.value.name)]) == intact.value.hash)
          || exists name :: Backs(f, w, id, ws, name, intact.value.hash))
  {
    DeliverEffect(f, Run(f, node, actions).files, node, ids, ws, preserve, id);
    StagedIsComplete(f, node, actions, id);
    ReceiptProvesDelivery(f, node, actions, id, ws);
    RunKeepsInv(f, node, actions);
    DeliverDoneIff(f, Run(f, node, actions).files, node, ids, ws, preserve);
  }

  /** A copy that is there, has no receipt and does not have the staged content refuses the delivery. */
  lemma TruncatedCopyRefused(f: Format, fs: Files, node: string, ids: seq<Id>, ws: WorkspaceKey, preserve: bool, id: Id, input: Input)
    requires Distinct(ids) && id in ids
    requires Manifest(id) in fs && f.decode(fs[Manifest(id)]) == Some(input)
    requires Copy(ws, id, input.name) in fs && Receipt(id, ws) !in fs
    requires f.hash(fs[Copy(ws, id, input.name)]) != input.hash
    ensures DeliverPlan(f, fs, node, ids, ws, preserve).verdict == Refused
  {
    assert !Deliverable(f, fs, node, id, ws);
    DeliverDoneIff(f, fs, node, ids, ws, preserve);
  }

  // ----- what delivery never does

  ghost predicate KeepsCopies(fs: Files, fs': Files) {
    forall x :: x in fs && x.Copy? ==> x in fs' && fs'[x] == fs[x]
  }

  lemma TouchesAppend(a: seq<FileStep>, b: seq<FileStep>, touched: set<File>)
    requires TouchesOnly(a, touched) && TouchesOnly(b, touched)
    ensures TouchesOnly(a + b, touched)
  {
  }

  lemma DeliverOneTouches(f: Format, fs: Files, node: string, id: Id, ws: WorkspaceKey, preserve: bool)
    returns (touched: set<File>)
    ensures TouchesOnly(DeliverOnePlan(f, fs, node, id, ws, preserve).steps, touched)
    ensures forall x :: x in touched ==> x.Receipt? || (x.Copy? && x !in fs)
  {
    touched := {};
    var intact := Intact(f, fs, node, id);
    if Manifest(id) in fs && intact.Some? {
      var receipt, copy := Receipt(id, ws), Copy(ws, id, intact.value.name);
      touched := if copy in fs then {receipt} else {receipt, copy};
      WriteTouches(receipt, intact.value.hash);
      if copy !in fs {
        WriteTouches(copy, fs[Content(id)]);
        TouchesAppend(UnlinkSteps(fs, receipt), WriteSteps(copy, fs[Content(id)]), touched);
        TouchesAppend(UnlinkSteps(fs, receipt) + WriteSteps(copy, fs[Content(id)]), WriteSteps(receipt, intact.value.hash), touched);
      }
    }
  }

  lemma CutTouches(fs: Files, steps: seq<FileStep>, touched: set<File>, n: nat)
    requires TouchesOnly(steps, touched) && n <= |steps|
    requires forall x :: x in touched && x.Copy? ==> x !in fs
    ensures KeepsCopies(fs, Exec(fs, steps[..n]))
  {
    ExecFrame(fs, steps[..n], touched);
  }

  /** Edits are kept: whatever copies are there, no delivery changes or removes one, wherever it stops. */
  lemma {:induction false} DeliverKeepsCopies(f: Format, fs: Files, node: string, ids: seq<Id>, ws: WorkspaceKey, preserve: bool, n: nat)
    requires n <= |DeliverPlan(f, fs, node, ids, ws, preserve).steps|
    ensures KeepsCopies(fs, Exec(fs, DeliverPlan(f, fs, node, ids, ws, preserve).steps[..n]))
    decreases |ids|
  {
    var all := DeliverPlan(f, fs, node, ids, ws, preserve).steps;
    if ids != [] {
      var one := DeliverOnePlan(f, fs, node, ids[0], ws, preserve);
      var touched := DeliverOneTouches(f, fs, node, ids[0], ws, preserve);
      if n <= |one.steps| {
        CutTouches(fs, one.steps, touched, n);
        assert all[..n] == one.steps[..n];
      } else {
        var fs', m := Exec(fs, one.steps), n - |one.steps|;
        CutTouches(fs, one.steps, touched, |one.steps|);
        assert one.steps[..|one.steps|] == one.steps;
        var rest := DeliverPlan(f, fs', node, ids[1..], ws, preserve).steps;
        DeliverKeepsCopies(f, fs', node, ids[1..], ws, preserve, m);
        assert all[..n] == one.steps + rest[..m];
        ExecConcat(fs, one.steps, rest[..m]);
      }
    }
  }

  // ----- delivering again

  /** Nothing to do: every staged id has its receipt, and its copy unless deletions are preserved. */
  ghost predicate NothingToDo(f: Format, fs: Files, node: string, id: Id, ws: WorkspaceKey, preserve: bool) {
    Manifest(id) in fs ==>
      Intact(f, fs, node, id).Some? && (preserve || Copy(ws, id, Intact(f, fs, node, id).value.name) in fs)
  }

  lemma {:induction false} NoStepsIff(f: Format, fs: Files, node: string, ids: seq<Id>, ws: WorkspaceKey, preserve: bool)
    requires Distinct(ids)
    requires forall id :: id in ids ==> Deliverable(f, fs, node, id, ws)
    requires forall id :: id in ids && Manifest(id) in fs ==> Receipt(id, ws) in fs
    ensures DeliverPlan(f, fs, node, ids, ws, preserve).verdict == Done
    ensures DeliverPlan(f, fs, node, ids, ws, preserve).steps == [] <==>
      forall id :: id in ids ==> NothingToDo(f, fs, node, id, ws, preserve)
    decreases |ids|
  {
    DeliverDoneIff(f, fs, node, ids, ws, preserve);
    if ids != [] {
      var id, rest := ids[0], ids[1..];
      assert ids == [id] + rest;
      var one := DeliverOnePlan(f, fs, node, id, ws, preserve);
      DeliverOneDoneIff(f, fs, node, id, ws, preserve);
      assert one.steps == [] <==> NothingToDo(f, fs, node, id, ws, preserve);
      if one.steps == [] {
        NoStepsIff(f, fs, node, rest, ws, preserve);
      }
    }
  }

  /** After a finished delivery, an immediate second one is done too. It changes no file at all, unless
      the first preserved a deletion and the second does not: then, and only then, it delivers again. */
  lemma SecondDelivery(f: Format, fs: Files, node: string, ids: seq<Id>, ws: WorkspaceKey, first: bool, second: bool)
    requires Distinct(ids) && DeliverPlan(f, fs, node, ids, ws, first).verdict == Done
    ensures var fs' := Exec(fs, DeliverPlan(f, fs, node, ids, ws, first).steps);
      var again := DeliverPlan(f, fs', node, ids, ws, second);
      && again.verdict == Done
      && (again.steps == [] <==>
           second || forall id :: id in ids && Manifest(id) in fs ==>
             Intact(f, fs, node, id).Some? && Copy(ws, id, Intact(f, fs, node, id).value.name) in fs')
      && ((first ==> second) ==> again.steps == [])
  {
    var plan := DeliverPlan(f, fs, node, ids, ws, first);
    var fs' := Exec(fs, plan.steps);
    DeliverDoneIff(f, fs, node, ids, ws, first);
    forall id | id in ids
      ensures Deliverable(f, fs', node, id, ws)
      ensures Manifest(id) in fs' <==> Manifest(id) in fs
      ensures Intact(f, fs', node, id) == Intact(f, fs, node, id)
      ensures Manifest(id) in fs' ==> Receipt(id, ws) in fs'
      ensures Manifest(id) in fs && !first ==> Copy(ws, id, Intact(f, fs, node, id).value.name) in fs'
    {
      StagedFilesKept(f, fs, node, ids, ws, first, id);
      DeliverEffect(f, fs, node, ids, ws, first, id);
    }
    NoStepsIff(f, fs', node, ids, ws, second);
  }

  lemma {:induction false} StagedFilesKept(f: Format, fs: Files, node: string, ids: seq<Id>, ws: WorkspaceKey, preserve: bool, id: Id)
    ensures var fs' := Exec(fs, DeliverPlan(f, fs, node, ids, ws, preserve).steps);
      && (Manifest(id) in fs <==> Manifest(id) in fs') && (Manifest(id) in fs ==> fs[Manifest(id)] == fs'[Manifest(id)])
      && (Content(id) in fs <==> Content(id) in fs') && (Content(id) in fs ==> fs[Content(id)] == fs'[Content(id)])
      && Intact(f, fs', node, id) == Intact(f, fs, node, id)
    decreases |ids|
  {
    if ids != [] {
      var one := DeliverOnePlan(f, fs, node, ids[0], ws, preserve);
      var touched := DeliverOneTouches(f, fs, node, ids[0], ws, preserve);
      ExecFrame(fs, one.steps, touched);
      var fs' := Exec(fs, one.steps);
      StagedFilesKept(f, fs', node, ids[1..], ws, preserve, id);
      ExecConcat(fs, one.steps, DeliverPlan(f, fs', node, ids[1..], ws, preserve).steps);
    }
  }

  // ----- the file the manifest names

  /** Where a delivery writes nothing for an id: its receipt is there, and so is the copy, or a deletion is preserved. */
  ghost predicate Skips(fs: Files, id: Id, ws: WorkspaceKey, name: string, preserve: bool) {
    Receipt(id, ws) in fs && (Copy(ws, id, name) in fs || preserve)
  }

  ghost predicate Avoids(steps: seq<FileStep>, file: File) {
    forall i :: 0 <= i < |steps| ==> steps[i].file != file
  }

  lemma AvoidsConcat(a: seq<FileStep>, b: seq<FileStep>, file: File)
    requires Avoids(a, file) && Avoids(b, file)
    ensures Avoids(a + b, file)
  {}

  lemma {:induction false} AvoidsFrame(fs: Files, steps: seq<FileStep>, file: File)
    requires Avoids(steps, file)
    ensures file in Exec(fs, steps) <==> file in fs
    ensures file in fs ==> Exec(fs, steps)[file] == fs[file]
  {
    if steps != [] {
      AvoidsFrame(fs, steps[..|steps| - 1], file);
    }
  }

  lemma OneAvoids(f: Format, fs: Files, node: string, id: Id, ws: WorkspaceKey, preserve: bool, other: Id, name: string)
    requires Manifest(other) in fs && Intact(f, fs, node, other).Some? && Intact(f, fs, node, other).value.name == name
    requires Skips(fs, other, ws, name, preserve)
    ensures Avoids(DeliverOnePlan(f, fs, node, id, ws, preserve).steps, Copy(ws, other, name))
  {
    if id != other {
      var touched := DeliverOneTouchesOwn(f, fs, node, id, ws, preserve);
      var steps := DeliverOnePlan(f, fs, node, id, ws, preserve).steps;
      forall i | 0 <= i < |steps|
        ensures steps[i].file != Copy(ws, other, name)
      {
        assert steps[i].file in touched;
      }
    }
  }

  lemma DeliverOneTouchesOwn(f: Format, fs: Files, node: string, id: Id, ws: WorkspaceKey, preserve: bool)
    returns (touched: set<File>)
    ensures TouchesOnly(DeliverOnePlan(f, fs, node, id, ws, preserve).steps, touched)
    ensures forall x :: x in touched ==> x == Receipt(id, ws) || (x.Copy? && x.id == id)
  {
    touched := {};
    var intact := Intact(f, fs, node, id);
    if Manifest(id) in fs && intact.Some? {
      var receipt, copy := Receipt(id, ws), Copy(ws, id, intact.value.name);
      touched := {receipt, copy};
      WriteTouches(receipt, intact.value.hash);
      WriteTouches(copy, fs[Content(id)]);
      TouchesAppend(UnlinkSteps(fs, receipt), WriteSteps(copy, fs[Content(id)]), touched);
      TouchesAppend(UnlinkSteps(fs, receipt) + WriteSteps(copy, fs[Content(id)]), WriteSteps(receipt, intact.value.hash), touched);
    }
  }

  /** A delivery that skips an id never touches the file its manifest names. */
  lemma {:induction false} DeliverAvoids(f: Format, fs: Files, node: string, ids: seq<Id>, ws: WorkspaceKey, preserve: bool,
                                         id: Id, name: string)
    requires Distinct(ids) && DeliverPlan(f, fs, node, ids, ws, preserve).verdict == Done
    requires Manifest(id) in fs && Intact(f, fs, node, id).Some? && Intact(f, fs, node, id).value.name == name
    requires Skips(fs, id, ws, name, preserve)
    ensures Avoids(DeliverPlan(f, fs, node, ids, ws, preserve).steps, Copy(ws, id, name))
    decreases |ids|
  {
    if ids != [] {
      var head, rest := ids[0], ids[1..];
      assert ids == [head] + rest;
      var one := DeliverOnePlan(f, fs, node, head, ws, preserve);
      var fs' := Exec(fs, one.steps);
      OneAvoids(f, fs, node, head, ws, preserve, id, name);
      DeliverOneDoneIff(f, fs, node, head, ws, preserve);
      SkipsKept(f, fs, node, head, ws, preserve, id, name);
      DeliverAvoids(f, fs', node, rest, ws, preserve, id, name);
      AvoidsConcat(one.steps, DeliverPlan(f, fs', node, rest, ws, preserve).steps, Copy(ws, id, name));
    }
  }

  lemma SkipsKept(f: Format, fs: Files, node: string, head: Id, ws: WorkspaceKey, preserve: bool, id: Id, name: string)
    requires Deliverable(f, fs, node, head, ws)
    requires Manifest(id) in fs && Intact(f, fs, node, id).Some? && Intact(f, fs, node, id).value.name == name
    requires Skips(fs, id, ws, name, preserve)
    ensures var fs' := Exec(fs, DeliverOnePlan(f, fs, node, head, ws, preserve).steps);
      Manifest(id) in fs' && Intact(f, fs', node, id) == Intact(f, fs, node, id) && Skips(fs', id, ws, name, preserve)
  {
    if head != id {
      var fs' := Exec(fs, DeliverOnePlan(f, fs, node, head, ws, preserve).steps);
      DeliverOneFrame(f, fs, node, head, ws, preserve, id);
      SameForDeliverable(f, fs, fs', node, id, ws);
      assert Manifest(id) in fs <==> Manifest(id) in fs';
      assert Receipt(id, ws) in fs <==> Receipt(id, ws) in fs';
      assert Copy(ws, id, name) in fs <==> Copy(ws, id, name) in fs';
    }
  }

  lemma PresentIff(f: Format, fs: Files, d: Delivery)
    ensures var copy := Copy(d.workspace, d.id, d.name);
      d in Present(f, fs) <==> copy in fs && f.hash(fs[copy]) == d.hash
  {
    var copy := Copy(d.workspace, d.id, d.name);
    if copy in fs && f.hash(fs[copy]) == d.hash {
      assert copy.Copy? && Delivery(copy.workspace, copy.id, copy.name, f.hash(fs[copy])) == d;
    }
  }

  /** Steps that avoid a copy bring no new version of it. */
  lemma AvoidedUnseen(f: Format, w: World, steps: seq<FileStep>, ws: WorkspaceKey, id: Id, name: string, h: Bytes)
    requires Avoids(steps, Copy(ws, id, name)) && Present(f, w.files) <= w.seen
    ensures Delivery(ws, id, name, h) in ExecWorld(f, w, steps).seen <==> Delivery(ws, id, name, h) in w.seen
  {
    var d := Delivery(ws, id, name, h);
    ExecWorldIs(f, w, steps);
    forall n | 0 <= n <= |steps|
      ensures d in Present(f, Exec(w.files, steps[..n])) <==> d in Present(f, w.files)
    {
      AvoidsFrame(w.files, steps[..n], Copy(ws, id, name));
      PresentIff(f, Exec(w.files, steps[..n]), d);
      PresentIff(f, w.files, d);
    }
    if d in ExecWorld(f, w, steps).seen {
      SeenExisted(f, w, steps, d);
    }
  }

  /** Exactly when a delivery that is done has the file the manifest names complete in the workspace, now or earlier:
      always when it has no receipt to go by, or replaces a missing copy; and otherwise only if that name was complete
      there before. A receipt alone does not tell: it may be left from another name. */
  lemma NamedDeliveryIff(f: Format, node: string, actions: seq<Action>, ids: seq<Id>, ws: WorkspaceKey, preserve: bool, id: Id)
    requires Lawful(f) && Distinct(ids) && id in ids
    requires var fs := Run(f, node, actions).files;
      Manifest(id) in fs && DeliverPlan(f, fs, node, ids, ws, preserve).verdict == Done
    ensures var w := Run(f, node, actions);
      var w' := ExecWorld(f, w, DeliverPlan(f, w.files, node, ids, ws, preserve).steps);
      var intact := Intact(f, w.files, node, id);
      && intact.Some?
      && var d := Delivery(ws, id, intact.value.name, intact.value.hash);
         d in w'.seen <==> !Skips(w.files, id, ws, intact.value.name, preserve) || d in w.seen
  {
    var w := Run(f, node, actions);
    var plan := DeliverPlan(f, w.files, node, ids, ws, preserve);
    RunKeepsInv(f, node, actions);
    DeliverDoneIff(f, w.files, node, ids, ws, preserve);
    var input := Intact(f, w.files, node, id).value;
    if Skips(w.files, id, ws, input.name, preserve) {
      DeliverAvoids(f, w.files, node, ids, ws, preserve, id, input.name);
      AvoidedUnseen(f, w, plan.steps, ws, id, input.name, input.hash);
    } else {
      NotSkippedSeen(f, node, w, ids, ws, preserve, id);
    }
  }

  lemma NotSkippedSeen(f: Format, node: string, w: World, ids: seq<Id>, ws: WorkspaceKey, preserve: bool, id: Id)
    requires Lawful(f) && Inv(f, node, w) && Distinct(ids) && id in ids
    requires Manifest(id) in w.files && DeliverPlan(f, w.files, node, ids, ws, preserve).verdict == Done
    requires Intact(f, w.files, node, id).Some? && !Skips(w.files, id, ws, Intact(f, w.files, node, id).value.name, preserve)
    ensures var input := Intact(f, w.files, node, id).value;
      Delivery(ws, id, input.name, input.hash)
      in ExecWorld(f, w, DeliverPlan(f, w.files, node, ids, ws, preserve).steps).seen
  {
    var steps := DeliverPlan(f, w.files, node, ids, ws, preserve).steps;
    var input := Intact(f, w.files, node, id).value;
    var w' := ExecWorld(f, w, steps);
    DeliverSafe(f, node, w, ids, ws, preserve);
    WholePlanKeepsInv(f, node, w, steps);
    ExecWorldIs(f, w, steps);
    DeliverEffect(f, w.files, node, ids, ws, preserve, id);
    var copy := Copy(ws, id, input.name);
    assert copy in w'.files && f.hash(w'.files[copy]) == input.hash;
    assert Delivery(ws, id, input.name, input.hash) in Present(f, w'.files);
  }

  /** An id whose content was only ever uploaded under one name is always delivered under it. */
  lemma OneNameDelivers(f: Format, node: string, actions: seq<Action>, ids: seq<Id>, ws: WorkspaceKey, preserve: bool, id: Id)
    requires Lawful(f) && Distinct(ids) && id in ids
    requires var w := Run(f, node, actions);
      && Manifest(id) in w.files && DeliverPlan(f, w.files, node, ids, ws, preserve).verdict == Done
      && forall u, v :: u in w.uploads && v in w.uploads && u.id == id && v.id == id && f.hash(u.bytes) == f.hash(v.bytes)
           ==> u.name == v.name
    ensures var w := Run(f, node, actions);
      var w' := ExecWorld(f, w, DeliverPlan(f, w.files, node, ids, ws, preserve).steps);
      var intact := Intact(f, w.files, node, id);
      intact.Some? && Delivery(ws, id, intact.value.name, intact.value.hash) in w'.seen
  {
    var w := Run(f, node, actions);
    NamedDeliveryIff(f, node, actions, ids, ws, preserve, id);
    RunKeepsInv(f, node, actions);
    DeliverDoneIff(f, w.files, node, ids, ws, preserve);
    IntactIsUploaded(f, node, w, id);
    var input := Intact(f, w.files, node, id).value;
    if Receipt(id, ws) in w.files {
      ReceiptProvesDelivery(f, node, actions, id, ws);
      var name :| Backs(f, w, id, ws, name, w.files[Receipt(id, ws)]);
      var bytes :| Upload(id, name, bytes) in w.uploads && f.hash(bytes) == input.hash;
      assert Upload(id, name, bytes).name == Upload(id, input.name, w.files[Content(id)]).name;
    }
  }

  /** Staging an id again under another name loses the input: removal leaves the receipt, which the next delivery that
      preserves deletions takes for one of the new name. */
  lemma RenamedInputLost(f: Format, node: string, id: Id, ws: WorkspaceKey, a: string, b: string, bytes: Bytes)
    requires Lawful(f) && ValidName(a) && ValidName(b) && a != b
    ensures exists actions ::
      && var w := Run(f, node, actions);
         var plan := DeliverPlan(f, w.files, node, [id], ws, true);
         && plan == Plan([], Done)
         && Intact(f, w.files, node, id) == Some(Input(node, b, f.hash(bytes)))
         && Delivery(ws, id, b, f.hash(bytes)) !in ExecWorld(f, w, plan.steps).seen
  {
    var actions := RenamedRun(f, node, id, ws, a, b, bytes);
    RenamedSkips(f, node, Run(f, node, actions), id, ws, b, bytes);
  }

  /** Stage, deliver, remove, and stage again under another name. */
  lemma RenamedRun(f: Format, node: string, id: Id, ws: WorkspaceKey, a: string, b: string, bytes: Bytes)
    returns (actions: seq<Action>)
    requires Lawful(f) && ValidName(a) && ValidName(b) && a != b
    ensures var w := Run(f, node, actions);
      && SkippedWhole(f, w.files, node, id, ws, b, bytes)
      && Unseen(f, w, id, ws, b, f.hash(bytes))
  {
    var h := f.hash(bytes);
    var w0 := World(map[], {}, {});
    var s1 := Staged(f, node, w0, id, a, bytes, ws, b, h);
    var w1 := Act(f, node, w0, s1);
    var s2 := DeliveredOnce(f, node, w1, id, ws, a, bytes, b);
    var w2 := Act(f, node, w1, s2);
    var s3 := Removed(f, node, w2, id, a, ws, b, h);
    var w3 := Act(f, node, w2, s3);
    var s4 := Staged(f, node, w3, id, b, bytes, ws, b, h);
    FourActions(f, node, s1, s2, s3, s4);
    actions := [s1, s2, s3, s4];
  }

  /** Staged under `name`, with a receipt but no copy. */
  ghost predicate SkippedWhole(f: Format, fs: Files, node: string, id: Id, ws: WorkspaceKey, name: string, bytes: Bytes) {
    && Copy(ws, id, name) !in fs
    && Content(id) in fs && fs[Content(id)] == bytes
    && Manifest(id) in fs && fs[Manifest(id)] == f.encode(Input(node, name, f.hash(bytes)))
    && Receipt(id, ws) in fs && fs[Receipt(id, ws)] == f.hash(bytes)
  }

  ghost predicate Unseen(f: Format, w: World, id: Id, ws: WorkspaceKey, name: string, h: Bytes) {
    Present(f, w.files) <= w.seen && Delivery(ws, id, name, h) !in w.seen
  }

  lemma Staged(f: Format, node: string, w: World, id: Id, name: string, bytes: Bytes, ws: WorkspaceKey, b: string, h: Bytes)
    returns (action: Action)
    requires ValidName(name) && Content(id) !in w.files && Manifest(id) !in w.files && Unseen(f, w, id, ws, b, h)
    ensures var w' := Act(f, node, w, action);
      && w'.files == w.files[Content(id) := bytes][Manifest(id) := f.encode(Input(node, name, f.hash(bytes)))]
      && Unseen(f, w', id, ws, b, h)
  {
    var steps := StagePlan(f, w.files, node, id, name, bytes).steps;
    action := Action.Stage(id, name, bytes, |steps|);
    StageEffect(f, w.files, node, id, name, bytes);
    WholeAct(f, w.(uploads := w.uploads + {Upload(id, name, bytes)}), steps, ws, id, b, h);
  }

  lemma DeliveredOnce(f: Format, node: string, w: World, id: Id, ws: WorkspaceKey, name: string, bytes: Bytes, b: string)
    returns (action: Action)
    requires Lawful(f) && ValidName(name) && b != name && Unseen(f, w, id, ws, b, f.hash(bytes))
    requires w.files == map[Content(id) := bytes, Manifest(id) := f.encode(Input(node, name, f.hash(bytes)))]
    ensures var w' := Act(f, node, w, action);
      && w'.files == w.files[Copy(ws, id, name) := bytes][Receipt(id, ws) := f.hash(bytes)]
      && Unseen(f, w', id, ws, b, f.hash(bytes))
  {
    var steps := DeliverPlan(f, w.files, node, [id], ws, false).steps;
    action := Action.Deliver([id], ws, false, |steps|);
    DeliverFirst(f, w.files, node, id, ws, name, bytes);
    WholeAct(f, w, steps, ws, id, b, f.hash(bytes));
  }

  lemma Removed(f: Format, node: string, w: World, id: Id, name: string, ws: WorkspaceKey, b: string, h: Bytes)
    returns (action: Action)
    requires Manifest(id) in w.files && Content(id) in w.files && Owns(f, w.files, node, id, name) && Unseen(f, w, id, ws, b, h)
    ensures var w' := Act(f, node, w, action);
      w'.files == w.files - {Manifest(id), Content(id)} && Unseen(f, w', id, ws, b, h)
  {
    var steps := RemovePlan(f, w.files, node, id, name).steps;
    action := Action.Remove(id, name, |steps|);
    RemoveEffect(f, w.files, node, id, name);
    WholeAct(f, w, steps, ws, id, b, h);
  }

  lemma RenamedSkips(f: Format, node: string, w: World, id: Id, ws: WorkspaceKey, name: string, bytes: Bytes)
    requires Lawful(f) && ValidName(name) && SkippedWhole(f, w.files, node, id, ws, name, bytes)
    ensures DeliverPlan(f, w.files, node, [id], ws, true) == Plan([], Done)
    ensures Intact(f, w.files, node, id) == Some(Input(node, name, f.hash(bytes)))
    ensures ExecWorld(f, w, []) == w
  {
    assert DeliverOnePlan(f, w.files, node, id, ws, true) == Plan([], Done);
    assert [id][1..] == [];
  }

  lemma RunOneMore(f: Format, node: string, actions: seq<Action>, a: Action)
    ensures Run(f, node, actions + [a]) == Act(f, node, Run(f, node, actions), a)
  {
    FrontOf(actions, [a]);
  }

  lemma FourActions(f: Format, node: string, a: Action, b: Action, c: Action, d: Action)
    ensures Run(f, node, [a, b, c, d]) ==
            Act(f, node, Act(f, node, Act(f, node, Act(f, node, World(map[], {}, {}), a), b), c), d)
  {
    ThreeActions(f, node, a, b, c);
    RunOneMore(f, node, [a, b, c], d);
    assert [a, b, c] + [d] == [a, b, c, d];
  }

  /** Steps that run to their end and avoid a copy. */
  lemma WholeAct(f: Format, w: World, steps: seq<FileStep>, ws: WorkspaceKey, id: Id, name: string, h: Bytes)
    requires Avoids(steps, Copy(ws, id, name)) && Present(f, w.files) <= w.seen
    ensures Cut(steps, |steps|) == steps
    ensures var w' := ExecWorld(f, w, steps);
      && w'.files == Exec(w.files, steps) && w'.uploads == w.uploads && Present(f, w'.files) <= w'.seen
      && (Delivery(ws, id, name, h) in w'.seen <==> Delivery(ws, id, name, h) in w.seen)
  {
    assert steps[..|steps|] == steps;
    ExecWorldIs(f, w, steps);
    AvoidedUnseen(f, w, steps, ws, id, name, h);
    PresentSeen(f, w, steps);
  }

  lemma {:induction false} PresentSeen(f: Format, w: World, steps: seq<FileStep>)
    requires Present(f, w.files) <= w.seen
    ensures Present(f, ExecWorld(f, w, steps).files) <= ExecWorld(f, w, steps).seen
  {
    if steps != [] {
      PresentSeen(f, w, steps[..|steps| - 1]);
    }
  }

  lemma WriteAvoids(file: File, bytes: Bytes, other: File)
    requires file != other
    ensures Avoids(WriteSteps(file, bytes), other)
  {
    WriteTouches(file, bytes);
  }

  lemma StageEffect(f: Format, fs: Files, node: string, id: Id, name: string, bytes: Bytes)
    requires ValidName(name) && Content(id) !in fs && Manifest(id) !in fs
    ensures var plan := StagePlan(f, fs, node, id, name, bytes);
      && Exec(fs, plan.steps) == fs[Content(id) := bytes][Manifest(id) := f.encode(Input(node, name, f.hash(bytes)))]
      && forall x: File :: x.Copy? ==> Avoids(plan.steps, x)
  {
    var manifest := f.encode(Input(node, name, f.hash(bytes)));
    var a, b := WriteSteps(Content(id), bytes), WriteSteps(Manifest(id), manifest);
    ExecConcat(fs, a, b);
    WriteAll(fs, Content(id), bytes);
    WriteAll(fs[Content(id) := bytes], Manifest(id), manifest);
    forall x: File | x.Copy?
      ensures Avoids(a + b, x)
    {
      WriteAvoids(Content(id), bytes, x);
      WriteAvoids(Manifest(id), manifest, x);
      AvoidsConcat(a, b, x);
    }
  }

  lemma RemoveEffect(f: Format, fs: Files, node: string, id: Id, name: string)
    requires Manifest(id) in fs && Content(id) in fs && Owns(f, fs, node, id, name)
    ensures var plan := RemovePlan(f, fs, node, id, name);
      && Exec(fs, plan.steps) == fs - {Manifest(id), Content(id)}
      && forall x: File :: x.Copy? ==> Avoids(plan.steps, x)
  {
    var a, b := [Unlink(Manifest(id))], [Unlink(Content(id))];
    assert a[..0] == [] && b[..0] == [];
    ExecConcat(fs, a, b);
    assert Exec(fs, a) == fs - {Manifest(id)};
    assert Exec(fs - {Manifest(id)}, b) == fs - {Manifest(id)} - {Content(id)} == fs - {Manifest(id), Content(id)};
    assert RemovePlan(f, fs, node, id, name).steps == a + b;
  }

  /** A first delivery of one freshly staged id. */
  lemma DeliverFirst(f: Format, fs: Files, node: string, id: Id, ws: WorkspaceKey, name: string, bytes: Bytes)
    requires Lawful(f) && ValidName(name)
    requires fs == map[Content(id) := bytes, Manifest(id) := f.encode(Input(node, name, f.hash(bytes)))]
    ensures var plan := DeliverPlan(f, fs, node, [id], ws, false);
      && Exec(fs, plan.steps) == fs[Copy(ws, id, name) := bytes][Receipt(id, ws) := f.hash(bytes)]
      && forall other :: other != name ==> Avoids(plan.steps, Copy(ws, id, other))
  {
    var h := f.hash(bytes);
    var receipt, copy := Receipt(id, ws), Copy(ws, id, name);
    var steps := UnlinkSteps(fs, receipt) + WriteSteps(copy, bytes) + WriteSteps(receipt, h);
    assert Intact(f, fs, node, id) == Some(Input(node, name, h));
    assert DeliverOnePlan(f, fs, node, id, ws, false) == Plan(steps, Done);
    assert [id][1..] == [];
    assert DeliverPlan(f, fs, node, [id], ws, false).steps == steps + [];
    assert steps + [] == steps;
    ReplaceEffect(fs, id, ws, name, bytes, h);
    forall other | other != name
      ensures Avoids(steps, Copy(ws, id, other))
    {
      WriteAvoids(copy, bytes, Copy(ws, id, other));
      WriteAvoids(receipt, h, Copy(ws, id, other));
      AvoidsConcat(UnlinkSteps(fs, receipt), WriteSteps(copy, bytes), Copy(ws, id, other));
      AvoidsConcat(UnlinkSteps(fs, receipt) + WriteSteps(copy, bytes), WriteSteps(receipt, h), Copy(ws, id, other));
    }
  }

  // ----- delivering again after a crash

  /** Every step writes a receipt or a copy of one of the ids. */
  ghost predicate TouchesIds(steps: seq<FileStep>, ids: seq<Id>) {
    forall i :: 0 <= i < |steps| ==> (steps[i].file.Receipt? || steps[i].file.Copy?) && steps[i].file.id in ids
  }

  lemma {:induction false} IdsFrame(fs: Files, steps: seq<FileStep>, ids: seq<Id>, other: Id, ws: WorkspaceKey)
    requires TouchesIds(steps, ids) && other !in ids
    ensures SameFor(fs, Exec(fs, steps), other, ws)
  {
    if steps != [] {
      IdsFrame(fs, steps[..|steps| - 1], ids, other, ws);
    }
  }

  lemma OneTouchesId(f: Format, fs: Files, node: string, id: Id, ws: WorkspaceKey, preserve: bool)
    ensures TouchesIds(DeliverOnePlan(f, fs, node, id, ws, preserve).steps, [id])
  {
    var touched := DeliverOneTouchesOwn(f, fs, node, id, ws, preserve);
    var steps := DeliverOnePlan(f, fs, node, id, ws, preserve).steps;
    forall i | 0 <= i < |steps|
      ensures (steps[i].file.Receipt? || steps[i].file.Copy?) && steps[i].file.id in [id]
    {
      assert steps[i].file in touched;
    }
  }

  lemma {:induction false} DeliverTouchesIds(f: Format, fs: Files, node: string, ids: seq<Id>, ws: WorkspaceKey, preserve: bool)
    ensures TouchesIds(DeliverPlan(f, fs, node, ids, ws, preserve).steps, ids)
    decreases |ids|
  {
    if ids != [] {
      var one := DeliverOnePlan(f, fs, node, ids[0], ws, preserve);
      OneTouchesId(f, fs, node, ids[0], ws, preserve);
      DeliverTouchesIds(f, Exec(fs, one.steps), node, ids[1..], ws, preserve);
      assert forall x :: x in [ids[0]] || x in ids[1..] ==> x in ids;
    }
  }

  /** After `n` steps of writing `bytes`: none yet, all of them, or what is there counts as whole all the same. */
  ghost predicate WholeCut(f: Format, bytes: Bytes, n: nat, h: Bytes) {
    n == 0 || n > |bytes| || f.hash(bytes[..n - 1]) == h
  }

  /** The cut positions in the delivery of one id from which it can be delivered again: not inside the receipt, and
      not inside the copy unless what was written has the hash of the whole. */
  ghost predicate Resumable(f: Format, fs: Files, node: string, id: Id, ws: WorkspaceKey, preserve: bool, n: nat)
    requires Manifest(id) in fs ==> Intact(f, fs, node, id).Some?
  {
    Manifest(id) in fs ==>
      var input := Intact(f, fs, node, id).value;
      var bytes, h := fs[Content(id)], input.hash;
      var unlinked := |UnlinkSteps(fs, Receipt(id, ws))|;
      if Copy(ws, id, input.name) in fs then Receipt(id, ws) in fs || n == 0 || n > |h|
      else if preserve && Receipt(id, ws) in fs then true
      else if n <= unlinked then true
      else if n <= unlinked + |bytes| + 1 then WholeCut(f, bytes, n - unlinked, h)
      else n - unlinked - |bytes| - 1 > |h|
  }

  lemma UnlinkCut(fs: Files, file: File, n: nat)
    requires n <= |UnlinkSteps(fs, file)|
    ensures Exec(fs, UnlinkSteps(fs, file)[..n]) == if n < |UnlinkSteps(fs, file)| then fs else fs - {file}
  {
    TakeAll(UnlinkSteps(fs, file));
    if file in fs {
      assert [Unlink(file)][..0] == [];
    } else {
      assert fs - {file} == fs;
    }
  }

  /** Three writes in a row, cut off. */
  lemma CutOfThree(fs: Files, a: seq<FileStep>, b: seq<FileStep>, c: seq<FileStep>, n: nat)
    requires n <= |a| + |b| + |c|
    ensures Exec(fs, (a + b + c)[..n]) ==
            if n <= |a| then Exec(fs, a[..n])
            else if n <= |a| + |b| then Exec(Exec(fs, a), b[..n - |a|])
            else Exec(Exec(Exec(fs, a), b), c[..n - |a| - |b|])
  {
    TakeConcat(a + b, c, n);
    if n <= |a| + |b| {
      TakeConcat(a, b, n);
      if n > |a| {
        ExecConcat(fs, a, b[..n - |a|]);
      }
    } else {
      ExecConcat(fs, a + b, c[..n - |a| - |b|]);
      ExecConcat(fs, a, b);
    }
  }

  /** The files when a replacement stops at step `n`, of which `u` remove the receipt. */
  ghost function ReplacedUpTo(fs: Files, receipt: File, copy: File, bytes: Bytes, h: Bytes, u: nat, n: nat): Files
    requires n <= u + |bytes| + |h| + 2
  {
    if n < u then fs
    else if n == u then fs - {receipt}
    else if n <= u + |bytes| + 1 then (fs - {receipt})[copy := bytes[..n - u - 1]]
    else (fs - {receipt})[copy := bytes][receipt := h[..n - u - |bytes| - 2]]
  }

  lemma ReplaceCut(fs: Files, id: Id, ws: WorkspaceKey, name: string, bytes: Bytes, h: Bytes, n: nat)
    requires n <= |UnlinkSteps(fs, Receipt(id, ws))| + |bytes| + 1 + |h| + 1
    ensures var receipt, copy := Receipt(id, ws), Copy(ws, id, name);
      var steps := UnlinkSteps(fs, receipt) + WriteSteps(copy, bytes) + WriteSteps(receipt, h);
      var u := |UnlinkSteps(fs, receipt)|;
      && n <= |steps|
      && Exec(fs, steps[..n]) == ReplacedUpTo(fs, receipt, copy, bytes, h, u, n)
  {
    var receipt, copy := Receipt(id, ws), Copy(ws, id, name);
    var a, b, c := UnlinkSteps(fs, receipt), WriteSteps(copy, bytes), WriteSteps(receipt, h);
    var gone := fs - {receipt};
    WriteTouches(copy, bytes);
    WriteTouches(receipt, h);
    CutOfThree(fs, a, b, c, n);
    UnlinkCut(fs, receipt, |a|);
    TakeAll(a);
    if n <= |a| {
      UnlinkCut(fs, receipt, n);
    } else if n <= |a| + |b| {
      WriteCut(gone, copy, bytes, n - |a|);
    } else {
      WriteAll(gone, copy, bytes);
      WriteCut(gone[copy := bytes], receipt, h, n - |a| - |b|);
    }
  }

  /** One id: after a crash it can be delivered again exactly from the cut positions above. */
  lemma OneResumes(f: Format, fs: Files, node: string, id: Id, ws: WorkspaceKey, preserve: bool, n: nat)
    requires Lawful(f) && Deliverable(f, fs, node, id, ws)
    requires n <= |DeliverOnePlan(f, fs, node, id, ws, preserve).steps|
    ensures Deliverable(f, Exec(fs, DeliverOnePlan(f, fs, node, id, ws, preserve).steps[..n]), node, id, ws) <==>
            Resumable(f, fs, node, id, ws, preserve, n)
  {
    var steps := DeliverOnePlan(f, fs, node, id, ws, preserve).steps;
    if Manifest(id) in fs {
      var input := Intact(f, fs, node, id).value;
      if Copy(ws, id, input.name) in fs {
        if Receipt(id, ws) !in fs {
          ReceiptResumes(f, fs, node, id, ws, n);
        }
      } else if !(preserve && Receipt(id, ws) in fs) {
        ReplaceResumes(f, fs, node, id, ws, preserve, n);
      }
    }
  }

  lemma ReceiptResumes(f: Format, fs: Files, node: string, id: Id, ws: WorkspaceKey, n: nat)
    requires Lawful(f) && Deliverable(f, fs, node, id, ws) && Manifest(id) in fs && Receipt(id, ws) !in fs
    requires Copy(ws, id, Intact(f, fs, node, id).value.name) in fs
    requires n <= |WriteSteps(Receipt(id, ws), Intact(f, fs, node, id).value.hash)|
    ensures var h := Intact(f, fs, node, id).value.hash;
      Deliverable(f, Exec(fs, WriteSteps(Receipt(id, ws), h)[..n]), node, id, ws) <==> n == 0 || n > |h|
  {
    var h := Intact(f, fs, node, id).value.hash;
    WriteCut(fs, Receipt(id, ws), h, n);
    assert h[..|h|] == h;
  }

  /** Without a copy to keep, the positions are those of the copy and the receipt that are written. */
  lemma ResumableReplacing(f: Format, fs: Files, node: string, id: Id, ws: WorkspaceKey, preserve: bool, n: nat, u: nat)
    requires Manifest(id) in fs && Intact(f, fs, node, id).Some? && u == |UnlinkSteps(fs, Receipt(id, ws))|
    requires Copy(ws, id, Intact(f, fs, node, id).value.name) !in fs && !(preserve && Receipt(id, ws) in fs)
    ensures var bytes, h := fs[Content(id)], Intact(f, fs, node, id).value.hash;
      Resumable(f, fs, node, id, ws, preserve, n) <==>
        if n <= u then true
        else if n <= u + |bytes| + 1 then WholeCut(f, bytes, n - u, h)
        else n - u - |bytes| - 1 > |h|
  {}

  lemma ReplaceResumes(f: Format, fs: Files, node: string, id: Id, ws: WorkspaceKey, preserve: bool, n: nat)
    requires Lawful(f) && Deliverable(f, fs, node, id, ws) && Manifest(id) in fs
    requires Copy(ws, id, Intact(f, fs, node, id).value.name) !in fs && !(preserve && Receipt(id, ws) in fs)
    requires n <= |DeliverOnePlan(f, fs, node, id, ws, preserve).steps|
    ensures Deliverable(f, Exec(fs, DeliverOnePlan(f, fs, node, id, ws, preserve).steps[..n]), node, id, ws) <==>
            Resumable(f, fs, node, id, ws, preserve, n)
  {
    var steps := ReplacePlanSteps(f, fs, node, id, ws, preserve, n);
    var u := |UnlinkSteps(fs, Receipt(id, ws))|;
    ResumableReplacing(f, fs, node, id, ws, preserve, n, u);
    CutDeliverable(f, fs, Exec(fs, steps[..n]), node, id, ws, n, u);
  }

  lemma ReplacePlanSteps(f: Format, fs: Files, node: string, id: Id, ws: WorkspaceKey, preserve: bool, n: nat)
    returns (steps: seq<FileStep>)
    requires Deliverable(f, fs, node, id, ws) && Manifest(id) in fs
    requires Copy(ws, id, Intact(f, fs, node, id).value.name) !in fs && !(preserve && Receipt(id, ws) in fs)
    requires n <= |DeliverOnePlan(f, fs, node, id, ws, preserve).steps|
    ensures steps == DeliverOnePlan(f, fs, node, id, ws, preserve).steps
    ensures var input := Intact(f, fs, node, id).value;
      var receipt, copy, bytes, h := Receipt(id, ws), Copy(ws, id, input.name), fs[Content(id)], input.hash;
      var u := |UnlinkSteps(fs, receipt)|;
      && n <= u + |bytes| + |h| + 2
      && Exec(fs, steps[..n]) == ReplacedUpTo(fs, receipt, copy, bytes, h, u, n)
  {
    var input := Intact(f, fs, node, id).value;
    var bytes, h := fs[Content(id)], input.hash;
    steps := DeliverOnePlan(f, fs, node, id, ws, preserve).steps;
    WriteTouches(Copy(ws, id, input.name), bytes);
    WriteTouches(Receipt(id, ws), h);
    ReplaceCut(fs, id, ws, input.name, bytes, h, n);
  }

  /** What a replacement leaves when cut off, and whether that can be delivered. */
  lemma CutDeliverable(f: Format, fs: Files, fs': Files, node: string, id: Id, ws: WorkspaceKey, n: nat, u: nat)
    requires Intact(f, fs, node, id).Some? && Manifest(id) in fs && Deliverable(f, fs, node, id, ws)
    requires var input := Intact(f, fs, node, id).value;
      var receipt, copy, bytes, h := Receipt(id, ws), Copy(ws, id, input.name), fs[Content(id)], input.hash;
      && copy !in fs && n <= u + |bytes| + |h| + 2
      && fs' == ReplacedUpTo(fs, receipt, copy, bytes, h, u, n)
    ensures var bytes, h := fs[Content(id)], Intact(f, fs, node, id).value.hash;
      Deliverable(f, fs', node, id, ws) <==>
        if n <= u then true
        else if n <= u + |bytes| + 1 then WholeCut(f, bytes, n - u, h)
        else n - u - |bytes| - 1 > |h|
  {
    var bytes, h := fs[Content(id)], Intact(f, fs, node, id).value.hash;
    assert bytes[..|bytes|] == bytes && h[..|h|] == h;
    assert Intact(f, fs', node, id) == Intact(f, fs, node, id);
  }

  /** The cut positions in a delivery of several ids from which all of them can be delivered again. */
  ghost predicate AllResumable(f: Format, fs: Files, node: string, ids: seq<Id>, ws: WorkspaceKey, preserve: bool, n: nat)
    requires DeliverPlan(f, fs, node, ids, ws, preserve).verdict == Done
    decreases |ids|
  {
    ids != [] ==>
      var one := DeliverOnePlan(f, fs, node, ids[0], ws, preserve);
      DeliverOneDoneIff(f, fs, node, ids[0], ws, preserve);
      if n <= |one.steps| then Resumable(f, fs, node, ids[0], ws, preserve, n)
      else AllResumable(f, Exec(fs, one.steps), node, ids[1..], ws, preserve, n - |one.steps|)
  }

  lemma CutSteps(fs: Files, steps: seq<FileStep>, n: nat, ids: seq<Id>, other: Id, ws: WorkspaceKey)
    requires TouchesIds(steps, ids) && n <= |steps| && other !in ids
    ensures SameFor(fs, Exec(fs, steps[..n]), other, ws)
  {
    IdsFrame(fs, steps[..n], ids, other, ws);
  }

  lemma DeliverableAfter(f: Format, fs: Files, node: string, id: Id, ws: WorkspaceKey, preserve: bool)
    requires Deliverable(f, fs, node, id, ws)
    ensures Deliverable(f, Exec(fs, DeliverOnePlan(f, fs, node, id, ws, preserve).steps), node, id, ws)
  {
    if Manifest(id) in fs {
      DeliverOneEffect(f, fs, node, id, ws, preserve);
    }
  }

  /** Everything else is as deliverable as before, so one id decides. */
  lemma OneDecides(f: Format, fs: Files, fs': Files, node: string, ids: seq<Id>, ws: WorkspaceKey, preserve: bool)
    requires Distinct(ids) && ids != []
    requires forall x :: x in ids[1..] ==> Deliverable(f, fs', node, x, ws)
    ensures DeliverPlan(f, fs', node, ids, ws, preserve).verdict == Done <==> Deliverable(f, fs', node, ids[0], ws)
  {
    DeliverDoneIff(f, fs', node, ids, ws, preserve);
    assert ids == [ids[0]] + ids[1..];
  }

  lemma RestDecides(f: Format, fs: Files, node: string, ids: seq<Id>, ws: WorkspaceKey, preserve: bool)
    requires Distinct(ids) && ids != [] && Deliverable(f, fs, node, ids[0], ws)
    ensures DeliverPlan(f, fs, node, ids, ws, preserve).verdict == Done <==>
            DeliverPlan(f, fs, node, ids[1..], ws, preserve).verdict == Done
  {
    DeliverDoneIff(f, fs, node, ids, ws, preserve);
    DeliverDoneIff(f, fs, node, ids[1..], ws, preserve);
    assert ids == [ids[0]] + ids[1..];
  }

  lemma AllDeliverable(f: Format, fs: Files, node: string, ids: seq<Id>, ws: WorkspaceKey, preserve: bool)
    requires Distinct(ids) && ids != [] && DeliverPlan(f, fs, node, ids, ws, preserve).verdict == Done
    ensures forall x :: x in ids ==> Deliverable(f, fs, node, x, ws)
    ensures DeliverOnePlan(f, fs, node, ids[0], ws, preserve).verdict == Done
    ensures Distinct(ids[1..]) && ids[0] !in ids[1..]
  {
    DeliverDoneIff(f, fs, node, ids, ws, preserve);
    DeliverOneDoneIff(f, fs, node, ids[0], ws, preserve);
  }

  /** The crash was inside the first id's steps. */
  lemma RetryFirst(f: Format, fs: Files, node: string, ids: seq<Id>, ws: WorkspaceKey, first: bool, second: bool, n: nat)
    requires Lawful(f) && Distinct(ids) && ids != [] && DeliverPlan(f, fs, node, ids, ws, first).verdict == Done
    requires n <= |DeliverOnePlan(f, fs, node, ids[0], ws, first).steps|
    ensures Manifest(ids[0]) in fs ==> Intact(f, fs, node, ids[0]).Some?
    ensures var end := Exec(fs, DeliverOnePlan(f, fs, node, ids[0], ws, first).steps[..n]);
      DeliverPlan(f, end, node, ids, ws, second).verdict == Done <==> Resumable(f, fs, node, ids[0], ws, first, n)
  {
    var steps := DeliverOnePlan(f, fs, node, ids[0], ws, first).steps;
    var end := Exec(fs, steps[..n]);
    AllDeliverable(f, fs, node, ids, ws, first);
    OneTouchesId(f, fs, node, ids[0], ws, first);
    forall x | x in ids[1..]
      ensures Deliverable(f, end, node, x, ws)
    {
      CutSteps(fs, steps, n, [ids[0]], x, ws);
      SameForDeliverable(f, fs, end, node, x, ws);
    }
    OneDecides(f, fs, end, node, ids, ws, second);
    OneResumes(f, fs, node, ids[0], ws, first, n);
  }

  /** The crash was after the first id: it is delivered, and the rest decides. */
  lemma RetryRest(f: Format, fs: Files, node: string, ids: seq<Id>, ws: WorkspaceKey, first: bool, second: bool, m: nat)
    requires Distinct(ids) && ids != [] && DeliverPlan(f, fs, node, ids, ws, first).verdict == Done
    requires var fs' := Exec(fs, DeliverOnePlan(f, fs, node, ids[0], ws, first).steps);
      m <= |DeliverPlan(f, fs', node, ids[1..], ws, first).steps|
    ensures var fs' := Exec(fs, DeliverOnePlan(f, fs, node, ids[0], ws, first).steps);
      var end := Exec(fs', DeliverPlan(f, fs', node, ids[1..], ws, first).steps[..m]);
      DeliverPlan(f, end, node, ids, ws, second).verdict == Done <==>
      DeliverPlan(f, end, node, ids[1..], ws, second).verdict == Done
  {
    AllDeliverable(f, fs, node, ids, ws, first);
    var fs' := Exec(fs, DeliverOnePlan(f, fs, node, ids[0], ws, first).steps);
    var more := DeliverPlan(f, fs', node, ids[1..], ws, first).steps;
    DeliverableAfter(f, fs, node, ids[0], ws, first);
    DeliverTouchesIds(f, fs', node, ids[1..], ws, first);
    CutSteps(fs', more, m, ids[1..], ids[0], ws);
    SameForDeliverable(f, fs', Exec(fs', more[..m]), node, ids[0], ws);
    RestDecides(f, Exec(fs', more[..m]), node, ids, ws, second);
  }

  lemma CutOfTwo(fs: Files, a: seq<FileStep>, b: seq<FileStep>, n: nat)
    requires n <= |a| + |b|
    ensures Exec(fs, (a + b)[..n]) == if n <= |a| then Exec(fs, a[..n]) else Exec(Exec(fs, a), b[..n - |a|])
  {
    TakeConcat(a, b, n);
    if n > |a| {
      ExecConcat(fs, a, b[..n - |a|]);
    }
  }

  /** The steps of several ids, cut off: inside the first one's, or after them. */
  lemma CutIs(fs: Files, plan: Plan, one: seq<FileStep>, more: Plan, n: nat)
    requires plan == Plan(one + more.steps, more.verdict) && n <= |plan.steps|
    ensures plan.verdict == more.verdict && n - |one| <= |more.steps|
    ensures Exec(fs, plan.steps[..n]) ==
            if n <= |one| then Exec(fs, one[..n]) else Exec(Exec(fs, one), more.steps[..n - |one|])
  {
    CutOfTwo(fs, one, more.steps, n);
  }

  lemma PlanOfIds(f: Format, fs: Files, node: string, ids: seq<Id>, ws: WorkspaceKey, preserve: bool)
    requires ids != [] && DeliverOnePlan(f, fs, node, ids[0], ws, preserve).verdict == Done
    ensures var one := DeliverOnePlan(f, fs, node, ids[0], ws, preserve).steps;
      var more := DeliverPlan(f, Exec(fs, one), node, ids[1..], ws, preserve);
      DeliverPlan(f, fs, node, ids, ws, preserve) == Plan(one + more.steps, more.verdict)
  {}

  /** A delivery that would have been done is cut off after `n` file steps: the next one is done exactly when `n` is
      inside no receipt, and inside no copy but one that has the right hash already. */
  lemma {:induction false} RetryIff(f: Format, fs: Files, node: string, ids: seq<Id>, ws: WorkspaceKey, first: bool, second: bool, n: nat)
    requires Lawful(f) && Distinct(ids) && DeliverPlan(f, fs, node, ids, ws, first).verdict == Done
    requires n <= |DeliverPlan(f, fs, node, ids, ws, first).steps|
    ensures var end := Exec(fs, DeliverPlan(f, fs, node, ids, ws, first).steps[..n]);
      DeliverPlan(f, end, node, ids, ws, second).verdict == Done <==> AllResumable(f, fs, node, ids, ws, first, n)
    decreases |ids|
  {
    if ids != [] {
      AllDeliverable(f, fs, node, ids, ws, first);
      var one := DeliverOnePlan(f, fs, node, ids[0], ws, first).steps;
      var all, more := DeliverPlan(f, fs, node, ids, ws, first), DeliverPlan(f, Exec(fs, one), node, ids[1..], ws, first);
      PlanOfIds(f, fs, node, ids, ws, first);
      CutIs(fs, all, one, more, n);
      if n <= |one| {
        RetryFirst(f, fs, node, ids, ws, first, second, n);
      } else {
        var m := n - |one|;
        RetryIff(f, Exec(fs, one), node, ids[1..], ws, first, second, m);
        RetryLater(f, fs, node, ids, ws, first, second, m);
      }
    }
  }

  lemma RetryLater(f: Format, fs: Files, node: string, ids: seq<Id>, ws: WorkspaceKey, first: bool, second: bool, m: nat)
    requires Distinct(ids) && ids != [] && m > 0 && DeliverPlan(f, fs, node, ids, ws, first).verdict == Done
    requires DeliverOnePlan(f, fs, node, ids[0], ws, first).verdict == Done
    requires var fs' := Exec(fs, DeliverOnePlan(f, fs, node, ids[0], ws, first).steps);
      var more := DeliverPlan(f, fs', node, ids[1..], ws, first);
      && more.verdict == Done && m <= |more.steps|
      && (DeliverPlan(f, Exec(fs', more.steps[..m]), node, ids[1..], ws, second).verdict == Done <==>
          AllResumable(f, fs', node, ids[1..], ws, first, m))
    ensures var one := DeliverOnePlan(f, fs, node, ids[0], ws, first).steps;
      var fs' := Exec(fs, one);
      var end := Exec(fs', DeliverPlan(f, fs', node, ids[1..], ws, first).steps[..m]);
      DeliverPlan(f, end, node, ids, ws, second).verdict == Done <==> AllResumable(f, fs, node, ids, ws, first, |one| + m)
  {
    RetryRest(f, fs, node, ids, ws, first, second, m);
  }

  /** A run after which a delivery that preserves deletions has nothing to do, and one that does not, has: the agent
      deleted its copy. */
  lemma SecondDeliversAgain(f: Format, node: string, id: Id, ws: WorkspaceKey, name: string, bytes: Bytes)
    requires Lawful(f) && ValidName(name)
    ensures exists actions ::
      var fs := Run(f, node, actions).files;
      DeliverPlan(f, fs, node, [id], ws, true) == Plan([], Done) && DeliverPlan(f, fs, node, [id], ws, false).steps != []
  {
    var actions := DeletedRun(f, node, id, ws, name, bytes);
    DeletionUndone(f, node, Run(f, node, actions), id, ws, name, bytes);
  }

  /** Stage, deliver, and delete the copy. */
  lemma DeletedRun(f: Format, node: string, id: Id, ws: WorkspaceKey, name: string, bytes: Bytes)
    returns (actions: seq<Action>)
    requires Lawful(f) && ValidName(name)
    ensures SkippedWhole(f, Run(f, node, actions).files, node, id, ws, name, bytes)
  {
    var w0, other := World(map[], {}, {}), name + "x";
    var s1 := Staged(f, node, w0, id, name, bytes, ws, other, f.hash(bytes));
    var w1 := Act(f, node, w0, s1);
    var s2 := DeliveredOnce(f, node, w1, id, ws, name, bytes, other);
    var w2 := Act(f, node, w1, s2);
    var s3 := AgentDeletes(ws, id, name);
    actions := [s1, s2, s3];
    ThreeActions(f, node, s1, s2, s3);
    DeletedBy(f, node, w2, ws, id, name);
    DeletedIs(f, node, w1.files, id, ws, name, bytes);
  }

  lemma DeletedIs(f: Format, node: string, fs: Files, id: Id, ws: WorkspaceKey, name: string, bytes: Bytes)
    requires fs == map[Content(id) := bytes, Manifest(id) := f.encode(Input(node, name, f.hash(bytes)))]
    ensures SkippedWhole(f, fs[Copy(ws, id, name) := bytes][Receipt(id, ws) := f.hash(bytes)] - {Copy(ws, id, name)},
                    node, id, ws, name, bytes)
  {}

  lemma DeletedBy(f: Format, node: string, w: World, ws: WorkspaceKey, id: Id, name: string)
    ensures Act(f, node, w, AgentDeletes(ws, id, name)).files == w.files - {Copy(ws, id, name)}
  {
    var steps := [Unlink(Copy(ws, id, name))];
    ExecWorldIs(f, w, steps);
    assert steps[..0] == [] && Exec(w.files, steps) == Apply(w.files, steps[0]);
  }

  lemma ThreeActions(f: Format, node: string, a: Action, b: Action, c: Action)
    ensures Run(f, node, [a, b, c]) == Act(f, node, Act(f, node, Act(f, node, World(map[], {}, {}), a), b), c)
  {
    assert [] + [a] == [a] && [a] + [b] == [a, b] && [a, b] + [c] == [a, b, c];
    RunOneMore(f, node, [], a);
    RunOneMore(f, node, [a], b);
    RunOneMore(f, node, [a, b], c);
  }

  /** With the receipt there and the copy gone, only a delivery that preserves deletions has nothing to do. */
  lemma DeletionUndone(f: Format, node: string, w: World, id: Id, ws: WorkspaceKey, name: string, bytes: Bytes)
    requires Lawful(f) && ValidName(name) && SkippedWhole(f, w.files, node, id, ws, name, bytes)
    ensures DeliverPlan(f, w.files, node, [id], ws, true) == Plan([], Done)
    ensures DeliverPlan(f, w.files, node, [id], ws, false).steps != []
  {
    RenamedSkips(f, node, w, id, ws, name, bytes);
    assert [id][1..] == [];
    assert UnlinkSteps(w.files, Receipt(id, ws)) == [Unlink(Receipt(id, ws))];
    assert DeliverOnePlan(f, w.files, node, id, ws, false).steps[0] == Unlink(Receipt(id, ws));
  }

  // ----- the operations as they run

  datatype Outcome = Finished(verdict: Verdict) | Interrupted

  /** As many of the steps as the budget allows have been executed. */
  ghost predicate Performs(fs: Files, budget: nat, steps: seq<FileStep>, fs': Files, budget': nat, finished: bool) {
    && fs' == Exec(fs, Cut(steps, budget))
    && finished == (|steps| <= budget)
    && budget' == (if |steps| <= budget then budget - |steps| else 0)
  }

  ghost predicate Carries(fs: Files, budget: nat, plan: Plan, fs': Files, budget': nat, outcome: Outcome) {
    && Performs(fs, budget, plan.steps, fs', budget', outcome.Finished?)
    && (outcome.Finished? ==> outcome.verdict == plan.verdict)
  }

  lemma PerformsThen(fs: Files, budget: nat, a: seq<FileStep>, fs1: Files, budget1: nat,
                     b: seq<FileStep>, fs2: Files, budget2: nat, finished: bool)
    requires Performs(fs, budget, a, fs1, budget1, true) && Performs(fs1, budget1, b, fs2, budget2, finished)
    ensures Performs(fs, budget, a + b, fs2, budget2, finished)
  {
    ExecConcat(fs, a, Cut(b, budget1));
    assert Cut(a + b, budget) == a + Cut(b, budget1);
    assert Cut(a, budget) == a;
  }

  lemma PerformsCut(fs: Files, budget: nat, a: seq<FileStep>, fs1: Files, budget1: nat, b: seq<FileStep>)
    requires Performs(fs, budget, a, fs1, budget1, false)
    ensures Performs(fs, budget, a + b, fs1, budget1, false)
  {
    assert Cut(a + b, budget) == Cut(a, budget);
  }

  lemma PerformsAll(fs: Files, budget: nat, steps: seq<FileStep>, fs': Files, budget': nat)
    requires Performs(fs, budget, steps, fs', budget', true)
    ensures fs' == Exec(fs, steps)
  {
    assert Cut(steps, budget) == steps;
  }

  lemma UnlinkOther(fs: Files, budget: nat, file: File, fs': Files, budget': nat, other: File)
    requires Performs(fs, budget, UnlinkSteps(fs, file), fs', budget', true) && file != other
    ensures UnlinkSteps(fs', other) == UnlinkSteps(fs, other)
  {
    PerformsAll(fs, budget, UnlinkSteps(fs, file), fs', budget');
    if file in fs {
      assert [Unlink(file)][..0] == [];
    }
  }

  /** The files, and how many more file steps succeed before the process is interrupted. */
  class Store {
    var files: Files
    var budget: nat

    constructor (files: Files, budget: nat)
      ensures this.files == files && this.budget == budget
    {
      this.files, this.budget := files, budget;
    }

    method Take(step: FileStep) returns (ok: bool)
      modifies this
      ensures Performs(old(files), old(budget), [step], files, budget, ok)
    {
      ok := budget > 0;
      if ok {
        files := Apply(files, step);
        budget := budget - 1;
        assert [step][..0] == [];
      }
    }

    /** `write_all` into a file that `create_new` just made. */
    method WriteNew(file: File, bytes: Bytes) returns (ok: bool)
      modifies this
      ensures Performs(old(files), old(budget), WriteSteps(file, bytes), files, budget, ok)
    {
      ok := Take(Create(file));
      if !ok {
        PerformsCut(old(files), old(budget), [Create(file)], files, budget, AppendSteps(file, bytes));
        return;
      }
      for i := 0 to |bytes|
        invariant ok && Performs(old(files), old(budget), WriteSteps(file, bytes[..i]), files, budget, true)
      {
        ghost var fs, n := files, budget;
        WriteOneMore(file, bytes, i);
        ok := Take(Append(file, bytes[i]));
        if !ok {
          CutShort(old(files), old(budget), file, bytes, i, fs, n, files, budget);
          return;
        }
        PerformsThen(old(files), old(budget), WriteSteps(file, bytes[..i]), fs, n, [Append(file, bytes[i])], files, budget, true);
      }
      assert bytes[..|bytes|] == bytes;
    }

    method UnlinkIfThere(file: File) returns (ok: bool)
      modifies this
      ensures Performs(old(files), old(budget), UnlinkSteps(old(files), file), files, budget, ok)
    {
      ok := true;
      if file in files {
        ok := Take(Unlink(file));
      }
    }

    method ImmutableFile(file: File, bytes: Bytes) returns (outcome: Outcome)
      modifies this
      ensures Carries(old(files), old(budget), ImmutablePlan(old(files), file, bytes), files, budget, outcome)
    {
      if file in files {
        return Finished(if files[file] == bytes then Done else Refused);
      }
      var ok := WriteNew(file, bytes);
      outcome := if ok then Finished(Done) else Interrupted;
    }

    method Stage(f: Format, node: string, id: Id, name: string, bytes: Bytes) returns (outcome: Outcome)
      modifies this
      ensures Carries(old(files), old(budget), StagePlan(f, old(files), node, id, name, bytes), files, budget, outcome)
    {
      if !ValidName(name) {
        return Finished(Refused);
      }
      var metadata := f.encode(Input(node, name, f.hash(bytes)));
      ghost var first := ImmutablePlan(files, Content(id), bytes);
      ghost var second := ImmutablePlan(files, Manifest(id), metadata);
      outcome := ImmutableFile(Content(id), bytes);
      ghost var fs, n := files, budget;
      if outcome == Finished(Done) {
        PerformsAll(old(files), old(budget), first.steps, files, budget);
        OtherFilePlan(old(files), Content(id), bytes, Manifest(id), metadata);
        outcome := ImmutableFile(Manifest(id), metadata);
        PerformsThen(old(files), old(budget), first.steps, fs, n, second.steps, files, budget, outcome.Finished?);
      } else if outcome == Interrupted {
        PerformsCut(old(files), old(budget), first.steps, files, budget, second.steps);
      }
    }

    method Remove(f: Format, node: string, id: Id, name: string) returns (outcome: Outcome)
      modifies this
      ensures Carries(old(files), old(budget), RemovePlan(f, old(files), node, id, name), files, budget, outcome)
    {
      if !Owns(f, files, node, id, name) {
        return Finished(Refused);
      }
      ghost var first, second := UnlinkSteps(files, Manifest(id)), UnlinkSteps(files, Content(id));
      var ok := UnlinkIfThere(Manifest(id));
      ghost var fs, n := files, budget;
      if !ok {
        PerformsCut(old(files), old(budget), first, files, budget, second);
        return Interrupted;
      }
      UnlinkOther(old(files), old(budget), Manifest(id), files, budget, Content(id));
      ok := UnlinkIfThere(Content(id));
      PerformsThen(old(files), old(budget), first, fs, n, second, files, budget, ok);
      outcome := if ok then Finished(Done) else Interrupted;
    }

    /** One id of a delivery: `deliver_prepared`'s loop body. */
    method DeliverOne(f: Format, node: string, id: Id, ws: WorkspaceKey, preserve: bool) returns (outcome: Outcome)
      modifies this
      ensures Carries(old(files), old(budget), DeliverOnePlan(f, old(files), node, id, ws, preserve), files, budget, outcome)
    {
      if Manifest(id) !in files {
        return Finished(Done);
      }
      var intact := Intact(f, files, node, id);
      if intact == None {
        return Finished(Refused);
      }
      var input := intact.value;
      var receipt, copy := Receipt(id, ws), Copy(ws, id, input.name);
      var completed := receipt in files;
      if completed && files[receipt] != input.hash {
        return Finished(Refused);
      }
      if copy in files {
        if !completed && f.hash(files[copy]) != input.hash {
          return Finished(Refused);
        }
        outcome := ImmutableFile(receipt, input.hash);
      } else if preserve && completed {
        return Finished(Done);
      } else {
        outcome := Replace(receipt, copy, files[Content(id)], input.hash);
      }
    }

    /** The receipt goes, the copy is written, the receipt comes back. */
    method Replace(receipt: File, copy: File, bytes: Bytes, hash: Bytes) returns (outcome: Outcome)
      requires receipt != copy
      modifies this
      ensures Carries(old(files), old(budget),
                      Plan(UnlinkSteps(old(files), receipt) + WriteSteps(copy, bytes) + WriteSteps(receipt, hash), Done),
                      files, budget, outcome)
    {
      ghost var a, b, c := UnlinkSteps(files, receipt), WriteSteps(copy, bytes), WriteSteps(receipt, hash);
      ghost var fs0, n0 := files, budget;
      assert a + b + c == a + (b + c);
      var ok := UnlinkIfThere(receipt);
      if !ok {
        PerformsCut(fs0, n0, a, files, budget, b + c);
        return Interrupted;
      }
      ghost var fs1, n1 := files, budget;
      ok := WriteNew(copy, bytes);
      PerformsThen(fs0, n0, a, fs1, n1, b, files, budget, ok);
      if !ok {
        PerformsCut(fs0, n0, a + b, files, budget, c);
        return Interrupted;
      }
      ghost var fs2, n2 := files, budget;
      ReceiptGone(fs0, n0, receipt, fs1, n1, copy, bytes, fs2, n2);
      outcome := ImmutableFile(receipt, hash);
      PerformsThen(fs0, n0, a + b, fs2, n2, c, files, budget, outcome.Finished?);
    }

    /** The loop of `deliver_prepared` over the ids. */
    method Deliver(f: Format, node: string, ids: seq<Id>, ws: WorkspaceKey, preserve: bool) returns (outcome: Outcome)
      modifies this
      ensures Carries(old(files), old(budget), DeliverPlan(f, old(files), node, ids, ws, preserve), files, budget, outcome)
    {
      ghost var fs0, n0 := files, budget;
      ghost var all := DeliverPlan(f, files, node, ids, ws, preserve);
      assert ids[0..] == ids;
      for i := 0 to |ids|
        invariant Leads(fs0, n0, all, files, budget, DeliverPlan(f, files, node, ids[i..], ws, preserve))
      {
        ghost var fs, n := files, budget;
        outcome := DeliverOne(f, node, ids[i], ws, preserve);
        DeliverNext(f, fs, n, node, ids, i, ws, preserve, files, budget, outcome);
        if outcome != Finished(Done) {
          return;
        }
      }
      outcome := Finished(Done);
    }

    /** `deliver_prepared`, from the text of the task. */
    method DeliverTask(f: Format, parse: UuidParse, node: string, task: string, ws: WorkspaceKey, preserve: bool)
      returns (outcome: Outcome, ids: seq<Id>)
      modifies this
      ensures Names.Ascending(ids) && Distinct(ids) && forall id :: id in ids <==> NamedIn(parse, task, id)
      ensures Carries(old(files), old(budget), DeliverPlan(f, old(files), node, ids, ws, preserve), files, budget, outcome)
    {
      ids := CollectIds(parse, task);
      outcome := Deliver(f, node, ids, ws, preserve);
    }
  }

  // ----- the ids a task names

  const PROJECT_PREFIX := "grapher-attachments/"

  /** `Uuid::parse_str` on 36 characters, with the parsed id as it prints. */
  type UuidParse = string -> Option<Id>

  /** The text after the prefix at `i` starts with a UUID and a slash. */
  predicate NamesAt(parse: UuidParse, task: string, i: nat, id: Id) {
    Text.OccursAt(task, i, PROJECT_PREFIX) && IdIn(parse, task[i + |PROJECT_PREFIX|..]) == Some(id)
  }

  function IdIn(parse: UuidParse, suffix: string): Option<Id> {
    if |suffix| > 36 && suffix[36] == '/' then parse(suffix[..36]) else None
  }

  ghost predicate NamedIn(parse: UuidParse, task: string, id: Id) {
    exists i :: NamesAt(parse, task, i, id)
  }

  ghost predicate FoundAt(parse: UuidParse, task: string, offsets: seq<nat>, id: Id) {
    exists i :: i in offsets && NamesAt(parse, task, i, id)
  }

  lemma OneMoreOffset(parse: UuidParse, task: string, offsets: seq<nat>, i: nat)
    ensures forall id ::
      FoundAt(parse, task, offsets + [i], id) <==> FoundAt(parse, task, offsets, id) || NamesAt(parse, task, i, id)
  {
    assert i in offsets + [i];
  }

  lemma PrefixDoesNotOverlap()
    ensures Text.NoOverlap(PROJECT_PREFIX)
  {}

  /** The ids named in a task, each once, in the order of a `BTreeSet`. */
  method CollectIds(parse: UuidParse, task: string) returns (ids: seq<Id>)
    ensures Names.Ascending(ids) && Distinct(ids)
    ensures forall id :: id in ids <==> NamedIn(parse, task, id)
  {
    var found: set<Id> := {};
    var offsets := Text.Matches(task, PROJECT_PREFIX, 0);
    for k := 0 to |offsets|
      invariant forall id :: id in found <==> FoundAt(parse, task, offsets[..k], id)
    {
      var i := offsets[k];
      assert i in offsets;
      PrefixDoesNotOverlap();
      Text.MatchesAll(task, PROJECT_PREFIX, 0, i);
      assert offsets[..k + 1] == offsets[..k] + [i];
      OneMoreOffset(parse, task, offsets[..k], i);
      var id := IdIn(parse, task[i + |PROJECT_PREFIX|..]);
      if id.Some? {
        found := found + {id.value};
      }
    }
    assert offsets[..|offsets|] == offsets;
    AllOffsets(parse, task);
    ids := Names.Sorted(found);
    assert forall id :: id in ids <==> id in Names.Elements(ids);
    AscendingDistinct(ids);
  }

  lemma AllOffsets(parse: UuidParse, task: string)
    ensures forall id :: NamedIn(parse, task, id) <==> FoundAt(parse, task, Text.Matches(task, PROJECT_PREFIX, 0), id)
  {
    PrefixDoesNotOverlap();
    forall id, i: nat | NamesAt(parse, task, i, id)
      ensures i in Text.Matches(task, PROJECT_PREFIX, 0)
    {
      Text.MatchesAll(task, PROJECT_PREFIX, 0, i);
    }
  }

  lemma AscendingDistinct(ids: seq<Id>)
    requires Names.Ascending(ids)
    ensures Distinct(ids)
  {
    forall i, j | 0 <= i < j < |ids|
      ensures ids[i] != ids[j]
    {
      assert Names.Less(ids[i], ids[j]);
      Names.LessIrreflexive(ids[i]);
    }
  }

  /** Carrying out the rest from here carries out the whole from the start. */
  ghost predicate Leads(fs0: Files, n0: nat, all: Plan, fs: Files, n: nat, rest: Plan) {
    forall fs', n', outcome ::
      Carries(fs, n, rest, fs', n', outcome) ==> Carries(fs0, n0, all, fs', n', outcome)
  }

  lemma ThenLeads(fs: Files, n: nat, one: Plan, fs1: Files, n1: nat, rest: Plan)
    requires Carries(fs, n, one, fs1, n1, Finished(Done))
    ensures Leads(fs, n, Then(one, rest), fs1, n1, rest)
  {
    forall fs', n', outcome | Carries(fs1, n1, rest, fs', n', outcome)
      ensures Carries(fs, n, Then(one, rest), fs', n', outcome)
    {
      PerformsThen(fs, n, one.steps, fs1, n1, rest.steps, fs', n', outcome.Finished?);
    }
  }

  lemma ThenStops(fs: Files, n: nat, one: Plan, fs1: Files, n1: nat, outcome: Outcome, rest: Plan)
    requires Carries(fs, n, one, fs1, n1, outcome) && outcome != Finished(Done)
    ensures Carries(fs, n, Then(one, rest), fs1, n1, outcome)
  {
    if outcome == Interrupted {
      PerformsCut(fs, n, one.steps, fs1, n1, rest.steps);
    }
  }

  lemma DeliverNext(f: Format, fs: Files, n: nat, node: string, ids: seq<Id>, i: nat, ws: WorkspaceKey, preserve: bool,
                    fs1: Files, n1: nat, outcome: Outcome)
    requires i < |ids|
    requires Carries(fs, n, DeliverOnePlan(f, fs, node, ids[i], ws, preserve), fs1, n1, outcome)
    ensures outcome == Finished(Done) ==>
              Leads(fs, n, DeliverPlan(f, fs, node, ids[i..], ws, preserve),
                    fs1, n1, DeliverPlan(f, fs1, node, ids[i + 1..], ws, preserve))
    ensures outcome != Finished(Done) ==>
              Carries(fs, n, DeliverPlan(f, fs, node, ids[i..], ws, preserve), fs1, n1, outcome)
  {
    var one := DeliverOnePlan(f, fs, node, ids[i], ws, preserve);
    var rest := DeliverPlan(f, Exec(fs, one.steps), node, ids[i + 1..], ws, preserve);
    assert ids[i..][1..] == ids[i + 1..];
    assert DeliverPlan(f, fs, node, ids[i..], ws, preserve) == Then(one, rest);
    if outcome == Finished(Done) {
      PerformsAll(fs, n, one.steps, fs1, n1);
      ThenLeads(fs, n, one, fs1, n1, rest);
    } else {
      ThenStops(fs, n, one, fs1, n1, outcome, rest);
    }
  }

  lemma ReceiptGone(fs0: Files, n0: nat, receipt: File, fs1: Files, n1: nat, copy: File, bytes: Bytes, fs2: Files, n2: nat)
    requires receipt != copy
    requires Performs(fs0, n0, UnlinkSteps(fs0, receipt), fs1, n1, true)
    requires Performs(fs1, n1, WriteSteps(copy, bytes), fs2, n2, true)
    ensures receipt !in fs2
  {
    PerformsAll(fs0, n0, UnlinkSteps(fs0, receipt), fs1, n1);
    PerformsAll(fs1, n1, WriteSteps(copy, bytes), fs2, n2);
    if receipt in fs0 {
      assert [Unlink(receipt)][..0] == [];
    }
    WriteAll(fs1, copy, bytes);
  }

  lemma WriteOneMore(file: File, bytes: Bytes, i: nat)
    requires i < |bytes|
    ensures WriteSteps(file, bytes[..i + 1]) == WriteSteps(file, bytes[..i]) + [Append(file, bytes[i])]
  {
    assert bytes[..i + 1][..i] == bytes[..i];
  }

  lemma {:induction false} WriteContinues(file: File, bytes: Bytes, i: nat)
    requires i <= |bytes|
    ensures WriteSteps(file, bytes[..i]) <= WriteSteps(file, bytes)
  {
    WriteTouches(file, bytes);
    WriteTouches(file, bytes[..i]);
    AppendTouches(file, bytes);
    AppendTouches(file, bytes[..i]);
  }

  lemma CutShort(fs0: Files, budget0: nat, file: File, bytes: Bytes, i: nat, fs: Files, n: nat, fs': Files, n': nat)
    requires i < |bytes| && Performs(fs0, budget0, WriteSteps(file, bytes[..i]), fs, n, true)
    requires Performs(fs, n, [Append(file, bytes[i])], fs', n', false)
    ensures Performs(fs0, budget0, WriteSteps(file, bytes), fs', n', false)
  {
    var done := WriteSteps(file, bytes[..i]);
    WriteOneMore(file, bytes, i);
    PerformsThen(fs0, budget0, done, fs, n, [Append(file, bytes[i])], fs', n', false);
    WriteContinues(file, bytes, i + 1);
    var sofar, all := WriteSteps(file, bytes[..i + 1]), WriteSteps(file, bytes);
    assert all == sofar + all[|sofar|..];
    PerformsCut(fs0, budget0, sofar, fs', n', all[|sofar|..]);
  }

  /** Writing one file leaves the plan for another as it was. */
  lemma OtherFilePlan(fs: Files, file: File, bytes: Bytes, other: File, more: Bytes)
    requires file != other
    ensures ImmutablePlan(Exec(fs, ImmutablePlan(fs, file, bytes).steps), other, more) == ImmutablePlan(fs, other, more)
  {
    WriteAll(fs, file, bytes);
  }
}
