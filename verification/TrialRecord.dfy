// When trial_outcome loses a trial to a power cut, exactly; and that running it again completes it.
module TrialRecord {
  import opened Basics
  import opened Trial
  import opened Durability
  import opened DurableWrites

  // --- a directory in which every name has a file of its own ---

  ghost predicate OwnDir(dir: map<string, nat>, nodes: map<nat, Node<Doc>>) {
    && (forall name :: name in dir ==> dir[name] in nodes)
    && (forall a, b :: a in dir && b in dir && a != b ==> dir[a] != dir[b])
  }

  // However much of the pending changes a power cut keeps.
  ghost predicate OwnNames(fs: Fs<Doc>) {
    forall keep: seq<bool> :: |keep| == |fs.pending| ==> OwnDir(Survive(fs.disk, fs.pending, keep), fs.nodes)
  }

  // What is seen is what is on disk with the pending changes made.
  ghost predicate Coherent(fs: Fs<Doc>) {
    fs.dir == ApplyAll(fs.disk, fs.pending)
  }

  lemma {:induction false} AllSurvive(disk: map<string, nat>, pending: seq<DirOp>)
    ensures Survive(disk, pending, seq(|pending|, _ => true)) == ApplyAll(disk, pending)
  {
    if pending == [] {
    } else {
      var n := |pending| - 1;
      AllSurvive(disk, pending[..n]);
      assert seq(|pending|, _ => true)[..n] == seq(n, _ => true);
    }
  }

  lemma {:induction false} NoneSurvives(disk: map<string, nat>, pending: seq<DirOp>)
    ensures Survive(disk, pending, seq(|pending|, _ => false)) == disk
  {
    if pending == [] {
    } else {
      var n := |pending| - 1;
      NoneSurvives(disk, pending[..n]);
      assert seq(|pending|, _ => false)[..n] == seq(n, _ => false);
    }
  }

  lemma SeenIsOwn(fs: Fs<Doc>)
    requires OwnNames(fs) && Coherent(fs)
    ensures OwnDir(fs.dir, fs.nodes)
  {
    AllSurvive(fs.disk, fs.pending);
  }

  lemma OneMoreSurvives(disk: map<string, nat>, pending: seq<DirOp>, op: DirOp, keep: seq<bool>)
    requires |keep| == |pending| + 1
    ensures var front := Survive(disk, pending, keep[..|pending|]);
            Survive(disk, pending + [op], keep) == if keep[|pending|] then Apply(front, op) else front
  {
    assert (pending + [op])[..|pending|] == pending;
  }

  lemma OwnAfterCreate(fs: Fs<Doc>, name: string, after: Fs<Doc>)
    requires OwnNames(fs) && Numbered(fs)
    requires after.disk == fs.disk && after.pending == fs.pending + [Bind(name, fs.next)]
    requires after.nodes.Keys == fs.nodes.Keys + {fs.next}
    ensures OwnNames(after)
  {
    forall keep: seq<bool> | |keep| == |after.pending|
      ensures OwnDir(Survive(after.disk, after.pending, keep), after.nodes)
    {
      var front := Survive(fs.disk, fs.pending, keep[..|fs.pending|]);
      OneMoreSurvives(fs.disk, fs.pending, Bind(name, fs.next), keep);
      assert OwnDir(front, fs.nodes);
      OwnAfterBind(front, fs.nodes, name, fs.next, after.nodes);
    }
  }

  lemma OwnAfterBind(front: map<string, nat>, nodes: map<nat, Node<Doc>>, name: string, ino: nat,
                     after: map<nat, Node<Doc>>)
    requires OwnDir(front, nodes) && ino !in nodes && after.Keys == nodes.Keys + {ino}
    ensures OwnDir(front, after) && OwnDir(front[name := ino], after)
  {
  }

  lemma OwnAfterMove(front: map<string, nat>, nodes: map<nat, Node<Doc>>, src: string, dst: string, ino: nat,
                     after: map<nat, Node<Doc>>)
    requires OwnDir(front, nodes) && ino !in nodes && after.Keys == nodes.Keys + {ino}
    ensures OwnDir((front - {src})[dst := ino], after) && OwnDir((front[src := ino] - {src})[dst := ino], after)
  {
  }

  lemma OwnAfterRename(fs: Fs<Doc>, src: string, dst: string, after: Fs<Doc>)
    requires OwnNames(fs) && Numbered(fs)
    requires after.disk == fs.disk && after.pending == fs.pending + [Bind(src, fs.next), Move(src, dst, fs.next)]
    requires after.nodes.Keys == fs.nodes.Keys + {fs.next}
    ensures OwnNames(after)
  {
    forall keep: seq<bool> | |keep| == |after.pending|
      ensures OwnDir(Survive(after.disk, after.pending, keep), after.nodes)
    {
      var front := Survive(fs.disk, fs.pending, keep[..|fs.pending|]);
      SurviveTwoMore(fs.disk, fs.pending, Bind(src, fs.next), Move(src, dst, fs.next), keep);
      assert OwnDir(front, fs.nodes);
      OwnAfterBind(front, fs.nodes, src, fs.next, after.nodes);
      OwnAfterMove(front, fs.nodes, src, dst, fs.next, after.nodes);
    }
  }

  lemma OwnAfterSameChanges(fs: Fs<Doc>, after: Fs<Doc>)
    requires OwnNames(fs) && after.disk == fs.disk && after.pending == fs.pending && after.nodes.Keys == fs.nodes.Keys
    ensures OwnNames(after)
  {
    forall keep: seq<bool> | |keep| == |after.pending|
      ensures OwnDir(Survive(after.disk, after.pending, keep), after.nodes)
    {
      assert OwnDir(Survive(fs.disk, fs.pending, keep), fs.nodes);
    }
  }

  lemma OwnAfterSyncDir(fs: Fs<Doc>, after: Fs<Doc>)
    requires OwnNames(fs) && after.disk == ApplyAll(fs.disk, fs.pending) && after.pending == []
    requires after.nodes.Keys == fs.nodes.Keys
    ensures OwnNames(after)
  {
    AllSurvive(fs.disk, fs.pending);
    assert OwnDir(after.disk, after.nodes);
  }

  // What every state of a durable write keeps.
  ghost predicate Orderly(fs: Fs<Doc>) {
    Numbered(fs) && fs.kind == Ext4 && OwnNames(fs) && Coherent(fs)
  }

  ghost predicate AllOrderly(log: seq<Fs<Doc>>) {
    forall i :: 0 <= i < |log| ==> Orderly(log[i])
  }

  lemma CoherentAfterOne(fs: Fs<Doc>, op: DirOp, after: Fs<Doc>)
    requires Coherent(fs) && after.dir == Apply(fs.dir, op)
    requires after.disk == fs.disk && after.pending == fs.pending + [op]
    ensures Coherent(after)
  {
    assert after.pending[..|after.pending| - 1] == fs.pending;
  }

  lemma OrderlyCreate(fs: Fs<Doc>, name: string, empty: Doc)
    requires Orderly(fs)
    ensures Orderly(Create(fs, name, empty)) && Orderly(CreateEmpty(fs, name, empty))
  {
    var a, b := Create(fs, name, empty), CreateEmpty(fs, name, empty);
    assert a.nodes.Keys == b.nodes.Keys == fs.nodes.Keys + {fs.next};
    NumberedByKeys(fs, a);
    NumberedByKeys(fs, b);
    OwnAfterCreate(fs, name, a);
    OwnAfterCreate(fs, name, b);
    CoherentAfterOne(fs, Bind(name, fs.next), a);
    CoherentAfterOne(fs, Bind(name, fs.next), b);
  }

  lemma OrderlySameChanges(fs: Fs<Doc>, after: Fs<Doc>)
    requires Orderly(fs) && after.dir == fs.dir && after.disk == fs.disk && after.pending == fs.pending
    requires after.nodes.Keys == fs.nodes.Keys && after.next == fs.next && after.kind == fs.kind
    ensures Orderly(after)
  {
    NumberedByKeys(fs, after);
    OwnAfterSameChanges(fs, after);
  }

  lemma OrderlySyncDir(fs: Fs<Doc>)
    requires Orderly(fs)
    ensures Orderly(SyncDir(fs))
  {
    OwnAfterSyncDir(fs, SyncDir(fs));
  }

  lemma OrderlyAppend(fs: Fs<Doc>, name: string, line: string)
    requires Orderly(fs)
    ensures AllOrderly(AppendLog(fs, name, line))
  {
    var log := AppendLog(fs, name, line);
    if Exists(fs, name) {
      assert log[0].nodes.Keys == fs.nodes.Keys && log[1].nodes.Keys == fs.nodes.Keys;
      OrderlySameChanges(fs, log[0]);
      OrderlySameChanges(log[0], log[1]);
    } else {
      OrderlyCreate(fs, name, Lines([]));
      assert log[1].nodes.Keys == log[0].nodes.Keys && log[2].nodes.Keys == log[0].nodes.Keys;
      OrderlySameChanges(log[0], log[1]);
      OrderlySameChanges(log[1], log[2]);
      OrderlySyncDir(log[2]);
    }
  }

  lemma OrderlyRename(fs: Fs<Doc>, before: Fs<Doc>, src: string, dst: string)
    requires Orderly(fs) && Orderly(before) && src in before.dir && before.dir[src] == fs.next
    requires before.disk == fs.disk && before.pending == fs.pending + [Bind(src, fs.next)]
    requires before.nodes.Keys == fs.nodes.Keys + {fs.next}
    ensures Orderly(Rename(before, src, dst))
  {
    var op, after := Move(src, dst, fs.next), Rename(before, src, dst);
    assert after.pending == fs.pending + [Bind(src, fs.next), op];
    OwnAfterRename(fs, src, dst, after);
    CoherentAfterOne(before, op, after);
  }

  lemma OrderlyWriteAtomic(fs: Fs<Doc>, name: string, doc: Doc)
    requires Orderly(fs)
    ensures AllOrderly(WriteAtomicLog(fs, name, doc))
  {
    var log := WriteAtomicLog(fs, name, doc);
    OrderlyCreate(fs, name + ".new", Lines([]));
    assert log[1].nodes.Keys == log[0].nodes.Keys && log[2].nodes.Keys == log[0].nodes.Keys;
    OrderlySameChanges(log[0], log[1]);
    OrderlySameChanges(log[1], log[2]);
    OrderlyRename(fs, log[2], name + ".new", name);
  }

  lemma OrderlyJoined(a: seq<Fs<Doc>>, b: seq<Fs<Doc>>)
    requires AllOrderly(a) && AllOrderly(b)
    ensures AllOrderly(a + b)
  {
    forall i | 0 <= i < |a + b| ensures Orderly((a + b)[i]) {
      assert (a + b)[i] == if i < |a| then a[i] else b[i - |a|];
    }
  }

  lemma OrderlyRecord(fs: Fs<Doc>, version: string, why: string)
    requires Orderly(fs)
    ensures AllOrderly(RecordLog(fs, version, why))
  {
    if version !in LinesOf(fs, FAILED) {
      var mark := AppendLog(fs, FAILED, version);
      var result := WriteAtomicLog(Last(mark), LAST_RESULT, Lines([why]));
      OrderlyAppend(fs, FAILED, version);
      OrderlyWriteAtomic(Last(mark), LAST_RESULT, Lines([why]));
      OrderlyAppend(Last(result), HISTORY, why);
      OrderlyJoined(mark, result);
      OrderlyJoined(mark + result, AppendLog(Last(result), HISTORY, why));
    }
  }

  // Where trial_outcome's save starts.
  function Recording(fs: Fs<Doc>, version: string, why: string): Fs<Doc> {
    var record := RecordLog(fs, version, why);
    if record == [] then fs else Last(record)
  }

  lemma OrderlyThroughout(fs: Fs<Doc>, version: string, why: string)
    requires Orderly(fs)
    ensures AllOrderly(EndedTrialLog(fs, version, why)) && Orderly(Recording(fs, version, why))
  {
    OrderlyRecord(fs, version, why);
    OrderlyWriteAtomic(Recording(fs, version, why), STATE, Json(None));
    OrderlyJoined(RecordLog(fs, version, why), WriteAtomicLog(Recording(fs, version, why), STATE, Json(None)));
  }

  // --- the state trial_outcome is called in ---

  // failed-versions is only ever opened for appending: no other file takes its name, and it keeps it.
  ghost predicate OnlyMade(fs: Fs<Doc>, name: string) {
    && (name in fs.disk ==> name in fs.dir && fs.dir[name] == fs.disk[name])
    && forall k :: 0 <= k < |fs.pending| && Affects(fs.pending[k], name) ==>
         name in fs.dir && fs.pending[k] == Bind(name, fs.dir[name])
  }

  // The state directory at any point where a run may have ended: state.json carries the install whatever
  // happens, and the two lists' files are not its own.
  ghost predicate InOrder(fs: Fs<Doc>, inst: Installed) {
    && Orderly(fs) && OnlyMade(fs, FAILED)
    && Safe(fs, STATE, {Some(Json(Some(inst)))})
    && (FAILED in fs.dir ==> Apart(fs, STATE, fs.dir[FAILED]))
    && (HISTORY in fs.dir ==> Apart(fs, STATE, fs.dir[HISTORY]))
  }

  // The listed line's content is on disk.
  predicate LineOnDisk(fs: Fs<Doc>, version: string)
    requires FAILED in fs.dir && fs.dir[FAILED] in fs.nodes
  {
    match fs.nodes[fs.dir[FAILED]].fate
    case Synced => true
    case Appended(befores) => forall b :: b in befores ==> b.Lines? && version in b.lines
    case Torn => false
  }

  // A listed version's line and directory entry are on disk already; one not listed is about to get a new
  // file, or has one whose entry is on disk, or the history is new and syncs the directory in time.
  predicate RecordHolds(fs: Fs<Doc>, version: string) {
    if version in LinesOf(fs, FAILED) then FAILED in fs.disk && LineOnDisk(fs, version)
    else FAILED !in fs.dir || FAILED in fs.disk || HISTORY !in fs.dir
  }

  ghost predicate AllList(allowed: set<Option<Doc>>, version: string) {
    forall c :: c in allowed ==> c.Some? && c.value.Lines? && version in c.value.lines
  }

  lemma FailedBoundTo(fs: Fs<Doc>, who: Option<nat>)
    requires OnlyMade(fs, FAILED) && CanBe(fs, FAILED, who)
    ensures who.None? || (FAILED in fs.dir && who == Some(fs.dir[FAILED]))
    ensures FAILED in fs.disk ==> who.Some?
  {
  }

  // --- before the save ---

  lemma MarkCarries(fs: Fs<Doc>, inst: Installed)
    requires InOrder(fs, inst)
    ensures AllSafe(AppendLog(fs, FAILED, inst.version), STATE, {Some(Json(Some(inst)))})
    ensures HISTORY in fs.dir ==> Apart(Last(AppendLog(fs, FAILED, inst.version)), STATE, fs.dir[HISTORY])
  {
    NamesDiffer();
    SeenIsOwn(fs);
    AppendKeeps(fs, FAILED, inst.version, STATE, {Some(Json(Some(inst)))});
    if HISTORY in fs.dir {
      AppendStaysApart(fs, FAILED, inst.version, STATE, fs.dir[HISTORY]);
    }
  }

  lemma ResultCarries(fs: Fs<Doc>, inst: Installed, why: string)
    requires Orderly(fs) && Safe(fs, STATE, {Some(Json(Some(inst)))})
    requires HISTORY in fs.dir ==> Apart(fs, STATE, fs.dir[HISTORY])
    ensures var result := WriteAtomicLog(fs, LAST_RESULT, Lines([why]));
            && AllSafe(result, STATE, {Some(Json(Some(inst)))})
            && (HISTORY in Last(result).dir ==>
                  && HISTORY in fs.dir && Last(result).dir[HISTORY] == fs.dir[HISTORY]
                  && Apart(Last(result), STATE, fs.dir[HISTORY]))
  {
    NamesDiffer();
    SeenIsOwn(fs);
    WriteAtomicKeeps(fs, LAST_RESULT, Lines([why]), STATE, {Some(Json(Some(inst)))});
    WriteAtomicKeepsName(fs, LAST_RESULT, Lines([why]), HISTORY);
    if HISTORY in fs.dir {
      WriteAtomicStaysApart(fs, LAST_RESULT, Lines([why]), STATE, fs.dir[HISTORY]);
    }
  }

  // Until the save, every state carries the install.
  lemma RecordCarries(fs: Fs<Doc>, inst: Installed, why: string)
    requires InOrder(fs, inst)
    ensures AllSafe(RecordLog(fs, inst.version, why), STATE, {Some(Json(Some(inst)))})
    ensures Safe(Recording(fs, inst.version, why), STATE, {Some(Json(Some(inst)))})
  {
    if inst.version !in LinesOf(fs, FAILED) {
      NamesDiffer();
      var carried: set<Option<Doc>> := {Some(Json(Some(inst)))};
      var mark := AppendLog(fs, FAILED, inst.version);
      var result := WriteAtomicLog(Last(mark), LAST_RESULT, Lines([why]));
      OrderlyAppend(fs, FAILED, inst.version);
      MarkCarries(fs, inst);
      AppendKeepsName(fs, FAILED, inst.version, HISTORY);
      ResultCarries(Last(mark), inst, why);
      OrderlyWriteAtomic(Last(mark), LAST_RESULT, Lines([why]));
      AppendKeeps(Last(result), HISTORY, why, STATE, carried);
      AllSafeJoined(mark, result, STATE, carried);
      AllSafeJoined(mark + result, AppendLog(Last(result), HISTORY, why), STATE, carried);
    }
  }

  // --- what the record is worth when the save starts ---

  function Marked(fs: Fs<Doc>, version: string): Option<Doc> {
    Some(Lines(LinesOf(fs, FAILED) + [version]))
  }

  lemma FailedIsNotHistory(fs: Fs<Doc>)
    requires Orderly(fs) && OnlyMade(fs, FAILED) && HISTORY in fs.dir
    ensures Apart(fs, FAILED, fs.dir[HISTORY])
  {
    NamesDiffer();
    SeenIsOwn(fs);
    if CanBe(fs, FAILED, Some(fs.dir[HISTORY])) {
      FailedBoundTo(fs, Some(fs.dir[HISTORY]));
    }
  }

  // The line itself is on disk after the mark; the entry, too, unless it was there to see but not on disk.
  lemma MarkLands(fs: Fs<Doc>, version: string)
    requires Orderly(fs) && OnlyMade(fs, FAILED)
    ensures var end := Last(AppendLog(fs, FAILED, version));
            && Safe(end, FAILED, {None, Marked(fs, version)})
            && (FAILED !in fs.dir || FAILED in fs.disk ==> Safe(end, FAILED, {Marked(fs, version)}))
            && (HISTORY in fs.dir ==> Apart(end, FAILED, fs.dir[HISTORY]))
  {
    SeenIsOwn(fs);
    NamesDiffer();
    if FAILED in fs.dir {
      MarkExisting(fs, version);
    } else {
      assert Safe(fs, FAILED, {None});
      AppendToNew(fs, FAILED, version);
    }
    if HISTORY in fs.dir {
      FailedIsNotHistory(fs);
      AppendStaysApart(fs, FAILED, version, FAILED, fs.dir[HISTORY]);
    }
  }

  lemma MarkExisting(fs: Fs<Doc>, version: string)
    requires Numbered(fs) && fs.kind == Ext4 && OnlyMade(fs, FAILED) && Exists(fs, FAILED)
    ensures var end := Last(AppendLog(fs, FAILED, version));
            && Safe(end, FAILED, {None, Marked(fs, version)})
            && (FAILED in fs.disk ==> Safe(end, FAILED, {Marked(fs, version)}))
  {
    var log := AppendLog(fs, FAILED, version);
    var i := fs.dir[FAILED];
    forall who | CanBe(log[1], FAILED, who)
      ensures (who.None? && FAILED !in fs.disk) || who == Some(i)
    {
      assert CanBe(fs, FAILED, who);
      FailedBoundTo(fs, who);
    }
  }

  // The result's file leaves the record as it is.
  lemma ResultLeavesRecord(fs: Fs<Doc>, why: string, allowed: set<Option<Doc>>)
    requires Orderly(fs) && Safe(fs, FAILED, allowed) && (HISTORY in fs.dir ==> Apart(fs, FAILED, fs.dir[HISTORY]))
    ensures var end := Last(WriteAtomicLog(fs, LAST_RESULT, Lines([why])));
            && Orderly(end) && Safe(end, FAILED, allowed) && end.disk == fs.disk
            && Lookup(end.dir, FAILED) == Lookup(fs.dir, FAILED) && Lookup(end.dir, HISTORY) == Lookup(fs.dir, HISTORY)
            && (HISTORY in fs.dir ==> Apart(end, FAILED, fs.dir[HISTORY]))
  {
    NamesDiffer();
    SeenIsOwn(fs);
    OrderlyWriteAtomic(fs, LAST_RESULT, Lines([why]));
    WriteAtomicKeeps(fs, LAST_RESULT, Lines([why]), FAILED, allowed);
    WriteAtomicKeepsName(fs, LAST_RESULT, Lines([why]), FAILED);
    WriteAtomicKeepsName(fs, LAST_RESULT, Lines([why]), HISTORY);
    if HISTORY in fs.dir {
      WriteAtomicStaysApart(fs, LAST_RESULT, Lines([why]), FAILED, fs.dir[HISTORY]);
    }
  }

  // So does the history's line - and a new history syncs the directory.
  lemma HistoryLeavesRecord(fs: Fs<Doc>, why: string, allowed: set<Option<Doc>>)
    requires Orderly(fs) && Safe(fs, FAILED, allowed) && (HISTORY in fs.dir ==> Apart(fs, FAILED, fs.dir[HISTORY]))
    ensures var end := Last(AppendLog(fs, HISTORY, why));
            && Orderly(end) && Safe(end, FAILED, allowed)
            && (HISTORY in fs.dir ==> end.disk == fs.disk)
            && (HISTORY !in fs.dir && FAILED in fs.dir ==> !CanBe(end, FAILED, None))
  {
    NamesDiffer();
    SeenIsOwn(fs);
    OrderlyAppend(fs, HISTORY, why);
    AppendKeeps(fs, HISTORY, why, FAILED, allowed);
    AppendKeepsName(fs, HISTORY, why, FAILED);
    var log := AppendLog(fs, HISTORY, why);
    if HISTORY !in fs.dir {
      assert Orderly(log[2]) && log[3].disk == log[2].dir && log[3].pending == [];
    }
  }

  lemma OnlyWhenListed(fs: Fs<Doc>, marked: Option<Doc>)
    requires Safe(fs, FAILED, {None, marked}) && marked.Some? && !CanBe(fs, FAILED, None)
    ensures Safe(fs, FAILED, {marked})
  {
  }

  // What a power cut can take an inode back to.
  function Befores(node: Node<Doc>): set<Option<Doc>> {
    if node.fate.Appended? then set b | b in node.fate.befores :: Some(b) else {}
  }

  // What failed-versions can come out as after a power cut, if the record holds.
  function Outcomes(fs: Fs<Doc>, version: string): set<Option<Doc>>
    requires FAILED in fs.dir ==> fs.dir[FAILED] in fs.nodes
  {
    if version in LinesOf(fs, FAILED) && FAILED in fs.dir then
      var node := fs.nodes[fs.dir[FAILED]];
      {Some(node.now)} + Befores(node)
    else {Marked(fs, version)}
  }

  lemma ListedHolds(fs: Fs<Doc>, version: string)
    requires Orderly(fs) && OnlyMade(fs, FAILED) && version in LinesOf(fs, FAILED) && RecordHolds(fs, version)
    ensures Safe(fs, FAILED, Outcomes(fs, version)) && AllList(Outcomes(fs, version), version)
  {
    forall who | CanBe(fs, FAILED, who) ensures who == Some(fs.dir[FAILED]) {
      FailedBoundTo(fs, who);
    }
  }

  lemma ListedNeedsNoRecord(fs: Fs<Doc>, version: string, why: string)
    requires version in LinesOf(fs, FAILED)
    ensures Recording(fs, version, why) == fs && FAILED in fs.dir && fs.dir[FAILED] in fs.nodes
  {
  }

  lemma RecordedForGood(fs: Fs<Doc>, version: string, why: string)
    requires Orderly(fs) && OnlyMade(fs, FAILED) && RecordHolds(fs, version)
    requires FAILED in fs.dir ==> fs.dir[FAILED] in fs.nodes
    ensures Safe(Recording(fs, version, why), FAILED, Outcomes(fs, version))
    ensures AllList(Outcomes(fs, version), version)
  {
    if version in LinesOf(fs, FAILED) {
      ListedNeedsNoRecord(fs, version, why);
      ListedHolds(fs, version);
    } else {
      NewLineLands(fs, version, why);
    }
  }

  lemma NewLineLands(fs: Fs<Doc>, version: string, why: string)
    requires Orderly(fs) && OnlyMade(fs, FAILED) && version !in LinesOf(fs, FAILED) && RecordHolds(fs, version)
    ensures Safe(Recording(fs, version, why), FAILED, {Marked(fs, version)})
  {
    var mark := AppendLog(fs, FAILED, version);
    var result := WriteAtomicLog(Last(mark), LAST_RESULT, Lines([why]));
    var marked := Marked(fs, version);
    var allowed := if FAILED !in fs.dir || FAILED in fs.disk then {marked} else {None, marked};
    NamesDiffer();
    SeenIsOwn(fs);
    MarkLands(fs, version);
    OrderlyAppend(fs, FAILED, version);
    AppendKeepsName(fs, FAILED, version, HISTORY);
    ResultLeavesRecord(Last(mark), why, allowed);
    HistoryLeavesRecord(Last(result), why, allowed);
    var end := Last(AppendLog(Last(result), HISTORY, why));
    Joined(mark + result, AppendLog(Last(result), HISTORY, why));
    assert Recording(fs, version, why) == end;
    if FAILED in fs.dir && FAILED !in fs.disk {
      assert Lookup(Last(mark).dir, FAILED) == Lookup(fs.dir, FAILED);
      OnlyWhenListed(end, Marked(fs, version));
    }
  }

  // --- and what can be lost ---

  ghost function Worst(node: Node<Doc>, version: string): Node<Doc> {
    match node.fate
    case Synced => node
    case Appended(befores) =>
      if b :| b in befores && !(b.Lines? && version in b.lines) then Node(b, Synced) else Node(node.now, Synced)
    case Torn => Node(Lines([]), Synced)
  }

  // The power cut that keeps nothing it need not keep.
  ghost function WorstCut(fs: Fs<Doc>, version: string): Fs<Doc> {
    Fs(fs.kind, fs.disk, fs.disk, [], map i | i in fs.nodes :: Worst(fs.nodes[i], version), fs.next)
  }

  lemma WorstCutCanHappen(fs: Fs<Doc>, version: string)
    ensures AfterPowerCut(fs, WorstCut(fs, version))
  {
    var left := WorstCut(fs, version);
    NoneSurvives(fs.disk, fs.pending);
    assert left.nodes.Keys == fs.nodes.Keys;
    LeftIsAfterPowerCut(fs, left, seq(|fs.pending|, _ => false));
  }

  lemma ListedCanBeLost(fs: Fs<Doc>, version: string)
    requires OnlyMade(fs, FAILED) && version in LinesOf(fs, FAILED) && !RecordHolds(fs, version)
    ensures version !in LinesOf(WorstCut(fs, version), FAILED)
  {
  }

  // The entry that is there to see but not on disk stays so: no directory sync comes before the save.
  lemma UnsyncedStaysUnsynced(fs: Fs<Doc>, version: string, why: string)
    requires Orderly(fs) && OnlyMade(fs, FAILED) && version !in LinesOf(fs, FAILED) && !RecordHolds(fs, version)
    ensures FAILED !in Recording(fs, version, why).disk
  {
    var mark := AppendLog(fs, FAILED, version);
    var result := WriteAtomicLog(Last(mark), LAST_RESULT, Lines([why]));
    NamesDiffer();
    SeenIsOwn(fs);
    MarkLands(fs, version);
    OrderlyAppend(fs, FAILED, version);
    AppendKeepsName(fs, FAILED, version, HISTORY);
    ResultLeavesRecord(Last(mark), why, {None, Marked(fs, version)});
    HistoryLeavesRecord(Last(result), why, {None, Marked(fs, version)});
    Joined(mark + result, AppendLog(Last(result), HISTORY, why));
  }

  lemma RecordCanBeLost(fs: Fs<Doc>, version: string, why: string)
    requires Orderly(fs) && OnlyMade(fs, FAILED) && !RecordHolds(fs, version)
    ensures AfterPowerCut(Recording(fs, version, why), WorstCut(Recording(fs, version, why), version))
    ensures version !in LinesOf(WorstCut(Recording(fs, version, why), version), FAILED)
  {
    WorstCutCanHappen(Recording(fs, version, why), version);
    if version in LinesOf(fs, FAILED) {
      ListedNeedsNoRecord(fs, version, why);
      ListedCanBeLost(fs, version);
    } else {
      UnsyncedStaysUnsynced(fs, version, why);
    }
  }

  // --- trial_outcome loses nothing, exactly when ---

  ghost predicate NothingLost(log: seq<Fs<Doc>>, inst: Installed) {
    forall i :: 0 <= i < |log| ==> KnownAfter(log[i], inst)
  }

  lemma KnownWhileCarried(fs: Fs<Doc>, inst: Installed)
    requires Safe(fs, STATE, {Some(Json(Some(inst)))})
    ensures KnownAfter(fs, inst)
  {
    forall left | AfterPowerCut(fs, left) ensures StillKnown(left, inst) {
      SafeMeansSafe(fs, left, STATE, {Some(Json(Some(inst)))});
    }
  }

  lemma OnlyTheEndMatters(record: seq<Fs<Doc>>, save: seq<Fs<Doc>>, inst: Installed)
    requires |save| == 4 && AllSafe(record, STATE, {Some(Json(Some(inst)))})
    requires forall i :: 0 <= i < 3 ==> Safe(save[i], STATE, {Some(Json(Some(inst)))})
    ensures NothingLost(record + save, inst) <==> KnownAfter(save[3], inst)
  {
    var log := record + save;
    forall i | 0 <= i < |log| - 1 ensures KnownAfter(log[i], inst) {
      assert log[i] == if i < |record| then record[i] else save[i - |record|];
      KnownWhileCarried(log[i], inst);
    }
    assert log[|log| - 1] == save[3];
  }

  lemma RecordOutlivesIff(fs: Fs<Doc>, version: string, why: string)
    requires Orderly(fs) && OnlyMade(fs, FAILED)
    ensures ListedAfter(Recording(fs, version, why), version) <==> RecordHolds(fs, version)
  {
    if RecordHolds(fs, version) {
      SeenIsOwn(fs);
      RecordedForGood(fs, version, why);
      forall left | AfterPowerCut(Recording(fs, version, why), left) ensures version in LinesOf(left, FAILED) {
        SafeMeansSafe(Recording(fs, version, why), left, FAILED, Outcomes(fs, version));
      }
    } else {
      RecordCanBeLost(fs, version, why);
    }
  }

  lemma SaveCarries(fs: Fs<Doc>, inst: Installed, why: string)
    requires InOrder(fs, inst)
    ensures var save := WriteAtomicLog(Recording(fs, inst.version, why), STATE, Json(None));
            && (forall i :: 0 <= i < 3 ==> Safe(save[i], STATE, {Some(Json(Some(inst)))}))
            && save[3] == Last(save) && Orderly(Recording(fs, inst.version, why))
  {
    RecordCarries(fs, inst, why);
    OrderlyThroughout(fs, inst.version, why);
    WriteAtomicLands(Recording(fs, inst.version, why), STATE, Json(None), {Some(Json(Some(inst)))});
  }

  lemma LogIsRecordAndSave(fs: Fs<Doc>, version: string, why: string)
    ensures EndedTrialLog(fs, version, why)
            == RecordLog(fs, version, why) + WriteAtomicLog(Recording(fs, version, why), STATE, Json(None))
  {
  }

  // No power cut at any state of trial_outcome loses the trial, whatever subset of the unsynced changes
  // it keeps, if and only if the record holds in the state trial_outcome is called in.
  lemma NothingIsLostIff(fs: Fs<Doc>, inst: Installed, why: string)
    requires InOrder(fs, inst)
    ensures NothingLost(EndedTrialLog(fs, inst.version, why), inst) <==> RecordHolds(fs, inst.version)
  {
    RecordCarries(fs, inst, why);
    SaveCarries(fs, inst, why);
    LogIsRecordAndSave(fs, inst.version, why);
    OnlyTheEndMatters(RecordLog(fs, inst.version, why),
                      WriteAtomicLog(Recording(fs, inst.version, why), STATE, Json(None)), inst);
    SaveIsSafeIff(Recording(fs, inst.version, why), inst);
    RecordOutlivesIff(fs, inst.version, why);
  }

  // --- the states that fail ---

  lemma MarkKeepsApart(fs: Fs<Doc>, inst: Installed, ino: nat)
    requires InOrder(fs, inst) && ino < fs.next && Apart(fs, STATE, ino)
    ensures forall at :: at in AppendLog(fs, FAILED, inst.version) ==> Apart(at, STATE, ino)
  {
    NamesDiffer();
    var log := AppendLog(fs, FAILED, inst.version);
    if Exists(fs, FAILED) {
      assert CanBe(log[0], STATE, Some(ino)) == CanBe(log[1], STATE, Some(ino)) == CanBe(fs, STATE, Some(ino));
    } else {
      PendingSnoc(fs, log[0], Bind(FAILED, fs.next), STATE, Some(ino));
      assert CanBe(log[2], STATE, Some(ino)) == CanBe(log[1], STATE, Some(ino)) == CanBe(log[0], STATE, Some(ino));
      SyncsOnlyNarrow(log[2], fs.next, STATE, Some(ino));
    }
  }

  lemma NewMarkIsApart(fs: Fs<Doc>, inst: Installed)
    requires InOrder(fs, inst) && FAILED !in fs.dir
    ensures forall at :: at in AppendLog(fs, FAILED, inst.version) ==> Apart(at, STATE, fs.next)
  {
    NamesDiffer();
    var log := AppendLog(fs, FAILED, inst.version);
    CreateKeeps(fs, FAILED, Lines([]), STATE, {Some(Json(Some(inst)))});
    var it := Some(fs.next);
    assert CanBe(log[2], STATE, it) == CanBe(log[1], STATE, it) == CanBe(log[0], STATE, it);
    SyncsOnlyNarrow(log[2], fs.next, STATE, it);
  }

  // The states of the mark: on a file that is there, and on a new one.
  lemma ExistingMark(fs: Fs<Doc>, version: string, k: nat)
    requires Exists(fs, FAILED) && fs.kind == Ext4 && k < 2
    ensures |AppendLog(fs, FAILED, version)| == 2
    ensures var at, i := AppendLog(fs, FAILED, version)[k], fs.dir[FAILED];
            && at.dir == fs.dir && at.disk == fs.disk && at.pending == fs.pending
            && FAILED in at.dir && i in at.nodes && at.nodes[i].now == Lines(LinesOf(fs, FAILED) + [version])
            && (k == 0 ==> at.nodes[i].fate == AfterAppend(fs.nodes[i]))
            && (k == 1 ==> at.nodes[i].fate == Synced)
  {
  }

  lemma NewMark(fs: Fs<Doc>, version: string, k: nat)
    requires FAILED !in fs.dir && fs.kind == Ext4 && k < 4 && Coherent(fs)
    ensures |AppendLog(fs, FAILED, version)| == 4
    ensures var at := AppendLog(fs, FAILED, version)[k];
            && at.dir == fs.dir[FAILED := fs.next]
            && (k < 3 ==> at.disk == fs.disk && at.pending == fs.pending + [Bind(FAILED, fs.next)])
            && (k == 3 ==> at.disk == at.dir && at.pending == [])
            && fs.next in at.nodes
            && at.nodes[fs.next] == Node(Lines(if k == 0 then [] else [version]),
                                         if k == 1 then Appended([Lines([])]) else Synced)
  {
    var created := CreateEmpty(fs, FAILED, Lines([]));
    CoherentAfterOne(fs, Bind(FAILED, fs.next), created);
    assert LinesOf(fs, FAILED) + [version] == [version];
  }

  lemma OnlyMadeNow(fs: Fs<Doc>, ino: nat, at: Fs<Doc>)
    requires OnlyMade(fs, FAILED) && FAILED !in fs.dir && at.dir == fs.dir[FAILED := ino]
    requires || (at.disk == fs.disk && at.pending == fs.pending + [Bind(FAILED, ino)])
             || (at.disk == at.dir && at.pending == [])
    ensures OnlyMade(at, FAILED)
  {
  }

  lemma MarkOnlyMakes(fs: Fs<Doc>, version: string, k: nat)
    requires Orderly(fs) && OnlyMade(fs, FAILED) && k < |AppendLog(fs, FAILED, version)|
    requires FAILED in fs.dir ==> fs.dir[FAILED] in fs.nodes
    ensures OnlyMade(AppendLog(fs, FAILED, version)[k], FAILED)
  {
    if FAILED in fs.dir {
      ExistingMark(fs, version, 0);
      ExistingMark(fs, version, k);
    } else {
      NewMark(fs, version, 0);
      NewMark(fs, version, k);
      OnlyMadeNow(fs, fs.next, AppendLog(fs, FAILED, version)[k]);
    }
  }

  lemma InterruptedInOrder(fs: Fs<Doc>, inst: Installed, k: nat)
    requires InOrder(fs, inst) && k < |AppendLog(fs, FAILED, inst.version)|
    requires FAILED in fs.dir ==> fs.dir[FAILED] in fs.nodes
    requires HISTORY in fs.dir ==> fs.dir[HISTORY] in fs.nodes
    ensures InOrder(AppendLog(fs, FAILED, inst.version)[k], inst)
  {
    var log := AppendLog(fs, FAILED, inst.version);
    assert log[k] in log;
    OrderlyAppend(fs, FAILED, inst.version);
    MarkOnlyMakes(fs, inst.version, k);
    MarkCarries(fs, inst);
    MarkStaysApart(fs, inst, k);
  }

  lemma MarkStaysApart(fs: Fs<Doc>, inst: Installed, k: nat)
    requires InOrder(fs, inst) && k < |AppendLog(fs, FAILED, inst.version)|
    requires FAILED in fs.dir ==> fs.dir[FAILED] in fs.nodes
    requires HISTORY in fs.dir ==> fs.dir[HISTORY] in fs.nodes
    ensures var at := AppendLog(fs, FAILED, inst.version)[k];
            && (FAILED in at.dir ==> Apart(at, STATE, at.dir[FAILED]))
            && (HISTORY in at.dir ==> Apart(at, STATE, at.dir[HISTORY]))
  {
    NamesDiffer();
    var log := AppendLog(fs, FAILED, inst.version);
    assert log[k] in log;
    if FAILED in fs.dir {
      ExistingMark(fs, inst.version, 0);
      ExistingMark(fs, inst.version, k);
      MarkKeepsApart(fs, inst, fs.dir[FAILED]);
    } else {
      NewMark(fs, inst.version, 0);
      NewMark(fs, inst.version, k);
      NewMarkIsApart(fs, inst);
    }
    if HISTORY in fs.dir {
      MarkKeepsApart(fs, inst, fs.dir[HISTORY]);
    }
  }

  // A run that is ended inside mark_failed - not by a power cut, which would undo the rest - leaves the
  // next run a state in which the record does not hold: the file open but empty, the line there to see
  // but not synced, or its directory entry not synced. It holds only once the append is through, or if
  // the next run still has a history to create; and for a file that was there, only if its entry was
  // on disk.
  lemma EndedInsideMark(fs: Fs<Doc>, inst: Installed, k: nat)
    requires InOrder(fs, inst) && inst.version !in LinesOf(fs, FAILED)
    requires k < |AppendLog(fs, FAILED, inst.version)|
    ensures var at := AppendLog(fs, FAILED, inst.version)[k];
            && InOrder(at, inst)
            && (RecordHolds(at, inst.version) <==>
                  if FAILED in fs.dir then k == 1 && FAILED in fs.disk else k == 3 || (k == 0 && HISTORY !in fs.dir))
  {
    NamesDiffer();
    SeenIsOwn(fs);
    InterruptedInOrder(fs, inst, k);
    InterruptedHolds(fs, inst.version, k);
  }

  lemma InterruptedHolds(fs: Fs<Doc>, version: string, k: nat)
    requires Orderly(fs) && OnlyMade(fs, FAILED) && version !in LinesOf(fs, FAILED)
    requires FAILED in fs.dir ==> fs.dir[FAILED] in fs.nodes
    requires k < |AppendLog(fs, FAILED, version)|
    ensures RecordHolds(AppendLog(fs, FAILED, version)[k], version) <==>
              if FAILED in fs.dir then k == 1 && FAILED in fs.disk else k == 3 || (k == 0 && HISTORY !in fs.dir)
  {
    NamesDiffer();
    var at := AppendLog(fs, FAILED, version)[k];
    if FAILED in fs.dir {
      ExistingMark(fs, version, 0);
      ExistingMark(fs, version, k);
      assert LinesOf(at, FAILED) == LinesOf(fs, FAILED) + [version];
    } else {
      NewMark(fs, version, 0);
      NewMark(fs, version, k);
      assert LinesOf(at, FAILED) == if k == 0 then [] else [version];
    }
  }

  // --- running it again ---

  lemma LeftInOrder(at: Fs<Doc>, left: Fs<Doc>, inst: Installed)
    requires Orderly(at) && AfterPowerCut(at, left) && Content(left, STATE) == Some(Json(Some(inst)))
    ensures InOrder(left, inst) && RecordHolds(left, inst.version)
  {
    NamesDiffer();
    var keep: seq<bool> :| |keep| == |at.pending| && left.dir == Survive(at.disk, at.pending, keep);
    assert OwnDir(left.dir, at.nodes);
    assert OwnDir(left.dir, left.nodes);
    NumberedByKeys(at, left);
    forall name, who ensures CanBe(left, name, who) <==> Lookup(left.dir, name) == who { }
  }

  // From left trial_outcome can start again, loses nothing whatever then happens, and ends with the
  // version recorded once, for good, and the install gone.
  ghost predicate Completes(left: Fs<Doc>, inst: Installed, why: string) {
    var log := EndedTrialLog(left, inst.version, why);
    && InOrder(left, inst) && NothingLost(log, inst)
    && Content(Last(log), STATE) == Some(Json(None))
    && Safe(Last(log), FAILED, {Some(Lines(Recorded(LinesOf(left, FAILED), inst)))})
  }

  lemma EndsRecorded(fs: Fs<Doc>, inst: Installed, why: string, line: Option<Doc>)
    requires InOrder(fs, inst) && Safe(Recording(fs, inst.version, why), FAILED, {line})
    ensures var log := EndedTrialLog(fs, inst.version, why);
            Content(Last(log), STATE) == Some(Json(None)) && Safe(Last(log), FAILED, {line})
  {
    var at := Recording(fs, inst.version, why);
    NamesDiffer();
    SaveCarries(fs, inst, why);
    RecordCarries(fs, inst, why);
    LogIsRecordAndSave(fs, inst.version, why);
    WriteAtomicLands(at, STATE, Json(None), {Some(Json(Some(inst)))});
    WriteAtomicKeeps(at, STATE, Json(None), FAILED, {line});
    Joined(RecordLog(fs, inst.version, why), WriteAtomicLog(at, STATE, Json(None)));
  }

  lemma AtRestAfterCut(at: Fs<Doc>, left: Fs<Doc>, version: string)
    requires AfterPowerCut(at, left) && (FAILED in left.dir ==> left.dir[FAILED] in left.nodes)
    ensures Outcomes(left, version)
            == {Some(Lines(if version in LinesOf(left, FAILED) then LinesOf(left, FAILED)
                           else LinesOf(left, FAILED) + [version]))}
  {
  }

  lemma RerunFrom(at: Fs<Doc>, left: Fs<Doc>, inst: Installed, why: string)
    requires Orderly(at) && AfterPowerCut(at, left) && Content(left, STATE) == Some(Json(Some(inst)))
    ensures Completes(left, inst, why)
  {
    var line := Some(Lines(Recorded(LinesOf(left, FAILED), inst)));
    LeftInOrder(at, left, inst);
    SeenIsOwn(left);
    AtRestAfterCut(at, left, inst.version);
    RecordedForGood(left, inst.version, why);
    EndsRecorded(left, inst, why, line);
    NothingIsLostIff(left, inst, why);
  }

  // Rerunning completes it: whatever a power cut leaves of whichever state of trial_outcome, if it still
  // carries the install.
  lemma RerunCompletes(fs: Fs<Doc>, inst: Installed, why: string)
    requires InOrder(fs, inst)
    ensures var log := EndedTrialLog(fs, inst.version, why);
            forall i, left ::
              (0 <= i < |log| && AfterPowerCut(log[i], left) && Content(left, STATE) == Some(Json(Some(inst)))) ==>
                Completes(left, inst, why)
  {
    var log := EndedTrialLog(fs, inst.version, why);
    OrderlyThroughout(fs, inst.version, why);
    forall i, left | 0 <= i < |log| && AfterPowerCut(log[i], left) && Content(left, STATE) == Some(Json(Some(inst)))
      ensures Completes(left, inst, why)
    {
      RerunFrom(log[i], left, inst, why);
    }
  }

  // --- the line is added at most once ---

  // The content of failed-versions is on disk, but for lines appended since.
  predicate OnlyAppended(fs: Fs<Doc>) {
    FAILED in fs.dir ==> fs.dir[FAILED] in fs.nodes && !fs.nodes[fs.dir[FAILED]].fate.Torn?
  }

  function Unsynced(fs: Fs<Doc>): set<Option<Doc>> {
    if Exists(fs, FAILED) then Befores(fs.nodes[fs.dir[FAILED]]) else {}
  }

  // What failed-versions may come out as: what it holds or is to hold, and what an entry or lines that are
  // not on disk yet take away.
  function Listings(fs: Fs<Doc>, version: string): set<Option<Doc>> {
    {Content(fs, FAILED)}
    + (if version in LinesOf(fs, FAILED) then {} else {Marked(fs, version)})
    + (if FAILED in fs.disk then {} else {None, Some(Lines([]))})
    + Unsynced(fs)
  }

  // The lines that are left if it does: none without the entry, those below without the unsynced ones.
  function Reduced(fs: Fs<Doc>): set<seq<string>> {
    (if FAILED in fs.disk then {} else {[]}) + (set c | c in Unsynced(fs) :: LinesIn(c))
  }

  // What failed-versions is bound to, and holds, in the states of the mark.
  lemma MarkListings(fs: Fs<Doc>, version: string, k: nat)
    requires Orderly(fs) && OnlyMade(fs, FAILED) && k < |AppendLog(fs, FAILED, version)|
    requires OnlyAppended(fs) && version !in LinesOf(fs, FAILED)
    ensures Safe(AppendLog(fs, FAILED, version)[k], FAILED, Listings(fs, version))
  {
    MarkOnlyMakes(fs, version, k);
    if FAILED in fs.dir {
      OldMarkListings(fs, version, k);
    } else {
      NewMarkListings(fs, version, k);
    }
  }

  lemma OldMarkListings(fs: Fs<Doc>, version: string, k: nat)
    requires Orderly(fs) && FAILED in fs.dir && k < |AppendLog(fs, FAILED, version)|
    requires OnlyMade(AppendLog(fs, FAILED, version)[k], FAILED)
    requires OnlyAppended(fs) && version !in LinesOf(fs, FAILED)
    ensures Safe(AppendLog(fs, FAILED, version)[k], FAILED, Listings(fs, version))
  {
    var at := AppendLog(fs, FAILED, version)[k];
    ExistingMark(fs, version, 0);
    ExistingMark(fs, version, k);
    forall who | CanBe(at, FAILED, who) ensures (who.None? && FAILED !in fs.disk) || who == Some(at.dir[FAILED]) {
      FailedBoundTo(at, who);
    }
  }

  lemma NewMarkListings(fs: Fs<Doc>, version: string, k: nat)
    requires Orderly(fs) && OnlyMade(fs, FAILED) && FAILED !in fs.dir && k < |AppendLog(fs, FAILED, version)|
    requires OnlyMade(AppendLog(fs, FAILED, version)[k], FAILED)
    ensures Safe(AppendLog(fs, FAILED, version)[k], FAILED, Listings(fs, version))
  {
    NewMark(fs, version, 0);
    NewMark(fs, version, k);
    ListingsOfNone(fs, version);
    NewFileListings(AppendLog(fs, FAILED, version)[k], fs.next, version, k, Listings(fs, version));
  }

  lemma ListingsOfNone(fs: Fs<Doc>, version: string)
    requires OnlyMade(fs, FAILED) && FAILED !in fs.dir
    ensures {None, Some(Lines([])), Some(Lines([version]))} <= Listings(fs, version)
  {
    assert LinesOf(fs, FAILED) + [version] == [version];
  }

  lemma NewFileListings(at: Fs<Doc>, ino: nat, version: string, k: nat, allowed: set<Option<Doc>>)
    requires OnlyMade(at, FAILED) && FAILED in at.dir && at.dir[FAILED] == ino && ino in at.nodes
    requires at.nodes[ino] == Node(Lines(if k == 0 then [] else [version]),
                                   if k == 1 then Appended([Lines([])]) else Synced)
    requires {None, Some(Lines([])), Some(Lines([version]))} <= allowed
    ensures Safe(at, FAILED, allowed)
  {
    forall who | CanBe(at, FAILED, who) ensures who.None? || who == Some(ino) {
      FailedBoundTo(at, who);
    }
  }

  // The record is the mark and then the note.
  function NoteLog(fs: Fs<Doc>, version: string, why: string): (log: seq<Fs<Doc>>)
    ensures log != []
  {
    var result := WriteAtomicLog(Last(AppendLog(fs, FAILED, version)), LAST_RESULT, Lines([why]));
    result + AppendLog(Last(result), HISTORY, why)
  }

  // After the mark nothing touches the record.
  lemma NoteKeepsRecord(fs: Fs<Doc>, version: string, why: string, allowed: set<Option<Doc>>)
    requires Orderly(fs) && OnlyMade(fs, FAILED)
    requires allowed == if FAILED in fs.disk then {Marked(fs, version)} else {None, Marked(fs, version)}
    ensures AllSafe(NoteLog(fs, version, why), FAILED, allowed)
  {
    var mark := AppendLog(fs, FAILED, version);
    var result := WriteAtomicLog(Last(mark), LAST_RESULT, Lines([why]));
    NamesDiffer();
    OrderlyAppend(fs, FAILED, version);
    MarkLands(fs, version);
    AppendKeepsName(fs, FAILED, version, HISTORY);
    WriteAtomicKeeps(Last(mark), LAST_RESULT, Lines([why]), FAILED, allowed);
    ResultLeavesRecord(Last(mark), why, allowed);
    AppendKeeps(Last(result), HISTORY, why, FAILED, allowed);
    AllSafeJoined(result, AppendLog(Last(result), HISTORY, why), FAILED, allowed);
  }

  lemma RecordIsMarkAndNote(fs: Fs<Doc>, version: string, why: string)
    requires version !in LinesOf(fs, FAILED)
    ensures RecordLog(fs, version, why) == AppendLog(fs, FAILED, version) + NoteLog(fs, version, why)
    ensures Recording(fs, version, why) == Last(RecordLog(fs, version, why))
  {
    var mark := AppendLog(fs, FAILED, version);
    var result := WriteAtomicLog(Last(mark), LAST_RESULT, Lines([why]));
    assert mark + result + AppendLog(Last(result), HISTORY, why) == mark + NoteLog(fs, version, why);
  }

  lemma RecordListings(fs: Fs<Doc>, version: string, why: string)
    requires Orderly(fs) && OnlyMade(fs, FAILED) && version !in LinesOf(fs, FAILED) && OnlyAppended(fs)
    ensures AllSafe(RecordLog(fs, version, why), FAILED, Listings(fs, version))
    ensures Safe(Recording(fs, version, why), FAILED, Listings(fs, version))
  {
    var allowed := Listings(fs, version);
    var marked := if FAILED in fs.disk then {Marked(fs, version)} else {None, Marked(fs, version)};
    var mark, note := AppendLog(fs, FAILED, version), NoteLog(fs, version, why);
    forall k | 0 <= k < |mark| ensures Safe(mark[k], FAILED, allowed) {
      MarkListings(fs, version, k);
    }
    NoteKeepsRecord(fs, version, why, marked);
    SafeWiden(note, FAILED, marked, allowed);
    AllSafeJoined(mark, note, FAILED, allowed);
    RecordIsMarkAndNote(fs, version, why);
  }

  lemma ListedListings(fs: Fs<Doc>, version: string)
    requires OnlyMade(fs, FAILED) && OnlyAppended(fs) && version in LinesOf(fs, FAILED)
    ensures Safe(fs, FAILED, Listings(fs, version))
  {
    forall who | CanBe(fs, FAILED, who)
      ensures (who.None? && FAILED !in fs.disk) || (FAILED in fs.dir && who == Some(fs.dir[FAILED]))
    {
      FailedBoundTo(fs, who);
    }
  }

  lemma ListingsThroughout(fs: Fs<Doc>, version: string, why: string)
    requires Orderly(fs) && OnlyMade(fs, FAILED) && OnlyAppended(fs)
    ensures AllSafe(EndedTrialLog(fs, version, why), FAILED, Listings(fs, version))
  {
    var allowed, at := Listings(fs, version), Recording(fs, version, why);
    NamesDiffer();
    OrderlyThroughout(fs, version, why);
    if version in LinesOf(fs, FAILED) {
      ListedListings(fs, version);
      ListedNeedsNoRecord(fs, version, why);
    } else {
      RecordListings(fs, version, why);
    }
    LogIsRecordAndSave(fs, version, why);
    WriteAtomicKeeps(at, STATE, Json(None), FAILED, allowed);
    AllSafeJoined(RecordLog(fs, version, why), WriteAtomicLog(at, STATE, Json(None)), FAILED, allowed);
  }

  lemma LinesListed(fs: Fs<Doc>, at: Fs<Doc>, left: Fs<Doc>, inst: Installed, lines: seq<string>,
                    reduced: set<seq<string>>)
    requires Safe(at, FAILED, Listings(fs, inst.version)) && AfterPowerCut(at, left)
    requires lines == LinesOf(fs, FAILED) && reduced == Reduced(fs)
    ensures LinesOf(left, FAILED) in {lines, Recorded(lines, inst)} + reduced
  {
    SafeMeansSafe(at, left, FAILED, Listings(fs, inst.version));
    LinesOfListing(fs, Content(left, FAILED), inst);
  }

  lemma LinesOfListing(fs: Fs<Doc>, content: Option<Doc>, inst: Installed)
    requires content in Listings(fs, inst.version)
    ensures LinesIn(content) in {LinesOf(fs, FAILED), Recorded(LinesOf(fs, FAILED), inst)} + Reduced(fs)
  {
  }

  // Whatever a power cut leaves of whichever state, failed-versions has the lines it had, or those and the
  // version once more if it was not among them: nothing recorded before is lost. Only what was not on disk
  // at the start, its entry or its last lines, it can come out without.
  lemma RecordedAtMostOnce(fs: Fs<Doc>, inst: Installed, why: string)
    requires InOrder(fs, inst) && OnlyAppended(fs)
    ensures var log, lines := EndedTrialLog(fs, inst.version, why), LinesOf(fs, FAILED);
            forall i, left :: 0 <= i < |log| && AfterPowerCut(log[i], left) ==>
              LinesOf(left, FAILED) in {lines, Recorded(lines, inst)} + Reduced(fs)
    ensures FAILED in fs.disk && Unsynced(fs) == {} ==> Reduced(fs) == {}
  {
    var log, lines, reduced := EndedTrialLog(fs, inst.version, why), LinesOf(fs, FAILED), Reduced(fs);
    ListingsThroughout(fs, inst.version, why);
    forall i, left | 0 <= i < |log| && AfterPowerCut(log[i], left)
      ensures LinesOf(left, FAILED) in {lines, Recorded(lines, inst)} + reduced
    {
      LinesListed(fs, log[i], left, inst, lines, reduced);
    }
  }
}
