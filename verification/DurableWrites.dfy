// The update client's durable writes, each as the list of states it passes through, and what a power
// cut at any of them leaves: grubenv_set, append_durably, write_atomic and trial_outcome.
module DurableWrites {
  import opened Basics
  import opened Trial
  import opened Durability

  function Last<T>(log: seq<T>): T
    requires log != []
  {
    log[|log| - 1]
  }

  ghost predicate AllSafe<C(!new)>(log: seq<Fs<C>>, name: string, allowed: set<Option<C>>) {
    forall i :: 0 <= i < |log| ==> Safe(log[i], name, allowed)
  }

  // A temporary file created, written in part, then in full.
  function FillLog<C>(fs: Fs<C>, tmp: string, empty: C, part: C, whole: C): (log: seq<Fs<C>>)
    ensures |log| == 3
    ensures tmp in log[2].dir && log[2].dir[tmp] == fs.next && log[2].next == fs.next + 1
    ensures fs.next in log[2].nodes && log[2].nodes[fs.next].now == whole
    ensures log[2].pending == fs.pending + [Bind(tmp, fs.next)] && log[2].kind == fs.kind && log[2].disk == fs.disk
  {
    var created := Create(fs, tmp, empty);
    var partial := Write(created, fs.next, part);
    [created, partial, Write(partial, fs.next, whole)]
  }

  // replace_durably
  function ReplaceLog<C>(fs: Fs<C>, src: string, dst: string): (log: seq<Fs<C>>)
    requires src in fs.dir && fs.dir[src] in fs.nodes
    ensures |log| == 4
  {
    var ino := fs.dir[src];
    var synced := SyncFile(fs, ino);
    var renamed := Rename(synced, src, dst);
    var again := SyncFile(renamed, ino);
    [synced, renamed, again, SyncDir(again)]
  }

  lemma FillKeeps<C(!new)>(fs: Fs<C>, tmp: string, empty: C, part: C, whole: C, other: string, allowed: set<Option<C>>)
    requires Numbered(fs) && other != tmp && Safe(fs, other, allowed) && Calm(fs, other)
    ensures var log := FillLog(fs, tmp, empty, part, whole);
            AllSafe(log, other, allowed) && Apart(log[2], other, fs.next) && Calm(log[2], other) && Numbered(log[2])
  {
    var created := Create(fs, tmp, empty);
    CreateKeeps(fs, tmp, empty, other, allowed);
    WriteKeeps(created, fs.next, part, other, allowed);
    WriteKeeps(Write(created, fs.next, part), fs.next, whole, other, allowed);
  }

  lemma ReplaceKeeps<C(!new)>(fs: Fs<C>, src: string, dst: string, other: string, allowed: set<Option<C>>)
    requires Numbered(fs) && src in fs.dir && fs.dir[src] in fs.nodes && other != src && other != dst
    requires Safe(fs, other, allowed) && Calm(fs, other)
    ensures var log := ReplaceLog(fs, src, dst);
            AllSafe(log, other, allowed) && Calm(log[3], other) && Numbered(log[3])
  {
    var ino := fs.dir[src];
    var log := ReplaceLog(fs, src, dst);
    var op := Move(src, dst, ino);
    SyncKeeps(fs, ino, other, allowed);
    RenameKeeps(log[0], src, dst, other, allowed);
    SyncKeeps(log[1], ino, other, allowed);
    SyncKeeps(log[2], ino, other, allowed);
    CalmKeeps(fs, ino, op, other);
    CalmKeeps(log[0], ino, op, other);
    CalmKeeps(log[1], ino, op, other);
    CalmKeeps(log[2], ino, op, other);
  }

  // During replace_durably the name holds what it held or the new content, and at its end the new content.
  lemma ReplaceLands<C(!new)>(fs: Fs<C>, src: string, dst: string, allowed: set<Option<C>>)
    requires src in fs.dir && fs.dir[src] in fs.nodes && src != dst
    requires Safe(fs, dst, allowed) && Calm(fs, dst)
    ensures var log := ReplaceLog(fs, src, dst);
            var landed := Some(fs.nodes[fs.dir[src]].now);
            && AllSafe(log, dst, allowed + {landed})
            && Safe(log[3], dst, {landed}) && Calm(log[3], dst)
  {
    var ino := fs.dir[src];
    var log := ReplaceLog(fs, src, dst);
    var now := Some(fs.nodes[ino].now);
    SyncKeeps(fs, ino, dst, allowed);
    assert Safe(log[0], dst, allowed + {now});
    RenameLands(log[0], src, dst, allowed);
    SyncKeeps(log[1], ino, dst, allowed + {now});
    SyncKeeps(log[2], ino, dst, allowed + {now});
    CalmKeeps(fs, ino, Move(src, dst, ino), dst);
    SyncedOpIsFinal(log[1], log[0].pending, Move(src, dst, ino), ino, dst);
  }

  // --- grubenv_set ---

  const GRUBENV := "grubenv"
  const GRUBENV_BAK := "grubenv.bak"

  // A temporary file filled and moved over the target for good.
  function InstallLog<C>(fs: Fs<C>, tmp: string, target: string, empty: C, part: C, whole: C): (log: seq<Fs<C>>)
    ensures log != []
  {
    var fill := FillLog(fs, tmp, empty, part, whole);
    fill + ReplaceLog(Last(fill), tmp, target)
  }

  // edited: what grub-editenv made of the copy, or None if it failed - leaving `torn` in it.
  function GrubenvSetLog<C>(fs: Fs<C>, tmp: string, empty: C, was: C, edited: Option<C>, torn: C): (log: seq<Fs<C>>)
    ensures log != []
  {
    match edited
    case None =>
      var fill := FillLog(fs, tmp, empty, was, torn);
      fill + [Unlink(Last(fill), tmp)]
    case Some(edit) =>
      var first := InstallLog(fs, tmp, GRUBENV, empty, was, edit);
      first + InstallLog(Last(first), tmp, GRUBENV_BAK, empty, torn, edit)
  }

  ghost predicate Settled<C(!new)>(fs: Fs<C>, name: string, held: set<Option<C>>) {
    Safe(fs, name, held) && Calm(fs, name)
  }

  // At every state of grubenv_set: both files wholly old or wholly new, and the fallback new only once
  // grubenv is new for good.
  ghost predicate GrubenvOk<C(!new)>(fs: Fs<C>, held: set<Option<C>>, baks: set<Option<C>>, edit: C) {
    || (Safe(fs, GRUBENV, held + {Some(edit)}) && Safe(fs, GRUBENV_BAK, baks))
    || (Safe(fs, GRUBENV, {Some(edit)}) && Safe(fs, GRUBENV_BAK, baks + {Some(edit)}))
  }

  lemma SafeWiden<C(!new)>(log: seq<Fs<C>>, name: string, small: set<Option<C>>, large: set<Option<C>>)
    requires AllSafe(log, name, small) && small <= large
    ensures AllSafe(log, name, large)
  {
    forall i | 0 <= i < |log| ensures Safe(log[i], name, large) { }
  }

  // While the target is replaced it holds its old or its new content and any other name its own.
  lemma InstallLands<C(!new)>(fs: Fs<C>, tmp: string, target: string, empty: C, part: C, whole: C,
                              held: set<Option<C>>, other: string, kept: set<Option<C>>)
    requires Numbered(fs) && tmp != target && tmp != other && target != other
    requires Settled(fs, target, held) && Settled(fs, other, kept)
    ensures var log := InstallLog(fs, tmp, target, empty, part, whole);
            && AllSafe(log, target, held + {Some(whole)}) && AllSafe(log, other, kept)
            && Numbered(Last(log)) && Settled(Last(log), target, {Some(whole)}) && Settled(Last(log), other, kept)
  {
    var fill := FillLog(fs, tmp, empty, part, whole);
    FillKeeps(fs, tmp, empty, part, whole, target, held);
    FillKeeps(fs, tmp, empty, part, whole, other, kept);
    SafeWiden(fill, target, held, held + {Some(whole)});
    ReplaceLands(Last(fill), tmp, target, held);
    ReplaceKeeps(Last(fill), tmp, target, other, kept);
  }

  lemma Joined<T>(a: seq<T>, b: seq<T>)
    requires b != []
    ensures Last(a + b) == Last(b)
    ensures forall i :: 0 <= i < |a + b| ==> (a + b)[i] == if i < |a| then a[i] else b[i - |a|]
  {
  }

  lemma AllSafeJoined<C(!new)>(a: seq<Fs<C>>, b: seq<Fs<C>>, name: string, allowed: set<Option<C>>)
    requires AllSafe(a, name, allowed) && AllSafe(b, name, allowed) && b != []
    ensures AllSafe(a + b, name, allowed) && Last(a + b) == Last(b)
  {
    forall i | 0 <= i < |a + b| ensures Safe((a + b)[i], name, allowed) {
      assert (a + b)[i] == if i < |a| then a[i] else b[i - |a|];
    }
  }

  // While grubenv itself is replaced, and then while its copy is.
  lemma FirstReplacementOk<C(!new)>(log: seq<Fs<C>>, held: set<Option<C>>, baks: set<Option<C>>, edit: C)
    requires AllSafe(log, GRUBENV, held + {Some(edit)}) && AllSafe(log, GRUBENV_BAK, baks)
    ensures forall i :: 0 <= i < |log| ==> GrubenvOk(log[i], held, baks, edit)
  {
  }

  lemma SecondReplacementOk<C(!new)>(log: seq<Fs<C>>, held: set<Option<C>>, baks: set<Option<C>>, edit: C)
    requires AllSafe(log, GRUBENV, {Some(edit)}) && AllSafe(log, GRUBENV_BAK, baks + {Some(edit)})
    ensures forall i :: 0 <= i < |log| ==> GrubenvOk(log[i], held, baks, edit)
  {
  }

  // Where grubenv_set may start: what the two files may come out as is whole, and on vfat no earlier
  // change of their entries is still to be written.
  ghost predicate BootReady<C(!new)>(fs: Fs<C>, tmp: string, held: set<Option<C>>, baks: set<Option<C>>) {
    && Numbered(fs) && tmp != GRUBENV && tmp != GRUBENV_BAK
    && Settled(fs, GRUBENV, held) && Settled(fs, GRUBENV_BAK, baks)
  }

  lemma GrubenvOkThroughout<C(!new)>(fs: Fs<C>, tmp: string, empty: C, was: C, held: set<Option<C>>,
                                     baks: set<Option<C>>, edit: C, torn: C)
    requires BootReady(fs, tmp, held, baks)
    ensures var log := GrubenvSetLog(fs, tmp, empty, was, Some(edit), torn);
            && (forall i :: 0 <= i < |log| ==> GrubenvOk(log[i], held, baks, edit))
            && Settled(Last(log), GRUBENV, {Some(edit)}) && Settled(Last(log), GRUBENV_BAK, {Some(edit)})
  {
    var first := InstallLog(fs, tmp, GRUBENV, empty, was, edit);
    InstallLands(fs, tmp, GRUBENV, empty, was, edit, held, GRUBENV_BAK, baks);
    FirstReplacementOk(first, held, baks, edit);
    var second := InstallLog(Last(first), tmp, GRUBENV_BAK, empty, torn, edit);
    InstallLands(Last(first), tmp, GRUBENV_BAK, empty, torn, edit, baks, GRUBENV, {Some(edit)});
    SafeWiden(second, GRUBENV, {Some(edit)}, {Some(edit)});
    SecondReplacementOk(second, held, baks, edit);
    Joined(first, second);
  }

  // Boot state is crash-consistent: whichever operations a power cut drops, at whichever state of
  // grubenv_set, grubenv is wholly one of the contents it could have had or wholly new, grubenv.bak
  // likewise, and it is new only where grubenv is - on ext4 also where an earlier run was ended before
  // its fsync, on vfat where none was.
  lemma GrubenvSurvives<C(!new)>(fs: Fs<C>, tmp: string, empty: C, was: C, held: set<Option<C>>,
                                 baks: set<Option<C>>, edit: C, torn: C)
    requires BootReady(fs, tmp, held, baks)
    ensures var log := GrubenvSetLog(fs, tmp, empty, was, Some(edit), torn);
            forall i, left :: 0 <= i < |log| && AfterPowerCut(log[i], left) ==> BootStateWhole(left, held, baks, edit)
  {
    var log := GrubenvSetLog(fs, tmp, empty, was, Some(edit), torn);
    GrubenvOkThroughout(fs, tmp, empty, was, held, baks, edit, torn);
    forall i, left | 0 <= i < |log| && AfterPowerCut(log[i], left) ensures BootStateWhole(left, held, baks, edit) {
      OkMeansWhole(log[i], left, held, baks, edit);
    }
  }

  ghost predicate BootStateWhole<C>(left: Fs<C>, held: set<Option<C>>, baks: set<Option<C>>, edit: C) {
    && Content(left, GRUBENV) in held + {Some(edit)}
    && Content(left, GRUBENV_BAK) in baks + {Some(edit)}
    && (Content(left, GRUBENV_BAK) !in baks ==> Content(left, GRUBENV) == Some(edit))
  }

  lemma OkMeansWhole<C(!new)>(fs: Fs<C>, left: Fs<C>, held: set<Option<C>>, baks: set<Option<C>>, edit: C)
    requires GrubenvOk(fs, held, baks, edit) && AfterPowerCut(fs, left)
    ensures BootStateWhole(left, held, baks, edit)
  {
    if Safe(fs, GRUBENV, held + {Some(edit)}) && Safe(fs, GRUBENV_BAK, baks) {
      SafeMeansSafe(fs, left, GRUBENV, held + {Some(edit)});
      SafeMeansSafe(fs, left, GRUBENV_BAK, baks);
    } else {
      SafeMeansSafe(fs, left, GRUBENV, {Some(edit)});
      SafeMeansSafe(fs, left, GRUBENV_BAK, baks + {Some(edit)});
    }
  }

  // If grub-editenv fails, both files are what they could have been before, whatever a power cut adds.
  lemma FailedEditChangesNothing<C(!new)>(fs: Fs<C>, tmp: string, empty: C, was: C, held: set<Option<C>>,
                                          baks: set<Option<C>>, torn: C, i: nat, left: Fs<C>)
    requires BootReady(fs, tmp, held, baks)
    requires i < |GrubenvSetLog(fs, tmp, empty, was, None, torn)|
    requires AfterPowerCut(GrubenvSetLog(fs, tmp, empty, was, None, torn)[i], left)
    ensures Content(left, GRUBENV) in held && Content(left, GRUBENV_BAK) in baks
  {
    var fill := FillLog(fs, tmp, empty, was, torn);
    FillKeeps(fs, tmp, empty, was, torn, GRUBENV, held);
    FillKeeps(fs, tmp, empty, was, torn, GRUBENV_BAK, baks);
    UnlinkKeeps(Last(fill), tmp, GRUBENV, held);
    UnlinkKeeps(Last(fill), tmp, GRUBENV_BAK, baks);
    var at := GrubenvSetLog(fs, tmp, empty, was, None, torn)[i];
    SafeMeansSafe(at, left, GRUBENV, held);
    SafeMeansSafe(at, left, GRUBENV_BAK, baks);
  }

  // --- vfat: a change an ended run left behind ---

  // An earlier change of an entry, of a file that is there, still to be written.
  ghost predicate Lingers<C>(fs: Fs<C>, op: DirOp) {
    fs.kind == Vfat && Numbered(fs) && op in fs.pending && !op.Unbind? && op.ino in fs.nodes
  }

  lemma SyncLeavesLingering<C>(fs: Fs<C>, ino: nat, op: DirOp)
    requires Lingers(fs, op) && ino in fs.nodes && ino != op.ino
    ensures Lingers(SyncFile(fs, ino), op) && SyncFile(fs, ino).nodes[op.ino] == fs.nodes[op.ino]
  {
    OthersAreNotPicked(fs.pending, ino, op);
  }

  lemma InstallLeavesLingering<C>(fs: Fs<C>, tmp: string, target: string, empty: C, part: C, whole: C, op: DirOp)
    requires Lingers(fs, op)
    ensures var end := Last(InstallLog(fs, tmp, target, empty, part, whole));
            Lingers(end, op) && end.nodes[op.ino] == fs.nodes[op.ino]
  {
    var fill := Last(FillLog(fs, tmp, empty, part, whole));
    var log := ReplaceLog(fill, tmp, target);
    assert op.ino < fs.next && fill.nodes[op.ino] == fs.nodes[op.ino];
    assert Lingers(fill, op);
    SyncLeavesLingering(fill, fs.next, op);
    assert Lingers(log[1], op);
    SyncLeavesLingering(log[1], fs.next, op);
  }

  // There grubenv_set does not take it along: if an earlier run was ended between the rename and the
  // fsync, a power cut after a whole grubenv_set can bring that run's content back.
  lemma EndedRunComesBackOnVfat<C(!new)>(fs: Fs<C>, tmp: string, empty: C, was: C, edit: C, torn: C, op: DirOp)
    requires Lingers(fs, op) && Affects(op, GRUBENV) && Effect(op, GRUBENV) == Some(op.ino)
    requires fs.nodes[op.ino].fate.Synced?
    ensures exists left :: AfterPowerCut(Last(GrubenvSetLog(fs, tmp, empty, was, Some(edit), torn)), left)
                           && Content(left, GRUBENV) == Some(fs.nodes[op.ino].now)
  {
    var first := InstallLog(fs, tmp, GRUBENV, empty, was, edit);
    var second := InstallLog(Last(first), tmp, GRUBENV_BAK, empty, torn, edit);
    InstallLeavesLingering(fs, tmp, GRUBENV, empty, was, edit, op);
    InstallLeavesLingering(Last(first), tmp, GRUBENV_BAK, empty, torn, edit, op);
    Joined(first, second);
    var end := Last(second);
    var k :| 0 <= k < |end.pending| && end.pending[k] == op;
    assert CanBe(end, GRUBENV, Some(op.ino));
    var left := PossibleHappens(end, GRUBENV, op.ino, fs.nodes[op.ino].now);
  }

  // --- append_durably, write_atomic and trial_outcome, in the state directory (ext4) ---

  datatype Doc = Lines(lines: seq<string>) | Json(installed: Option<Installed>)

  const FAILED := "failed-versions"
  const STATE := "state.json"
  const LAST_RESULT := "last-result"
  const HISTORY := "history"

  // The lines of a file; a missing or unreadable one has none.
  function LinesOf(fs: Fs<Doc>, name: string): seq<string> {
    LinesIn(Content(fs, name))
  }

  function LinesIn(content: Option<Doc>): seq<string> {
    if content.Some? && content.value.Lines? then content.value.lines else []
  }

  predicate Exists(fs: Fs<Doc>, name: string) {
    name in fs.dir && fs.dir[name] in fs.nodes
  }

  function AppendLog(fs: Fs<Doc>, name: string, line: string): (log: seq<Fs<Doc>>)
    ensures log != [] && Last(log).next >= fs.next
  {
    var grown := Lines(LinesOf(fs, name) + [line]);
    if Exists(fs, name) then
      var appended := Append(fs, fs.dir[name], grown);
      [appended, SyncFile(appended, fs.dir[name])]
    else
      var created := CreateEmpty(fs, name, Lines([]));
      var appended := Append(created, fs.next, grown);
      var synced := SyncFile(appended, fs.next);
      [created, appended, synced, SyncDir(synced)]
  }

  function WriteAtomicLog(fs: Fs<Doc>, name: string, doc: Doc): (log: seq<Fs<Doc>>)
    ensures log != [] && |log| == 4
  {
    var tmp := name + ".new";
    var created := Create(fs, tmp, Lines([]));
    var written := Write(created, fs.next, doc);
    var synced := SyncFile(written, fs.next);
    [created, written, synced, Rename(synced, tmp, name)]
  }

  // A trial that ended without a verdict: the version recorded if it is not yet, the result noted, and
  // only then state.json written without it.
  function RecordLog(fs: Fs<Doc>, version: string, why: string): (log: seq<Fs<Doc>>) {
    if version in LinesOf(fs, FAILED) then []
    else
      var mark := AppendLog(fs, FAILED, version);
      var result := WriteAtomicLog(Last(mark), LAST_RESULT, Lines([why]));
      mark + result + AppendLog(Last(result), HISTORY, why)
  }

  function EndedTrialLog(fs: Fs<Doc>, version: string, why: string): (log: seq<Fs<Doc>>)
    ensures log != []
  {
    var record := RecordLog(fs, version, why);
    record + WriteAtomicLog(if record == [] then fs else Last(record), STATE, Json(None))
  }

  // The name is bound for good to one synced file of lines, or to nothing.
  ghost predicate Durable(fs: Fs<Doc>, name: string) {
    if name in fs.dir then
      var i := fs.dir[name];
      && i in fs.nodes && fs.nodes[i].fate.Synced? && fs.nodes[i].now.Lines?
      && forall who :: CanBe(fs, name, who) ==> who == Some(i)
    else Safe(fs, name, {None})
  }

  lemma AppendLands(fs: Fs<Doc>, name: string, line: string)
    requires Numbered(fs) && fs.kind == Ext4 && Durable(fs, name)
    ensures var log := AppendLog(fs, name, line);
            var grown := Some(Lines(LinesOf(fs, name) + [line]));
            && AllSafe(log, name, {Content(fs, name), Some(Lines(LinesOf(fs, name))), grown})
            && Safe(Last(log), name, {grown})
            && Numbered(Last(log)) && Last(log).kind == Ext4 && Content(Last(log), name) == grown
  {
    if Exists(fs, name) {
      AppendToExisting(fs, name, line);
    } else {
      AppendToNew(fs, name, line);
    }
  }

  lemma AppendToExisting(fs: Fs<Doc>, name: string, line: string)
    requires Numbered(fs) && fs.kind == Ext4 && Durable(fs, name) && Exists(fs, name)
    ensures var log := AppendLog(fs, name, line);
            var grown := Some(Lines(LinesOf(fs, name) + [line]));
            && AllSafe(log, name, {Content(fs, name), Some(Lines(LinesOf(fs, name))), grown})
            && Safe(Last(log), name, {grown})
            && Numbered(Last(log)) && Last(log).kind == Ext4 && Content(Last(log), name) == grown
  {
    var log := AppendLog(fs, name, line);
    var i := fs.dir[name];
    forall who ensures CanBe(log[0], name, who) == CanBe(fs, name, who) { }
    forall who { SyncsOnlyNarrow(log[0], i, name, who); }
  }

  lemma AppendToNew(fs: Fs<Doc>, name: string, line: string)
    requires Numbered(fs) && fs.kind == Ext4 && Durable(fs, name) && !Exists(fs, name)
    ensures var log := AppendLog(fs, name, line);
            var grown := Some(Lines(LinesOf(fs, name) + [line]));
            && AllSafe(log, name, {Content(fs, name), Some(Lines(LinesOf(fs, name))), grown})
            && Safe(Last(log), name, {grown})
            && Numbered(Last(log)) && Last(log).kind == Ext4 && Content(Last(log), name) == grown
  {
    var log := AppendLog(fs, name, line);
    forall who | CanBe(log[0], name, who) ensures who in {None, Some(fs.next)} {
      PendingSnoc(fs, log[0], Bind(name, fs.next), name, who);
      assert CanBe(fs, name, who) && who.Some? ==> Fated(fs.nodes[who.value], fs.nodes[who.value].now);
    }
    forall who ensures CanBe(log[1], name, who) == CanBe(log[0], name, who) { }
    forall who ensures CanBe(log[2], name, who) == CanBe(log[0], name, who) { }
    LastEffectApplies(fs.disk, fs.pending, Bind(name, fs.next), name);
  }

  lemma AppendKeeps(fs: Fs<Doc>, name: string, line: string, other: string, allowed: set<Option<Doc>>)
    requires Numbered(fs) && other != name && Safe(fs, other, allowed)
    requires Exists(fs, name) ==> Apart(fs, other, fs.dir[name])
    ensures AllSafe(AppendLog(fs, name, line), other, allowed)
  {
    var log := AppendLog(fs, name, line);
    var grown := Lines(LinesOf(fs, name) + [line]);
    if Exists(fs, name) {
      WriteKeeps(fs, fs.dir[name], grown, other, allowed);
      SyncKeeps(log[0], fs.dir[name], other, allowed);
    } else {
      CreateKeeps(fs, name, Lines([]), other, allowed);
      WriteKeeps(log[0], fs.next, grown, other, allowed);
      SyncKeeps(log[1], fs.next, other, allowed);
      SyncKeeps(log[2], fs.next, other, allowed);
    }
  }

  lemma WriteAtomicKeeps(fs: Fs<Doc>, name: string, doc: Doc, other: string, allowed: set<Option<Doc>>)
    requires Numbered(fs) && other != name && other != name + ".new" && Safe(fs, other, allowed)
    ensures AllSafe(WriteAtomicLog(fs, name, doc), other, allowed)
  {
    var log := WriteAtomicLog(fs, name, doc);
    CreateKeeps(fs, name + ".new", Lines([]), other, allowed);
    WriteKeeps(log[0], fs.next, doc, other, allowed);
    SyncKeeps(log[1], fs.next, other, allowed);
    RenameKeeps(log[2], name + ".new", name, other, allowed);
  }

  lemma WriteAtomicLands(fs: Fs<Doc>, name: string, doc: Doc, allowed: set<Option<Doc>>)
    requires Numbered(fs) && Safe(fs, name, allowed)
    ensures var log := WriteAtomicLog(fs, name, doc);
            && (forall i :: 0 <= i < 3 ==> Safe(log[i], name, allowed))
            && Safe(log[3], name, allowed + {Some(doc)})
            && Content(log[3], name) == Some(doc)
  {
    var tmp := name + ".new";
    assert |tmp| != |name|;
    var log := WriteAtomicLog(fs, name, doc);
    CreateKeeps(fs, tmp, Lines([]), name, allowed);
    WriteKeeps(log[0], fs.next, doc, name, allowed);
    SyncKeeps(log[1], fs.next, name, allowed);
    RenameLands(log[2], tmp, name, allowed);
  }

  lemma NamesDiffer()
    ensures STATE !in {FAILED, HISTORY, LAST_RESULT, LAST_RESULT + ".new"}
    ensures FAILED !in {STATE, STATE + ".new", HISTORY, LAST_RESULT, LAST_RESULT + ".new"}
    ensures HISTORY !in {LAST_RESULT, LAST_RESULT + ".new"}
  {
    assert FAILED[0] == 'f' && (LAST_RESULT + ".new")[0] == 'l' && (STATE + ".new")[0] == 's';
    assert |STATE| == 10 && |HISTORY| == 7 && |LAST_RESULT| == 11 && |LAST_RESULT + ".new"| == 15;
  }

  // No name is bound to the inode that is not its own.
  lemma AppendStaysApart(fs: Fs<Doc>, name: string, line: string, other: string, ino: nat)
    requires ino < fs.next && Apart(fs, other, ino)
    requires other != name || (name !in fs.dir || fs.dir[name] != ino)
    ensures Apart(Last(AppendLog(fs, name, line)), other, ino)
  {
    var log := AppendLog(fs, name, line);
    if Exists(fs, name) {
      assert CanBe(log[0], other, Some(ino)) == CanBe(fs, other, Some(ino));
      SyncsOnlyNarrow(log[0], fs.dir[name], other, Some(ino));
    } else {
      PendingSnoc(fs, log[0], Bind(name, fs.next), other, Some(ino));
      assert CanBe(log[1], other, Some(ino)) == CanBe(log[0], other, Some(ino));
      SyncsOnlyNarrow(log[1], fs.next, other, Some(ino));
      SyncsOnlyNarrow(log[2], fs.next, other, Some(ino));
    }
  }

  lemma WriteAtomicStaysApart(fs: Fs<Doc>, name: string, doc: Doc, other: string, ino: nat)
    requires ino < fs.next && other != name && other != name + ".new" && Apart(fs, other, ino)
    ensures Apart(Last(WriteAtomicLog(fs, name, doc)), other, ino)
  {
    var tmp := name + ".new";
    var log := WriteAtomicLog(fs, name, doc);
    PendingSnoc(fs, log[0], Bind(tmp, fs.next), other, Some(ino));
    assert CanBe(log[1], other, Some(ino)) == CanBe(log[0], other, Some(ino));
    SyncsOnlyNarrow(log[1], fs.next, other, Some(ino));
    PendingSnoc(log[2], log[3], Move(tmp, name, fs.next), other, Some(ino));
  }

  lemma AppendKeepsName(fs: Fs<Doc>, name: string, line: string, other: string)
    requires other != name
    ensures var end := Last(AppendLog(fs, name, line));
            (other in end.dir <==> other in fs.dir) && (other in end.dir ==> end.dir[other] == fs.dir[other])
  {
  }

  lemma WriteAtomicKeepsName(fs: Fs<Doc>, name: string, doc: Doc, other: string)
    requires other != name && other != name + ".new"
    ensures var end := Last(WriteAtomicLog(fs, name, doc));
            (other in end.dir <==> other in fs.dir) && (other in end.dir ==> end.dir[other] == fs.dir[other])
  {
  }

  lemma NumberedByKeys(a: Fs<Doc>, b: Fs<Doc>)
    requires Numbered(a) && a.next <= b.next
    requires b.nodes.Keys <= a.nodes.Keys || (b.nodes.Keys <= a.nodes.Keys + {a.next} && a.next < b.next)
    ensures Numbered(b)
  {
    forall i | i in b.nodes ensures i < b.next {
      assert i in b.nodes.Keys;
    }
  }

  function Recorded(before: seq<string>, inst: Installed): seq<string> {
    if inst.version in before then before else before + [inst.version]
  }

  // That failed-versions is as durable as it looks is needed: a line that is visible but whose directory
  // entry is not on disk is not appended again, and one power cut loses both it and the install.
  lemma LostWhenTheEntryIsNotDurable(inst: Installed, why: string, fs: Fs<Doc>)
    requires fs == Fs(Ext4, map[STATE := 0, FAILED := 1], map[STATE := 0], [Bind(FAILED, 1)],
                      map[0 := Node(Json(Some(inst)), Synced), 1 := Node(Lines([inst.version]), Synced)], 2)
    ensures Numbered(fs) && Safe(fs, STATE, {Some(Json(Some(inst)))}) && LinesOf(fs, FAILED) == [inst.version]
    ensures exists left :: AfterPowerCut(Last(EndedTrialLog(fs, inst.version, why)), left)
                           && Content(left, STATE) == Some(Json(None)) && LinesOf(left, FAILED) == []
  {
    var end := Last(WriteAtomicLog(fs, STATE, Json(None)));
    StartsSafe(inst, fs);
    OnlyTheSave(fs, inst, why);
    SaveEnd(fs);
    assert end.pending == [Bind(FAILED, 1), Bind(STATE + ".new", 2), Move(STATE + ".new", STATE, 2)];
    var left := end.(dir := map[STATE := 2], disk := map[STATE := 2], pending := []);
    OneEntryDropped(end, left);
  }

  lemma StartsSafe(inst: Installed, fs: Fs<Doc>)
    requires fs == Fs(Ext4, map[STATE := 0, FAILED := 1], map[STATE := 0], [Bind(FAILED, 1)],
                      map[0 := Node(Json(Some(inst)), Synced), 1 := Node(Lines([inst.version]), Synced)], 2)
    ensures Numbered(fs) && Safe(fs, STATE, {Some(Json(Some(inst)))}) && LinesOf(fs, FAILED) == [inst.version]
  {
    assert FAILED[0] != STATE[0];
  }

  // A version already listed is not appended again: what is left of trial_outcome is the save.
  lemma OnlyTheSave(fs: Fs<Doc>, inst: Installed, why: string)
    requires inst.version in LinesOf(fs, FAILED)
    ensures EndedTrialLog(fs, inst.version, why) == WriteAtomicLog(fs, STATE, Json(None))
  {
    assert RecordLog(fs, inst.version, why) == [];
  }

  // What a save leaves to be written: one synced file, and two changes of the directory.
  lemma SaveEnd(fs: Fs<Doc>)
    requires fs.kind == Ext4
    ensures var end, tmp := Last(WriteAtomicLog(fs, STATE, Json(None))), STATE + ".new";
            && end.kind == Ext4 && end.disk == fs.disk && end.next == fs.next + 1
            && end.pending == fs.pending + [Bind(tmp, fs.next), Move(tmp, STATE, fs.next)]
            && end.nodes == fs.nodes[fs.next := Node(Json(None), Synced)]
  {
    var created := Create(fs, STATE + ".new", Lines([]));
    assert created.dir[STATE + ".new"] == fs.next;
    assert fs.pending + [Bind(STATE + ".new", fs.next)] + [Move(STATE + ".new", STATE, fs.next)]
           == fs.pending + [Bind(STATE + ".new", fs.next), Move(STATE + ".new", STATE, fs.next)];
  }

  lemma OneEntryDropped(end: Fs<Doc>, left: Fs<Doc>)
    requires end.disk == map[STATE := 0]
    requires end.pending == [Bind(FAILED, 1), Bind(STATE + ".new", 2), Move(STATE + ".new", STATE, 2)]
    requires 2 in end.nodes && end.nodes[2] == Node(Json(None), Synced)
    requires forall i :: i in end.nodes ==> end.nodes[i].fate.Synced?
    requires left == end.(dir := map[STATE := 2], disk := map[STATE := 2], pending := [])
    ensures AfterPowerCut(end, left)
    ensures Content(left, STATE) == Some(Json(None)) && LinesOf(left, FAILED) == []
  {
    var tmp := STATE + ".new";
    assert |tmp| != |STATE| && FAILED[0] != STATE[0];
    var keep := [false, true, true];
    SurviveThree(end.disk, end.pending[0], end.pending[1], end.pending[2]);
    assert Apply(Apply(end.disk, Bind(tmp, 2)), Move(tmp, STATE, 2)) == map[STATE := 2];
    assert |keep| == |end.pending| && left.dir == Survive(end.disk, end.pending, keep);
  }

  lemma SurviveThree(disk: map<string, nat>, a: DirOp, b: DirOp, c: DirOp)
    ensures Survive(disk, [a, b, c], [false, true, true]) == Apply(Apply(disk, b), c)
  {
    var ops, keep := [a, b, c], [false, true, true];
    assert ops[..2] == [a, b] && keep[..2] == [false, true];
    assert [a, b][..1] == [a] && [false, true][..1] == [false];
    assert Survive(disk, [a], [false]) == disk;
    assert Survive(disk, [a, b], [false, true]) == Apply(disk, b);
  }

  // --- exactly when the save is safe ---

  lemma SurviveTwoMore(disk: map<string, nat>, pending: seq<DirOp>, a: DirOp, b: DirOp, keep: seq<bool>)
    requires |keep| == |pending| + 2
    ensures var front := Survive(disk, pending, keep[..|pending|]);
            var mid := if keep[|pending|] then Apply(front, a) else front;
            Survive(disk, pending + [a, b], keep) == if keep[|pending| + 1] then Apply(mid, b) else mid
  {
    var n := |pending|;
    var ops, keep1 := pending + [a, b], keep[..n + 1];
    assert ops[..n + 1] == pending + [a] && (pending + [a])[..n] == pending && keep1[..n] == keep[..n];
    assert Survive(disk, pending + [a], keep1)
           == if keep[n] then Apply(Survive(disk, pending, keep[..n]), a) else Survive(disk, pending, keep[..n]);
  }

  // The save's two changes of the directory, whichever of them survive.
  function SavedDir(front: map<string, nat>, ino: nat, bound: bool, moved: bool): map<string, nat> {
    var mid := if bound then Apply(front, Bind(STATE + ".new", ino)) else front;
    if moved then Apply(mid, Move(STATE + ".new", STATE, ino)) else mid
  }

  lemma SavedDirKeepsFailed(front: map<string, nat>, ino: nat, bound: bool, moved: bool)
    ensures Lookup(SavedDir(front, ino, bound, moved), FAILED) == Lookup(front, FAILED)
    ensures moved ==> Lookup(SavedDir(front, ino, bound, moved), STATE) == Some(ino)
  {
    NamesDiffer();
  }

  lemma LeftIsAfterPowerCut(fs: Fs<Doc>, left: Fs<Doc>, keep: seq<bool>)
    requires left.kind == fs.kind && left.next == fs.next && left.pending == [] && left.disk == left.dir
    requires |keep| == |fs.pending| && left.dir == Survive(fs.disk, fs.pending, keep)
    requires left.nodes.Keys == fs.nodes.Keys
    requires forall i :: i in fs.nodes ==> left.nodes[i].fate.Synced? && Fated(fs.nodes[i], left.nodes[i].now)
    ensures AfterPowerCut(fs, left)
  {
  }

  // What a power cut during the save can leave of failed-versions, it could have left before.
  lemma LeftBeforeTheSave(fs: Fs<Doc>, left: Fs<Doc>) returns (before: Fs<Doc>)
    requires Numbered(fs) && fs.kind == Ext4 && AfterPowerCut(Last(WriteAtomicLog(fs, STATE, Json(None))), left)
    ensures AfterPowerCut(fs, before)
    ensures LinesOf(before, FAILED) != [] ==> LinesOf(left, FAILED) == LinesOf(before, FAILED)
  {
    var end, tmp := Last(WriteAtomicLog(fs, STATE, Json(None))), STATE + ".new";
    SaveEnd(fs);
    var keep: seq<bool> :| |keep| == |end.pending| && left.dir == Survive(end.disk, end.pending, keep);
    SurviveTwoMore(fs.disk, fs.pending, Bind(tmp, fs.next), Move(tmp, STATE, fs.next), keep);
    var n := |fs.pending|;
    var dir := Survive(fs.disk, fs.pending, keep[..n]);
    SavedDirKeepsFailed(dir, fs.next, keep[n], keep[n + 1]);
    before := Fs(Ext4, dir, dir, [], left.nodes - {fs.next}, fs.next);
    LeftIsAfterPowerCut(fs, before, keep[..n]);
  }

  lemma SavedContents(before: Fs<Doc>, left: Fs<Doc>, ino: nat)
    requires Lookup(left.dir, FAILED) == Lookup(before.dir, FAILED) && Lookup(left.dir, STATE) == Some(ino)
    requires ino !in before.nodes && left.nodes == before.nodes[ino := Node(Json(None), Synced)]
    ensures Content(left, STATE) == Some(Json(None)) && LinesOf(left, FAILED) == LinesOf(before, FAILED)
  {
  }

  // And what could be left before it, a power cut right after it can leave with the install gone.
  lemma LeftAfterTheSave(fs: Fs<Doc>, before: Fs<Doc>) returns (left: Fs<Doc>)
    requires Numbered(fs) && fs.kind == Ext4 && AfterPowerCut(fs, before)
    ensures AfterPowerCut(Last(WriteAtomicLog(fs, STATE, Json(None))), left)
    ensures Content(left, STATE) == Some(Json(None)) && LinesOf(left, FAILED) == LinesOf(before, FAILED)
  {
    var end, tmp := Last(WriteAtomicLog(fs, STATE, Json(None))), STATE + ".new";
    SaveEnd(fs);
    var keep0: seq<bool> :| |keep0| == |fs.pending| && before.dir == Survive(fs.disk, fs.pending, keep0);
    var keep := keep0 + [true, true];
    assert keep[..|fs.pending|] == keep0;
    SurviveTwoMore(fs.disk, fs.pending, Bind(tmp, fs.next), Move(tmp, STATE, fs.next), keep);
    SavedDirKeepsFailed(before.dir, fs.next, true, true);
    var dir := SavedDir(before.dir, fs.next, true, true);
    left := Fs(Ext4, dir, dir, [], before.nodes[fs.next := Node(Json(None), Synced)], end.next);
    LeftIsAfterPowerCut(end, left, keep);
    SavedContents(before, left, fs.next);
  }

  // After a power cut the trial is still known of.
  ghost predicate StillKnown(left: Fs<Doc>, inst: Installed) {
    Content(left, STATE) == Some(Json(Some(inst))) || inst.version in LinesOf(left, FAILED)
  }

  ghost predicate KnownAfter(fs: Fs<Doc>, inst: Installed) {
    forall left :: AfterPowerCut(fs, left) ==> StillKnown(left, inst)
  }

  ghost predicate ListedAfter(fs: Fs<Doc>, version: string) {
    forall left :: AfterPowerCut(fs, left) ==> version in LinesOf(left, FAILED)
  }

  // Dropping the install from state.json is safe if and only if the record of its version already
  // outlives every power cut.
  lemma SaveIsSafeIff(fs: Fs<Doc>, inst: Installed)
    requires Numbered(fs) && fs.kind == Ext4
    ensures KnownAfter(Last(WriteAtomicLog(fs, STATE, Json(None))), inst) <==> ListedAfter(fs, inst.version)
  {
    var end := Last(WriteAtomicLog(fs, STATE, Json(None)));
    if KnownAfter(end, inst) {
      forall before | AfterPowerCut(fs, before) ensures inst.version in LinesOf(before, FAILED) {
        var left := LeftAfterTheSave(fs, before);
        assert StillKnown(left, inst);
      }
    }
    if ListedAfter(fs, inst.version) {
      forall left | AfterPowerCut(end, left) ensures StillKnown(left, inst) {
        var before := LeftBeforeTheSave(fs, left);
      }
    }
  }
}
