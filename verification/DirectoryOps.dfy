// The durable writes as the update client performs them, one system call at a time, on a directory that
// keeps a ghost log of every state it passes through.
module DirectoryOps {
  import opened Basics
  import opened Trial
  import opened Durability
  import opened DurableWrites
  import opened TrialRecord

  class Directory<C(!new)> {
    var fs: Fs<C>
    ghost var log: seq<Fs<C>>

    constructor (fs: Fs<C>)
      ensures this.fs == fs && log == []
    {
      this.fs := fs;
      log := [];
    }

    method OpenNew(name: string, empty: C) returns (ino: nat)
      modifies this
      ensures ino == old(fs.next)
      ensures fs == Create(old(fs), name, empty) && log == old(log) + [fs]
    {
      ino := fs.next;
      fs := Create(fs, name, empty);
      log := log + [fs];
    }

    method OpenForAppend(name: string, empty: C) returns (ino: nat)
      requires name !in fs.dir || fs.dir[name] !in fs.nodes
      modifies this
      ensures ino == old(fs.next)
      ensures fs == CreateEmpty(old(fs), name, empty) && log == old(log) + [fs]
    {
      ino := fs.next;
      fs := CreateEmpty(fs, name, empty);
      log := log + [fs];
    }

    method WriteContent(ino: nat, content: C)
      modifies this
      ensures fs == Write(old(fs), ino, content) && log == old(log) + [fs]
    {
      fs := Write(fs, ino, content);
      log := log + [fs];
    }

    method AppendContent(ino: nat, content: C)
      requires ino in fs.nodes
      modifies this
      ensures fs == Append(old(fs), ino, content) && log == old(log) + [fs]
    {
      fs := Append(fs, ino, content);
      log := log + [fs];
    }

    method Fsync(ino: nat)
      requires ino in fs.nodes
      modifies this
      ensures fs == SyncFile(old(fs), ino) && log == old(log) + [fs]
    {
      fs := SyncFile(fs, ino);
      log := log + [fs];
    }

    method FsyncDirectory()
      modifies this
      ensures fs == SyncDir(old(fs)) && log == old(log) + [fs]
    {
      fs := SyncDir(fs);
      log := log + [fs];
    }

    method Replace(src: string, dst: string)
      requires src in fs.dir
      modifies this
      ensures fs == Rename(old(fs), src, dst) && log == old(log) + [fs]
    {
      fs := Rename(fs, src, dst);
      log := log + [fs];
    }

    method Remove(name: string)
      modifies this
      ensures fs == Unlink(old(fs), name) && log == old(log) + [fs]
    {
      fs := Unlink(fs, name);
      log := log + [fs];
    }

    method ReplaceDurably(src: string, dst: string)
      requires src in fs.dir && fs.dir[src] in fs.nodes
      modifies this
      ensures log == old(log) + ReplaceLog(old(fs), src, dst)
      ensures fs == Last(ReplaceLog(old(fs), src, dst))
    {
      var ino := fs.dir[src];
      Fsync(ino);
      Replace(src, dst);
      Fsync(ino);
      FsyncDirectory();
    }

    // mkstemp, copyfile and, for grubenv, grub-editenv on the copy.
    method FillTemporary(tmp: string, empty: C, part: C, whole: C)
      modifies this
      ensures log == old(log) + FillLog(old(fs), tmp, empty, part, whole)
      ensures fs == Last(FillLog(old(fs), tmp, empty, part, whole))
    {
      var ino := OpenNew(tmp, empty);
      WriteContent(ino, part);
      WriteContent(ino, whole);
    }

    method InstallTemporary(tmp: string, target: string, empty: C, part: C, whole: C)
      modifies this
      ensures log == old(log) + InstallLog(old(fs), tmp, target, empty, part, whole)
      ensures fs == Last(InstallLog(old(fs), tmp, target, empty, part, whole))
    {
      FillTemporary(tmp, empty, part, whole);
      ReplaceDurably(tmp, target);
    }

    method DropEdit(tmp: string, empty: C, was: C, torn: C)
      modifies this
      ensures log == old(log) + GrubenvSetLog(old(fs), tmp, empty, was, None, torn)
      ensures fs == Last(GrubenvSetLog(old(fs), tmp, empty, was, None, torn))
    {
      FillTemporary(tmp, empty, was, torn);
      Remove(tmp);
    }

    method InstallEdit(tmp: string, empty: C, was: C, edit: C, torn: C)
      modifies this
      ensures log == old(log) + GrubenvSetLog(old(fs), tmp, empty, was, Some(edit), torn)
      ensures fs == Last(GrubenvSetLog(old(fs), tmp, empty, was, Some(edit), torn))
    {
      InstallTemporary(tmp, GRUBENV, empty, was, edit);
      InstallTemporary(tmp, GRUBENV_BAK, empty, torn, edit);
    }

    method EditGrubenv(tmp: string, empty: C, was: C, edited: Option<C>, torn: C) returns (failed: bool)
      modifies this
      ensures failed == edited.None?
      ensures log == old(log) + GrubenvSetLog(old(fs), tmp, empty, was, edited, torn)
      ensures fs == Last(GrubenvSetLog(old(fs), tmp, empty, was, edited, torn))
    {
      failed := edited.None?;
      if failed {
        DropEdit(tmp, empty, was, torn);
      } else {
        InstallEdit(tmp, empty, was, edited.value, torn);
      }
    }

    // grubenv_set: edited is what grub-editenv makes of the copy, None if it fails. Whatever a power cut
    // leaves of any state it passes through, grubenv is wholly one of what it could be before or wholly
    // new, and grubenv.bak is new only where grubenv is; if the edit fails, neither is new.
    method GrubenvSet(tmp: string, empty: C, was: C, edited: Option<C>, torn: C, ghost held: set<Option<C>>,
                      ghost baks: set<Option<C>>)
        returns (failed: bool)
      requires Content(fs, GRUBENV) == Some(was)
      modifies this
      ensures failed == edited.None?
      ensures log == old(log) + GrubenvSetLog(old(fs), tmp, empty, was, edited, torn)
      ensures fs == Last(GrubenvSetLog(old(fs), tmp, empty, was, edited, torn))
      ensures BootReady(old(fs), tmp, held, baks) ==>
                forall k, left :: |old(log)| <= k < |log| && AfterPowerCut(log[k], left) ==>
                  if edited.Some? then BootStateWhole(left, held, baks, edited.value)
                  else Content(left, GRUBENV) in held && Content(left, GRUBENV_BAK) in baks
    {
      ghost var start, before := fs, log;
      failed := EditGrubenv(tmp, empty, was, edited, torn);
      if BootReady(start, tmp, held, baks) {
        BootSurvives(start, before, log, tmp, empty, was, edited, torn, held, baks);
      }
    }
  }

  lemma BootSurvives<C(!new)>(fs: Fs<C>, before: seq<Fs<C>>, log: seq<Fs<C>>, tmp: string, empty: C, was: C,
                              edited: Option<C>, torn: C, held: set<Option<C>>, baks: set<Option<C>>)
    requires BootReady(fs, tmp, held, baks)
    requires log == before + GrubenvSetLog(fs, tmp, empty, was, edited, torn)
    ensures forall k, left :: |before| <= k < |log| && AfterPowerCut(log[k], left) ==>
              if edited.Some? then BootStateWhole(left, held, baks, edited.value)
              else Content(left, GRUBENV) in held && Content(left, GRUBENV_BAK) in baks
  {
    var steps := GrubenvSetLog(fs, tmp, empty, was, edited, torn);
    if edited.Some? {
      GrubenvSurvives(fs, tmp, empty, was, held, baks, edited.value, torn);
    }
    forall k, left | |before| <= k < |log| && AfterPowerCut(log[k], left)
      ensures if edited.Some? then BootStateWhole(left, held, baks, edited.value)
              else Content(left, GRUBENV) in held && Content(left, GRUBENV_BAK) in baks
    {
      assert log[k] == steps[k - |before|];
      if edited.None? {
        FailedEditChangesNothing(fs, tmp, empty, was, held, baks, torn, k - |before|, left);
      }
    }
  }

  method AppendDurably(d: Directory<Doc>, name: string, line: string)
    modifies d
    ensures d.log == old(d.log) + AppendLog(old(d.fs), name, line)
    ensures d.fs == Last(AppendLog(old(d.fs), name, line))
  {
    var lines := LinesOf(d.fs, name);
    var isNew := !Exists(d.fs, name);
    var ino;
    if isNew {
      ino := d.OpenForAppend(name, Lines([]));
    } else {
      ino := d.fs.dir[name];
    }
    d.AppendContent(ino, Lines(lines + [line]));
    d.Fsync(ino);
    if isNew {
      d.FsyncDirectory();
    }
  }

  method WriteAtomic(d: Directory<Doc>, name: string, doc: Doc)
    modifies d
    ensures d.log == old(d.log) + WriteAtomicLog(old(d.fs), name, doc)
    ensures d.fs == Last(WriteAtomicLog(old(d.fs), name, doc))
  {
    var tmp := name + ".new";
    var ino := d.OpenNew(tmp, Lines([]));
    d.WriteContent(ino, doc);
    d.Fsync(ino);
    d.Replace(tmp, name);
  }

  function LoadedInstall(fs: Fs<Doc>): Option<Installed> {
    var c := Content(fs, STATE);
    if c.Some? && c.value.Json? then c.value.installed else None
  }

  lemma ThreeLogs<T>(was: seq<T>, mark: seq<T>, result: seq<T>, history: seq<T>)
    ensures was + mark + (result + history) == was + (mark + result + history)
  {
  }

  // record_result.
  method RecordResult(d: Directory<Doc>, why: string)
    modifies d
    ensures var result := WriteAtomicLog(old(d.fs), LAST_RESULT, Lines([why]));
      && d.log == old(d.log) + (result + AppendLog(Last(result), HISTORY, why))
      && d.fs == Last(AppendLog(Last(result), HISTORY, why))
  {
    WriteAtomic(d, LAST_RESULT, Lines([why]));
    AppendDurably(d, HISTORY, why);
  }

  method RecordEnded(d: Directory<Doc>, version: string, why: string)
    modifies d
    ensures d.log == old(d.log) + RecordLog(old(d.fs), version, why)
    ensures d.fs == if RecordLog(old(d.fs), version, why) == [] then old(d.fs)
                    else Last(RecordLog(old(d.fs), version, why))
  {
    if version !in LinesOf(d.fs, FAILED) {
      ghost var mark := AppendLog(d.fs, FAILED, version);
      ghost var result := WriteAtomicLog(Last(mark), LAST_RESULT, Lines([why]));
      AppendDurably(d, FAILED, version);
      RecordResult(d, why);
      ThreeLogs(old(d.log), mark, result, AppendLog(Last(result), HISTORY, why));
    }
  }

  // The record, then state.json without the install.
  method EndTrial(d: Directory<Doc>, version: string, why: string)
    modifies d
    ensures d.log == old(d.log) + EndedTrialLog(old(d.fs), version, why)
    ensures LoadedInstall(d.fs).None?
  {
    ghost var record := RecordLog(d.fs, version, why);
    RecordEnded(d, version, why);
    ghost var save := WriteAtomicLog(d.fs, STATE, Json(None));
    Save(d, None);
    assert old(d.log) + record + save == old(d.log) + (record + save);
  }

  // save_state, as far as the install goes.
  method Save(d: Directory<Doc>, installed: Option<Installed>)
    modifies d
    ensures d.log == old(d.log) + WriteAtomicLog(old(d.fs), STATE, Json(installed))
    ensures LoadedInstall(d.fs) == installed
  {
    WriteAtomic(d, STATE, Json(installed));
  }

  lemma NewStatesKnown(before: seq<Fs<Doc>>, steps: seq<Fs<Doc>>, log: seq<Fs<Doc>>, inst: Installed)
    requires log == before + steps
    ensures (forall k :: |before| <= k < |log| ==> KnownAfter(log[k], inst)) <==> NothingLost(steps, inst)
  {
    if forall k :: |before| <= k < |log| ==> KnownAfter(log[k], inst) {
      forall i | 0 <= i < |steps| ensures KnownAfter(steps[i], inst) {
        assert log[|before| + i] == steps[i];
      }
    }
    if NothingLost(steps, inst) {
      forall k | |before| <= k < |log| ensures KnownAfter(log[k], inst) {
        assert log[k] == steps[k - |before|];
      }
    }
  }

  lemma TrialSurvives(fs: Fs<Doc>, before: seq<Fs<Doc>>, log: seq<Fs<Doc>>, inst: Installed, why: string)
    requires InOrder(fs, inst) && log == before + EndedTrialLog(fs, inst.version, why)
    ensures (forall k :: |before| <= k < |log| ==> KnownAfter(log[k], inst)) <==> RecordHolds(fs, inst.version)
  {
    NothingIsLostIff(fs, inst, why);
    NewStatesKnown(before, EndedTrialLog(fs, inst.version, why), log, inst);
  }

  // trial_outcome: a lost trial is recorded before state.json stops carrying it. No power cut at any
  // state it passes through loses the trial, if and only if the record holds when it is called.
  method TrialOutcome(d: Directory<Doc>, booted: Option<Slot>, env: Option<Env>, why: string)
    modifies d
    ensures var verdict := TrialVerdict(LoadedInstall(old(d.fs)), booted, env);
            && (verdict.Undecided? ==> d.log == old(d.log) && d.fs == old(d.fs))
            && (verdict.Passed? ==> d.log == old(d.log) + WriteAtomicLog(old(d.fs), STATE, Json(None)))
            && (verdict.Failed? ==>
                  d.log == old(d.log) + EndedTrialLog(old(d.fs), LoadedInstall(old(d.fs)).value.version, why))
            && (!verdict.Undecided? ==> LoadedInstall(d.fs).None?)
    ensures TrialVerdict(LoadedInstall(old(d.fs)), booted, env).Failed?
            && InOrder(old(d.fs), LoadedInstall(old(d.fs)).value) ==>
              ((forall k :: |old(d.log)| <= k < |d.log| ==> KnownAfter(d.log[k], LoadedInstall(old(d.fs)).value))
               <==> RecordHolds(old(d.fs), LoadedInstall(old(d.fs)).value.version))
  {
    var installed := LoadedInstall(d.fs);
    match TrialVerdict(installed, booted, env) {
      case Undecided =>
      case Passed =>
        Save(d, None);
      case Failed =>
        EndTrial(d, installed.value.version, why);
        if InOrder(old(d.fs), installed.value) {
          TrialSurvives(old(d.fs), old(d.log), d.log, installed.value, why);
        }
    }
  }
}
