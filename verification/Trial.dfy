// GRUB's environment, the trial of an installed release, and its bookkeeping over whole runs of
// installs, boots, commits, panics and rollbacks.
module Trial {
  import opened Basics

  datatype Slot = A | B

  datatype EnvKey = Order | Ok(slot: Slot) | Try(slot: Slot) | Committed(slot: Slot) | Stay

  type Env = map<EnvKey, string>

  datatype Installed = Installed(version: string, slot: Slot)

  function Other(s: Slot): Slot {
    if s == A then B else A
  }

  function Name(s: Slot): string {
    if s == A then "A" else "B"
  }

  function Get(env: Env, key: EnvKey, default: string): string {
    if key in env then env[key] else default
  }

  datatype Standing = Undecided | Passed | Failed

  // trial_outcome's decision. An unreadable grubenv is an empty one.
  function TrialVerdict(installed: Option<Installed>, booted: Option<Slot>, env: Option<Env>): Standing {
    if installed.None? || booted.None? then Undecided
    else
      var e := match env case Some(e) => e case None => map[];
      var t := installed.value.slot;
      if Get(e, Committed(t), "?") == "1" then Passed
      else if booted.value != t && (Get(e, Ok(t), "?") == "0" || Get(e, Try(t), "0") !in {"", "0"}) then Failed
      else Undecided
  }

  // --- the board over whole runs ---

  // grubenv, the running slot, what boat-update remembers, and the history the properties speak of:
  // the release each slot was last written with, the slot a write is under way to, the slots left half
  // written, and those tried or marked bad since they were last written.
  datatype Board = Board(env: Env, booted: Option<Slot>, installed: Option<Installed>, failed: set<string>,
                         holds: map<Slot, string>, writing: Option<Slot>, unsaved: Option<Installed>,
                         torn: set<Slot>, tried: set<Slot>, marked: set<Slot>)

  datatype Event =
    | BeginInstall(begun: Env)              // forget_installed, then RAUC starts writing the other slot
    | WriteDone(version: string)            // RAUC has written it and made it the next to boot, untried
    | WriteFailed                           // it has not: the slot stays as the write left it
    | MarkedBad                             // a streamed slot holding another release is marked bad
    | Remember                              // state["installed"] is saved
    | Boot(slot: Slot, tries: string)       // GRUB counts an attempt and boots the slot
    | GiveUpOn(slot: Slot)                  // GRUB marks a slot bad that is out of attempts
    | LoadFailed(slot: Slot, tries: string) // counted, but its kernel did not load: marked bad, reset
    | LastResort(slot: Slot)                // booted uncounted, because no slot qualifies
    | Commit                                // boat-commit: the running slot passed
    | GateFailed                            // boat-commit: it did not; marked bad and recorded
    | Reset                                 // a panic, a hang, a power cut, a reboot
    | Rollback                              // do_rollback's grubenv_set
    | Look(readable: bool)                  // trial_outcome

  function Counted(tries: string): bool {
    tries !in {"", "0"}
  }

  function AfterLook(b: Board, readable: bool): Board {
    match TrialVerdict(b.installed, b.booted, if readable then Some(b.env) else None)
    case Undecided => b
    case Passed => b.(installed := None)
    case Failed => b.(installed := None, failed := b.failed + {b.installed.value.version})
  }

  // One event. GRUB, boat-commit and RAUC are constrained only by what the documentation and the
  // GRUB scenarios say of the variables they write.
  ghost predicate Happens(b: Board, e: Event, b': Board) {
    match e
    case BeginInstall(begun) =>
      && b.booted.Some? && b.writing.None?
      && (forall k :: k in {Ok(b.booted.value), Try(b.booted.value), Committed(b.booted.value)} ==>
            Get(begun, k, "?") == Get(b.env, k, "?"))
      && b' == b.(installed := None, unsaved := None, env := begun, writing := Some(Other(b.booted.value)),
                  torn := b.torn + {Other(b.booted.value)})
    case WriteDone(version) =>
      && b.writing.Some?
      && var t := b.writing.value;
         b' == b.(env := b.env[Ok(t) := "1"][Try(t) := "0"][Committed(t) := "0"], writing := None,
                  holds := b.holds[t := version], unsaved := Some(Installed(version, t)),
                  torn := b.torn - {t}, tried := b.tried - {t}, marked := b.marked - {t})
    case WriteFailed =>
      b.writing.Some? && b' == b.(writing := None)
    case MarkedBad =>
      && b.unsaved.Some?
      && var t := b.unsaved.value.slot;
         b' == b.(env := b.env[Ok(t) := "0"][Try(t) := "0"], unsaved := None, marked := b.marked + {t})
    case Remember =>
      b.unsaved.Some? && b' == b.(installed := b.unsaved, unsaved := None)
    case Boot(s, tries) =>
      && Get(b.env, Ok(s), "?") == "1" && Counted(tries)
      && b' == Restarted(b).(env := b.env[Try(s) := tries], booted := Some(s), tried := b.tried + {s})
    case GiveUpOn(s) =>
      && Counted(Get(b.env, Try(s), "0"))
      && b' == Restarted(b).(env := b.env[Ok(s) := "0"])
    case LoadFailed(s, tries) =>
      && Get(b.env, Ok(s), "?") == "1" && Counted(tries)
      && b' == Restarted(b).(env := b.env[Try(s) := tries][Ok(s) := "0"], booted := None,
                             tried := b.tried + {s}, marked := b.marked + {s})
    case LastResort(s) =>
      b' == Restarted(b).(booted := Some(s))
    case Commit =>
      && b.booted.Some?
      && b' == b.(env := b.env[Committed(b.booted.value) := "1"][Ok(b.booted.value) := "1"][Try(b.booted.value) := "0"])
    case GateFailed =>
      && b.booted.Some?
      && var s := b.booted.value;
         b' == b.(env := b.env[Ok(s) := "0"], marked := b.marked + {s},
                  failed := b.failed + (if s in b.holds then {b.holds[s]} else {}))
    case Reset =>
      b' == Restarted(b)
    case Rollback =>
      && b.booted.Some? && Get(b.env, Ok(Other(b.booted.value)), "?") == "1" && b.writing.None?
      && var o := Other(b.booted.value);
         b' == b.(env := b.env[Ok(o) := "1"][Try(o) := "0"])
    case Look(readable) =>
      b.writing.None? && b' == AfterLook(b, readable)
  }

  // A reset ends every process: an install under way, and one not yet remembered.
  function Restarted(b: Board): Board {
    b.(booted := None, writing := None, unsaved := None)
  }

  // What boat-update remembers is the slot's last finished write, not being overwritten, and any sign
  // against it in grubenv was put there since.
  ghost predicate Sound(b: Board) {
    && (b.installed.Some? ==> Grounded(b, b.installed.value))
    && (b.unsaved.Some? ==> Grounded(b, b.unsaved.value))
    && (b.writing.Some? ==> b.installed.None? && b.unsaved.None?)
    && (b.unsaved.Some? ==> b.installed.None?)
  }

  ghost predicate Grounded(b: Board, i: Installed) {
    && i.slot in b.holds && b.holds[i.slot] == i.version && i.slot !in b.torn
    && (Get(b.env, Ok(i.slot), "?") == "0" || Counted(Get(b.env, Try(i.slot), "0")) ==>
          i.slot in b.tried + b.marked)
  }

  predicate ByTheClient(e: Event) {
    e.BeginInstall? || e.WriteDone? || e.WriteFailed? || e.MarkedBad? || e.Remember? || e.Rollback? || e.Look?
  }

  lemma ClientStep(b: Board, e: Event, b': Board)
    requires Sound(b) && Happens(b, e, b') && ByTheClient(e)
    ensures Sound(b') && b.failed <= b'.failed
  {
  }

  lemma BootStep(b: Board, e: Event, b': Board)
    requires Sound(b) && Happens(b, e, b') && !ByTheClient(e)
    ensures Sound(b') && b.failed <= b'.failed
  {
  }

  lemma SoundStep(b: Board, e: Event, b': Board)
    requires Sound(b) && Happens(b, e, b')
    ensures Sound(b') && b.failed <= b'.failed
  {
    if ByTheClient(e) { ClientStep(b, e, b'); } else { BootStep(b, e, b'); }
  }

  ghost predicate Run(boards: seq<Board>, events: seq<Event>) {
    && |boards| == |events| + 1
    && forall i :: 0 <= i < |events| ==> Happens(boards[i], events[i], boards[i + 1])
  }

  lemma {:induction false} SoundThroughout(boards: seq<Board>, events: seq<Event>, k: nat)
    requires Run(boards, events) && Sound(boards[0]) && k < |boards|
    ensures Sound(boards[k])
  {
    if k == 0 {
    } else {
      SoundThroughout(boards, events, k - 1);
      SoundStep(boards[k - 1], events[k - 1], boards[k]);
    }
  }

  // Whenever trial_outcome records a version, in any run: its slot is not committed, a boot attempted
  // it or someone marked it bad since it was written, it is what that slot was last written with, and
  // no later install has begun to overwrite it.
  lemma TrialsAreRecordedFairly(boards: seq<Board>, events: seq<Event>, k: nat, version: string)
    requires Run(boards, events) && Sound(boards[0]) && k < |events| && events[k].Look?
    requires version in boards[k + 1].failed && version !in boards[k].failed
    ensures var b := boards[k];
            && b.installed.Some? && b.installed.value.version == version
            && var t := b.installed.value.slot;
               && Get(b.env, Committed(t), "?") != "1"
               && t in b.tried + b.marked
               && t in b.holds && b.holds[t] == version && t !in b.torn
  {
    SoundThroughout(boards, events, k);
    assert Happens(boards[k], events[k], boards[k + 1]);
  }

  // A recorded version stays recorded.
  lemma {:induction false} FailedOnlyGrows(boards: seq<Board>, events: seq<Event>, i: nat, j: nat)
    requires Run(boards, events) && Sound(boards[0]) && i <= j < |boards|
    ensures boards[i].failed <= boards[j].failed
  {
    if i == j {
    } else {
      FailedOnlyGrows(boards, events, i, j - 1);
      SoundThroughout(boards, events, j - 1);
      assert Happens(boards[j - 1], events[j - 1], boards[j]);
      SoundStep(boards[j - 1], events[j - 1], boards[j]);
    }
  }

  // --- a trial that ended is not missed ---

  // grubenv bears the sign: the slot is not committed, and marked bad or out of a counted attempt.
  ghost predicate Ended(b: Board, i: Installed) {
    && b.installed == Some(i) && Get(b.env, Committed(i.slot), "?") != "1"
    && (Get(b.env, Ok(i.slot), "?") == "0" || Counted(Get(b.env, Try(i.slot), "0")))
  }

  // A look from the other slot that can read grubenv.
  predicate Sees(b: Board, e: Event, i: Installed) {
    e == Look(true) && b.booted == Some(Other(i.slot))
  }

  // What takes the sign away, or the memory of the install: a new install, the slot passing after all,
  // and a rollback onto it, which clears its attempts without having looked.
  predicate Erases(b: Board, e: Event, i: Installed) {
    || e.BeginInstall?
    || (e.Commit? && b.booted == Some(i.slot))
    || (e.Rollback? && b.booted == Some(Other(i.slot)))
  }

  lemma SignStaysIff(b: Board, e: Event, b': Board, i: Installed)
    requires Sound(b) && Ended(b, i) && Happens(b, e, b')
    ensures Ended(b', i) <==> !Sees(b, e, i) && !Erases(b, e, i)
    ensures Sees(b, e, i) ==> i.version in b'.failed && b'.installed.None?
  {
    if e.Commit? || e.Rollback? || e.BeginInstall? || e.Look? {
      SignAndTheClient(b, e, b', i);
    }
  }

  lemma SignAndTheClient(b: Board, e: Event, b': Board, i: Installed)
    requires Sound(b) && Ended(b, i) && Happens(b, e, b') && (e.Commit? || e.Rollback? || e.BeginInstall? || e.Look?)
    ensures Ended(b', i) <==> !Sees(b, e, i) && !Erases(b, e, i)
    ensures Sees(b, e, i) ==> i.version in b'.failed && b'.installed.None?
  {
  }

  // Over any run: once the sign is there, the first look from the other slot records the version,
  // however many boots, panics, resets and unreadable looks come before it - unless a new install began,
  // the slot passed after all, or a rollback was made onto it.
  lemma {:induction false} EndedTrialIsRecorded(boards: seq<Board>, events: seq<Event>, i: nat, j: nat, inst: Installed)
    requires Run(boards, events) && Sound(boards[0]) && i <= j < |events| && Ended(boards[i], inst)
    requires forall k :: i <= k < j ==> !Erases(boards[k], events[k], inst)
    requires Sees(boards[j], events[j], inst)
    ensures inst.version in boards[j + 1].failed
    decreases j - i
  {
    SoundThroughout(boards, events, i);
    assert Happens(boards[i], events[i], boards[i + 1]);
    SignStaysIff(boards[i], events[i], boards[i + 1], inst);
    if i == j {
    } else {
      if Sees(boards[i], events[i], inst) {
        FailedOnlyGrows(boards, events, i + 1, j + 1);
      } else {
        EndedTrialIsRecorded(boards, events, i + 1, j, inst);
      }
    }
  }

  // A rollback onto the slot before anyone looked does erase it: the attempts read 0 again, and the
  // ended trial is one that never was.
  lemma RollbackErasesTheSign(b: Board, b': Board, i: Installed)
    requires Ended(b, i) && Happens(b, Rollback, b') && b.booted == Some(Other(i.slot))
    ensures !Ended(b', i) && AfterLook(b', true) == b'
  {
  }
}
