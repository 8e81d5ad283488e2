// Runs of whole verbs, cut by power failures: what holds in every state the disk is ever in.
module Voyages {
  import opened Basics
  import opened Trial
  import opened Versions
  import opened Channel
  import opened UpdateMachine
  import opened UpdateClient

  datatype Verb =
    | Check(answer: ChannelAnswer, followed: string, facts: Facts, url: string, stamp: bool)
    | Download(windows: Option<nat>, background: bool, keyProblem: bool, world: World)
    | Tidy(at: Booted)     // housekeeping, as auto begins with it
    | Look(at: Booted)     // status or history
    | InstallReady(at: Booted, slot: Slot, info: Option<string>, written: bool)
    | InstallFile(name: string, isFile: bool, at: Booted, slot: Slot, info: Option<string>, written: bool)
    | Stream(at: Booted, followed: string, url: string, slot: Slot, end: Streaming)
    | GateFails(version: string)     // boat-commit's own line in failed-versions
    | Cut(undone: nat)     // the power fails: the last writes of the verb before never happened

  function CutPoint(floor: nat, length: nat, undone: nat): nat
    requires floor < length
  {
    if length - 1 - undone < floor then floor else length - 1 - undone
  }

  // One verb, whatever the channel, GRUB, RAUC and the power do.
  method Do(c: UpdateClient, verb: Verb)
    requires c.Idle()
    modifies c
    ensures c.Idle()
  {
    match verb
    case Check(answer, followed, facts, url, stamp) =>
      var found := c.CheckChannel(answer, followed, facts, url, stamp);
    case Download(windows, background, keyProblem, world) =>
      var outcome, n := c.DownloadOffer(windows, background, keyProblem, world, None);
    case Tidy(at) =>
      c.Housekeeping(at);
    case Look(at) =>
      c.TrialOutcome(at);
    case InstallReady(at, slot, info, written) =>
      var chosen := c.Install(None, false, at, slot, info, written);
    case InstallFile(name, isFile, at, slot, info, written) =>
      var chosen := c.Install(Some(name), isFile, at, slot, info, written);
    case Stream(at, followed, url, slot, end) =>
      var offer, marks := c.StreamInstall(at, followed, url, slot, end);
    case GateFails(version) =>
      c.MarkFailed(version);
    case Cut(undone) =>
      c.PowerCut(CutPoint(0, |c.trace|, undone));
  }

  // Nothing is wasted beyond the budget.
  ghost predicate Frugal(s: Snap) {
    forall sha :: Spent(s.waste, sha) <= MAX_REFETCH + 1 + s.waste.cuts + s.waste.clashes
  }

  // The version is neither offered by a check nor chosen by an install or a stream.
  ghost predicate Avoids(trace: seq<Snap>, steps: seq<Step>, j: nat, version: string)
    requires |trace| == |steps| + 1 && j < |steps|
  {
    && (steps[j].Pick? ==> steps[j].version != version)
    && (steps[j].Accept? && steps[j].idx.version == version ==>
          trace[j + 1].saved.offer.None? && trace[j + 1].saved.ready.None?)
  }

  // From a board that never checked a channel, over any verbs in any world, cut anywhere. Each verb's own
  // contract says that it leaves the client Idle, its history a legal run; EveryRun, which does not depend on
  // the verbs, says what holds of every such history: at every write, what ready names is what was signed,
  // no channel's serial has stepped back, no bundle was started over beyond the budget; and once a version
  // has failed, no later check offers it and no later install or stream chooses it.
  method Voyage(d: Digests, st: State, failed: seq<string>, verbs: seq<Verb>) returns (c: UpdateClient)
    requires Fresh(Snap(map[], st, failed, Waste(map[], 0, 0, None)))
    ensures fresh(c) && c.d == d && c.Idle()
    ensures forall i :: 0 <= i < |c.trace| ==> Integrity(d, c.trace[i]) && Frugal(c.trace[i])
    ensures forall i, j :: 0 <= i <= j < |c.trace| ==> NoStepBack(c.trace[i].saved, c.trace[j].saved)
    ensures forall i, j, version :: 0 <= i <= j < |c.steps| && version in c.trace[i].failed ==>
              Avoids(c.trace, c.steps, j, version)
  {
    c := new UpdateClient(d, st, failed);
    for i := 0 to |verbs|
      invariant fresh(c) && c.d == d && c.Idle()
    {
      Do(c, verbs[i]);
    }
    EveryRun(d, c.trace, c.steps);
  }

  lemma EveryRun(d: Digests, trace: seq<Snap>, steps: seq<Step>)
    requires Chain(d, trace, steps) && Fresh(trace[0])
    ensures forall i :: 0 <= i < |trace| ==> Integrity(d, trace[i]) && Frugal(trace[i])
    ensures forall i, j :: 0 <= i <= j < |trace| ==> NoStepBack(trace[i].saved, trace[j].saved)
    ensures forall i, j, version :: 0 <= i <= j < |steps| && version in trace[i].failed ==>
              Avoids(trace, steps, j, version)
  {
    forall i | 0 <= i < |trace| ensures Integrity(d, trace[i]) && Frugal(trace[i]) {
      IntegrityThroughout(d, trace, steps, i);
      forall sha {
        RestartsAreBounded(d, trace, steps, i, sha);
      }
    }
    forall i, j | 0 <= i <= j < |trace| ensures NoStepBack(trace[i].saved, trace[j].saved) {
      SerialsNeverDecrease(d, trace, steps, i, j);
    }
    forall i, j, version | 0 <= i <= j < |steps| && version in trace[i].failed
      ensures Avoids(trace, steps, j, version)
    {
      FailedIsAvoided(d, trace, steps, i, j, version);
    }
  }

  lemma FailedIsAvoided(d: Digests, trace: seq<Snap>, steps: seq<Step>, i: nat, j: nat, version: string)
    requires Chain(d, trace, steps) && i <= j < |steps| && version in trace[i].failed
    ensures Avoids(trace, steps, j, version)
  {
    if steps[j].Pick? {
      FailedIsNeverPicked(d, trace, steps, i, j, version);
    } else if steps[j].Accept? && steps[j].idx.version == version {
      FailedIsNeverOffered(d, trace, steps, i, j, version);
    }
  }

  // --- resuming refines one whole download ---

  // No trial that can end meanwhile is of this version, and none has failed it.
  predicate Lasting(hon: Honest, version: string) {
    version !in hon.start.failed && !OnTrial(hon.start.saved, version)
  }

  // What a check may find between two downloads of one offer: nothing, an index that is refused, or the
  // index of that offer once more.
  ghost predicate Repeats(d: Digests, hon: Honest, answer: ChannelAnswer, followed: string, facts: Facts) {
    answer.Signed? && ValidIndex(answer.index) ==>
      var decision := Decide(d.index, answer.index, followed, hon.start.saved, facts, hon.start.failed);
      || decision.Refused?
      || (&& decision.Offered? && Same(d.index, answer.index, hon.start.saved)
          && OfferOf(answer.index) == hon.offer && Lasting(hon, hon.offer.version))
  }

  // Housekeeping on a board for which the offer, and what was ready, are still worth having.
  predicate StillWanted(hon: Honest, version: string, running: string) {
    Newer(version, running) == Some(true) && Lasting(hon, version)
  }

  predicate LeavesAlone(hon: Honest, at: Booted) {
    && StillWanted(hon, hon.offer.version, at.release)
    && (hon.start.saved.ready.Some? ==> StillWanted(hon, hon.start.saved.ready.value.version, at.release))
  }

  ghost predicate Harmless(d: Digests, hon: Honest, verb: Verb) {
    match verb
    case Check(answer, followed, facts, url, stamp) => Repeats(d, hon, answer, followed, facts)
    case Download(_, _, _, world) => HonestWorld(d, hon, world)
    case Tidy(at) => LeavesAlone(hon, at)
    case GateFails(version) => OnTrial(hon.start.saved, version)
    case Look(_) => true
    case Cut(_) => true
    case _ => false
  }

  lemma DecidesAlike(d: Digests, hon: Honest, s: Snap, idx: Index, followed: string, facts: Facts)
    requires Steady(hon, s) && idx.size > 0
    ensures Decide(d.index, idx, followed, hon.start.saved, facts, hon.start.failed).Refused? <==>
            Decide(d.index, idx, followed, s.saved, facts, s.failed).Refused?
    ensures Same(d.index, idx, s.saved) <==> Same(d.index, idx, hon.start.saved)
    ensures (hon.taken && Lasting(hon, idx.version)
             && Decide(d.index, idx, followed, hon.start.saved, facts, hon.start.failed).Offered?) ==>
              Decide(d.index, idx, followed, s.saved, facts, s.failed).Offered?
  {
    OfferedIsWorthIt(d.index, idx, followed, hon.start.saved, facts, hon.start.failed);
    OfferedIsWorthIt(d.index, idx, followed, s.saved, facts, s.failed);
  }

  // The same index, accepted again, leaves the offer and what was fetched for it as they are.
  lemma AcceptKeeps(d: Digests, hon: Honest, s: Snap, s': Snap, idx: Index, offered: bool, url: string)
    requires Faithful(hon, s) && Same(d.index, idx, s.saved) && ValidIndex(idx) && OfferOf(idx) == hon.offer
    requires hon.taken ==> offered && s'.files == s.files
    requires s'.saved == Accepted(d.index, idx, offered, url, s.saved) && s'.waste == s.waste && s'.failed == s.failed
    requires Fewer(s'.files, s.files)
    ensures Faithful(hon, s')
  {
    assert s'.saved.serials == s.saved.serials && s'.saved.indexHashes == s.saved.indexHashes;
  }

  lemma OnTheWayKeeps(hon: Honest, before: Snap, after: Snap, whole: bool, s: Snap)
    requires Faithful(hon, before) && Faithful(hon, after) && OnTheWay(before, after, whole, s) && (hon.taken ==> whole)
    ensures Faithful(hon, s)
  {
  }

  // What a look at a trial, or housekeeping with nothing to tidy, makes of the state.
  function Looked(s: Snap, verdict: Trial.Standing): Snap
    requires verdict.Failed? ==> s.saved.installed.Some?
  {
    s.(saved := AfterTrial(s.saved, verdict), failed := FailedAfter(s.failed, s.saved, verdict))
  }

  lemma LookKeeps(hon: Honest, s: Snap, verdict: Trial.Standing)
    requires Faithful(hon, s) && (verdict.Failed? ==> s.saved.installed.Some?)
    ensures Faithful(hon, Looked(s, verdict)) && Faithful(hon, s.(failed := Looked(s, verdict).failed))
  {
  }

  lemma NothingToTidy(hon: Honest, s: Snap, at: Booted, verdict: Trial.Standing)
    requires Faithful(hon, s) && LeavesAlone(hon, at) && (verdict.Failed? ==> s.saved.installed.Some?)
    ensures var l := Looked(s, verdict);
            && !ReadyUnwanted(l.saved, at.release, l.failed) && !OfferUnwanted(l.saved, at.release, l.failed)
            && Tidied(l.saved, at.release, l.failed) == l.saved
            && Swept(s.files, s.saved, at.release, l.failed) == s.files
  {
    LookKeeps(hon, s, verdict);
    if s.saved.ready.Some? {
      StaysWanted(hon, Looked(s, verdict), s.saved.ready.value.version, at.release);
    }
    if s.saved.offer.Some? {
      StaysWanted(hon, Looked(s, verdict), s.saved.offer.value.version, at.release);
    }
  }

  lemma StaysWanted(hon: Honest, s: Snap, version: string, running: string)
    requires Steady(hon, s) && StillWanted(hon, version, running)
    ensures !NoLongerWanted(version, running, s.failed)
  {
  }

  method CheckBetween(c: UpdateClient, answer: ChannelAnswer, followed: string, facts: Facts, url: string, stamp: bool,
                      ghost hon: Honest)
    requires c.Idle() && Faithful(hon, c.Now()) && Repeats(c.d, hon, answer, followed, facts)
    modifies c
    ensures c.Idle() && old(c.trace) <= c.trace && old(c.steps) <= c.steps
    ensures c.KeptSince(Some(hon), |old(c.steps)|)
  {
    ghost var before := c.Now();
    if answer.Signed? && ValidIndex(answer.index) {
      DecidesAlike(c.d, hon, before, answer.index, followed, facts);
    }
    var found := c.CheckChannel(answer, followed, facts, url, stamp);
    if found.Some? {
      AcceptKeeps(c.d, hon, before, c.Now(), answer.index, found.value, url);
      ghost var whole := found.value && !AnotherFile(answer.index, before.saved);
      forall k | |old(c.trace)| <= k < |c.trace| ensures Keeps(Some(hon), c.trace[k]) {
        assert OnTheWay(before, c.Now(), whole, c.trace[k]);
        OnTheWayKeeps(hon, before, c.Now(), whole, c.trace[k]);
      }
    }
  }

  lemma LookedSince(hon: Honest, s: Snap, verdict: Trial.Standing, trace: seq<Snap>, from: nat)
    requires Faithful(hon, s) && (verdict.Failed? ==> s.saved.installed.Some?)
    requires from < |trace| && trace[from] == s
    requires forall k :: from < k < |trace| ==>
               trace[k] == Looked(s, verdict) || trace[k] == s.(failed := Looked(s, verdict).failed)
    ensures forall k :: from <= k < |trace| ==> Keeps(Some(hon), trace[k])
  {
    LookKeeps(hon, s, verdict);
  }

  method TidyBetween(c: UpdateClient, at: Booted, ghost hon: Honest)
    requires c.Idle() && Faithful(hon, c.Now()) && LeavesAlone(hon, at)
    modifies c
    ensures c.Idle() && old(c.trace) <= c.trace && old(c.steps) <= c.steps
    ensures c.KeptSince(Some(hon), |old(c.steps)|)
  {
    ghost var before, verdict := c.Now(), TrialVerdict(c.saved.installed, at.slot, at.env);
    NothingToTidy(hon, before, at, verdict);
    c.Housekeeping(at);
    assert c.Now() == Looked(before, verdict);
    LookedSince(hon, before, verdict, c.trace, |old(c.steps)|);
  }

  method LookBetween(c: UpdateClient, at: Booted, ghost hon: Honest)
    requires c.Idle() && Faithful(hon, c.Now())
    modifies c
    ensures c.Idle() && old(c.trace) <= c.trace && old(c.steps) <= c.steps
    ensures c.KeptSince(Some(hon), |old(c.steps)|)
  {
    ghost var before, verdict := c.Now(), TrialVerdict(c.saved.installed, at.slot, at.env);
    c.TrialOutcome(at);
    assert c.Now() == Looked(before, verdict);
    LookedSince(hon, before, verdict, c.trace, |old(c.steps)|);
  }

  // One verb of an honest voyage; floor is where it began, before which no power cut goes back.
  method DoBetween(c: UpdateClient, verb: Verb, floor: nat, ghost hon: Honest)
    requires c.Idle() && floor < |c.trace| && c.KeptSince(Some(hon), floor) && Harmless(c.d, hon, verb)
    modifies c
    ensures c.Idle() && floor < |c.trace| && c.KeptSince(Some(hon), floor)
  {
    assert Keeps(Some(hon), c.trace[|c.steps|]);
    match verb
    case Check(answer, followed, facts, url, stamp) =>
      CheckBetween(c, answer, followed, facts, url, stamp, hon);
    case Download(windows, background, keyProblem, world) =>
      var outcome, n := c.DownloadOffer(windows, background, keyProblem, world, Some(hon));
    case Tidy(at) =>
      TidyBetween(c, at, hon);
    case Look(at) =>
      LookBetween(c, at, hon);
    case GateFails(version) =>
      c.MarkFailed(version);
    case Cut(undone) =>
      var k := CutPoint(floor, |c.trace|, undone);
      assert Keeps(Some(hon), c.trace[k]);
      c.PowerCut(k);
    case _ =>
  }

  // The timer's runs and a person's, with an honest channel: downloads, checks that find the same index
  // again, another one they refuse, or nothing, housekeeping that still wants the offer, trials that
  // end - cut off at any window, block or write, as often as it happens. In every state the partial
  // download is a prefix of the published file, nothing of it is lost and nothing is charged.
  method HonestVoyage(c: UpdateClient, runs: seq<Verb>, ghost hon: Honest)
    requires c.Idle() && Faithful(hon, c.Now())
    requires forall r :: r in runs ==> Harmless(c.d, hon, r)
    modifies c
    ensures c.Idle() && c.KeptSince(Some(hon), |old(c.steps)|) && |old(c.steps)| <= |c.steps|
  {
    var start := |c.trace| - 1;
    for i := 0 to |runs|
      invariant c.Idle() && start < |c.trace| && c.KeptSince(Some(hon), start)
    {
      assert runs[i] in runs;
      DoBetween(c, runs[i], start, hon);
    }
  }

  // A newer index that names the same bundle: a new beginning, from which another honest voyage follows,
  // with every byte that was there.
  function Renewed(hon: Honest, idx: Index, now: Snap): Honest
    requires idx.size > 0
  {
    hon.(offer := OfferOf(idx), start := now)
  }

  predicate SameBundle(o: Offer, idx: Index) {
    idx.bundle == o.bundle && idx.sha256 == o.sha256 && idx.size == o.size
  }

  // After any honest voyage, a check that offers the same bundle under another index - of a higher
  // serial, with other notes, another version - throws nothing of the partial download away.
  method RenewedVoyage(c: UpdateClient, runs: seq<Verb>, idx: Index, followed: string, facts: Facts, url: string,
                       stamp: bool, ghost hon: Honest)
      returns (found: Option<bool>)
    requires c.Idle() && Faithful(hon, c.Now()) && hon.taken && hon.start == c.Now()
    requires forall r :: r in runs ==> Harmless(c.d, hon, r)
    requires SameBundle(hon.offer, idx)
    modifies c
    ensures c.Idle()
    ensures found == Some(true) ==>
              && idx.size > 0 && Faithful(Renewed(hon, idx, c.Now()), c.Now())
              && c.saved.offer == Some(OfferOf(idx))
    ensures found == Some(true) && idx.bundle !in c.files ==>
              |Have(old(c.files), PartName(idx.bundle))| <= |Have(c.files, PartName(idx.bundle))|
  {
    HonestVoyage(c, runs, hon);
    assert Keeps(Some(hon), c.trace[|c.steps|]);
    found := c.CheckChannel(Signed(idx), followed, facts, url, stamp);
  }

  // However a download was interrupted before, and whatever was checked and tidied in between, one run
  // that nothing gets in the way of ends with exactly the published file, without a single restart
  // charged on the way.
  method ResumedDownload(c: UpdateClient, runs: seq<Verb>, last: World, ghost hon: Honest) returns (outcome: Outcome)
    requires c.Idle() && Faithful(hon, c.Now())
    requires forall r :: r in runs ==> Harmless(c.d, hon, r)
    requires HonestWorld(c.d, hon, last) && Lucky(hon, last)
    modifies c
    ensures outcome == Done(true) && c.Idle() && hon.offer.bundle in c.files && c.files[hon.offer.bundle] == hon.file
    ensures c.saved.ready.Some? && c.saved.ready.value.sha256 == hon.offer.sha256
    ensures c.saved.refetch == hon.start.saved.refetch && c.waste.spent == hon.start.waste.spent
  {
    HonestVoyage(c, runs, hon);
    assert Keeps(Some(hon), c.trace[|c.steps|]);
    var n;
    outcome, n := c.DownloadOffer(None, false, false, last, Some(hon));
    assert Keeps(Some(hon), c.trace[|c.steps|]);
  }
}
