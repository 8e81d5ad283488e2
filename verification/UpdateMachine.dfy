// The update client's durable state as a transition system: every write it makes is one of these steps,
// a power cut can come between any two, and the invariants hold in every state of every run.
module UpdateMachine {
  import opened Basics
  import opened Trial
  import opened Versions
  import opened Channel

  // The digests, uninterpreted.
  datatype Digests = Digests(file: Bytes -> Digest, index: IndexHash)

  // What is on disk - downloads/, state.json, failed-versions - and the history the bounds speak of:
  // how often each bundle was started over since the last new index, since then the power cuts and the
  // indexes accepted that shared the stored hash under another serial, and
  // the bundle whose restart is not yet charged.
  datatype Snap = Snap(files: map<string, Bytes>, saved: State, failed: seq<string>, waste: Waste)

  datatype Waste = Waste(spent: map<Digest, nat>, cuts: nat, clashes: nat, uncharged: Option<Digest>)

  datatype Step =
    | Unlink(name: string)
    | Append(data: Bytes)                     // to the offered bundle's .part
    | Truncate(length: nat)                   // the offered bundle's .part
    | Promote                                 // the checked .part becomes the bundle
    | Restart                                 // the offered bundle's .part is thrown away
    | Charge                                  // refetch's save
    | GiveUp(charged: bool)                   // give_up's save
    | MarkReady                               // finish_download's save
    | Accept(idx: Index, facts: Facts, url: string)   // check_channel's save
    | Tidy(dropReady: bool, dropOffer: bool)  // housekeeping's save
    | Wait(waiting: bool)
    | Forget                                  // installed is dropped
    | Remember(installed: Installed)
    | Stamp                                   // a save of fields not modelled
    | Fail(version: string)                   // a line in failed-versions, also boat-commit's
    | Pick(version: string, running: string)  // the release an install or a stream chooses; no write
    | PowerCut                                // or a run that ends early

  function PartName(bundle: string): string {
    bundle + ".part"
  }

  function Have(files: map<string, Bytes>, name: string): Bytes {
    if name in files then files[name] else []
  }

  function Count(st: State, sha: Digest): nat {
    if sha in st.refetch then st.refetch[sha] else 0
  }

  function Spent(w: Waste, sha: Digest): nat {
    if sha in w.spent then w.spent[sha] else 0
  }

  function Wasted(w: Waste, sha: Digest): Waste {
    w.(spent := w.spent[sha := Spent(w, sha) + 1], uncharged := Some(sha))
  }

  function Accounted(w: Waste): Waste {
    w.(uncharged := None)
  }

  function WasteAfter(hash: IndexHash, idx: Index, st: State, w: Waste): Waste {
    if !IsStored(hash, idx, st) then w.(spent := map[], cuts := 0, clashes := 0)
    else if !Same(hash, idx, st) then w.(clashes := w.clashes + 1)
    else w
  }

  function AfterCut(w: Waste): Waste {
    w.(cuts := w.cuts + 1, uncharged := None)
  }

  function Charged(st: State, sha: Digest): State {
    st.(refetch := st.refetch[sha := Count(st, sha) + 1])
  }

  function GivenUp(st: State, sha: Digest): State {
    st.(givenUp := st.givenUp + {sha}, offer := None)
  }

  function Dropped(dropReady: bool, dropOffer: bool, st: State): State {
    st.(ready := if dropReady then None else st.ready, offer := if dropOffer then None else st.offer)
  }

  function ReadyOf(o: Offer): Ready {
    Ready(o.bundle, o.version, o.sha256)
  }

  // Only what discard_downloads(None) leaves.
  predicate Discarded(files: map<string, Bytes>) {
    forall name :: name in files ==> name == ".part"
  }

  ghost predicate Accepts(d: Digests, s: Snap, idx: Index, facts: Facts, url: string, s': Snap) {
    && ValidIndex(idx)
    && var decision := Decide(d.index, idx, idx.channel, s.saved, facts, s.failed);
       && !decision.Refused?
       && (!decision.Offered? || AnotherFile(idx, s.saved) ==> Discarded(s.files))
       && s' == s.(saved := Accepted(d.index, idx, decision.Offered?, url, s.saved),
                   waste := WasteAfter(d.index, idx, s.saved, s.waste))
  }

  ghost predicate Next(d: Digests, s: Snap, step: Step, s': Snap) {
    && (s.waste.uncharged.Some? ==> step.Charge? || step.GiveUp? || step.PowerCut?)
    && match step
       case Unlink(name) =>
         s' == s.(files := s.files - {name})
       case Append(data) =>
         && s.saved.offer.Some?
         && var o := s.saved.offer.value;
            && |Have(s.files, PartName(o.bundle)) + data| <= o.size
            && s' == s.(files := s.files[PartName(o.bundle) := Have(s.files, PartName(o.bundle)) + data])
       case Truncate(length) =>
         && s.saved.offer.Some?
         && var p := PartName(s.saved.offer.value.bundle);
            p in s.files && length <= |s.files[p]| && s' == s.(files := s.files[p := s.files[p][..length]])
       case Promote =>
         && s.saved.offer.Some?
         && var o := s.saved.offer.value;
            var p := PartName(o.bundle);
            && p in s.files && |s.files[p]| == o.size && d.file(s.files[p]) == o.sha256
            && s' == s.(files := (s.files - {p})[o.bundle := s.files[p]])
       case Restart =>
         && s.saved.offer.Some?
         && var o := s.saved.offer.value;
            s' == s.(files := s.files - {PartName(o.bundle)}, waste := Wasted(s.waste, o.sha256))
       case Charge =>
         && s.saved.offer.Some? && s.waste.uncharged == Some(s.saved.offer.value.sha256)
         && Count(s.saved, s.saved.offer.value.sha256) < MAX_REFETCH
         && s' == s.(saved := Charged(s.saved, s.saved.offer.value.sha256), waste := Accounted(s.waste))
       case GiveUp(charged) =>
         && s.saved.offer.Some?
         && var sha := s.saved.offer.value.sha256;
            && charged == (s.waste.uncharged == Some(sha)) && (s.waste.uncharged.Some? ==> charged)
            && s' == s.(saved := GivenUp(if charged then Charged(s.saved, sha) else s.saved, sha),
                        waste := Accounted(s.waste))
       case MarkReady =>
         && s.saved.offer.Some?
         && var o := s.saved.offer.value;
            && o.bundle in s.files && d.file(s.files[o.bundle]) == o.sha256
            && s' == s.(saved := s.saved.(ready := Some(ReadyOf(o))))
       case Accept(idx, facts, url) =>
         Accepts(d, s, idx, facts, url, s')
       case Tidy(dropReady, dropOffer) =>
         s' == s.(saved := Dropped(dropReady, dropOffer, s.saved))
       case Wait(waiting) =>
         s' == s.(saved := s.saved.(waiting := waiting))
       case Forget =>
         s' == s.(saved := s.saved.(installed := None))
       case Remember(installed) =>
         s' == s.(saved := s.saved.(installed := Some(installed)))
       case Stamp =>
         s' == s
       case Fail(version) =>
         s' == s.(failed := s.failed + [version])
       case Pick(version, running) =>
         && s.saved.offer.Some? && version !in s.failed && Newer(version, running) == Some(true)
         && s' == s
       case PowerCut =>
         s' == s.(waste := AfterCut(s.waste))
  }

  // A board that has never checked a channel.
  ghost predicate Fresh(s: Snap) {
    && s.files == map[] && s.saved.serials == map[] && s.saved.indexHashes == map[]
    && s.saved.offer.None? && s.saved.ready.None? && s.saved.givenUp == {} && s.saved.refetch == map[]
    && s.waste.spent == map[] && s.waste.clashes == 0 && s.waste.uncharged.None?
  }

  ghost predicate Chain(d: Digests, trace: seq<Snap>, steps: seq<Step>) {
    && |trace| == |steps| + 1
    && forall i :: 0 <= i < |steps| ==> Linked(d, trace, steps, i)
  }

  ghost predicate Linked(d: Digests, trace: seq<Snap>, steps: seq<Step>, i: nat) {
    i < |steps| && i + 1 < |trace| && Next(d, trace[i], steps[i], trace[i + 1])
  }

  lemma AcceptIsAStep(d: Digests, s: Snap, idx: Index, facts: Facts, url: string, offered: bool)
    requires ValidIndex(idx) && s.waste.uncharged.None?
    requires !Decide(d.index, idx, idx.channel, s.saved, facts, s.failed).Refused?
    requires offered == Decide(d.index, idx, idx.channel, s.saved, facts, s.failed).Offered?
    requires (offered && !AnotherFile(idx, s.saved)) || Discarded(s.files)
    ensures Next(d, s, Accept(idx, facts, url),
                 Snap(s.files, Accepted(d.index, idx, offered, url, s.saved), s.failed,
                      WasteAfter(d.index, idx, s.saved, s.waste)))
  {
  }

  lemma OneMore(d: Digests, trace: seq<Snap>, steps: seq<Step>, step: Step, s: Snap)
    requires Chain(d, trace, steps) && Next(d, trace[|steps|], step, s)
    ensures Chain(d, trace + [s], steps + [step])
  {
    forall i | 0 <= i < |steps + [step]| ensures Linked(d, trace + [s], steps + [step], i) {
      if i < |steps| { assert Linked(d, trace, steps, i); }
    }
  }

  lemma CutShort(d: Digests, trace: seq<Snap>, steps: seq<Step>, k: nat)
    requires Chain(d, trace, steps) && k < |trace|
    ensures Chain(d, trace[..k + 1], steps[..k])
  {
    var trace', steps' := trace[..k + 1], steps[..k];
    forall i | 0 <= i < |steps'| ensures Linked(d, trace', steps', i) {
      assert Linked(d, trace, steps, i);
    }
  }

  // --- download integrity ---

  // Whenever ready names a file that exists, that file has ready's hash; ready and offer never disagree
  // on the hash, and a ready file is the offered bundle.
  ghost predicate Integrity(d: Digests, s: Snap) {
    && (s.saved.offer.Some? ==> IsBundleName(s.saved.offer.value.bundle) && s.saved.offer.value.size > 0)
    && (s.saved.ready.Some? ==> IsBundleName(s.saved.ready.value.bundle))
    && (s.saved.ready.Some? && s.saved.ready.value.bundle in s.files ==>
          d.file(s.files[s.saved.ready.value.bundle]) == s.saved.ready.value.sha256)
    && (s.saved.ready.Some? && s.saved.offer.Some? ==>
          && s.saved.ready.value.sha256 == s.saved.offer.value.sha256
          && (s.saved.ready.value.bundle in s.files ==> s.saved.ready.value.bundle == s.saved.offer.value.bundle))
  }

  // A partial download is never mistaken for a bundle.
  lemma PartIsNoBundle(bundle: string, other: string)
    requires IsBundleName(other)
    ensures PartName(bundle) != other && other != ".part"
  {
    var p := PartName(bundle);
    assert p[|p| - 1] == 't' && other[|other| - 1] in {'b', '\n'} by {
      var t := WithoutNewline(other);
      assert t[|t| - 1] == t[|t| - 6..][5] == 'b';
    }
    assert ".part"[4] == 't';
  }

  lemma FileStep(d: Digests, s: Snap, step: Step, s': Snap)
    requires Integrity(d, s) && Next(d, s, step, s') && s'.saved == s.saved
    ensures Integrity(d, s')
  {
    if s.saved.offer.Some? && s.saved.ready.Some? {
      PartIsNoBundle(s.saved.offer.value.bundle, s.saved.ready.value.bundle);
    }
  }

  lemma AcceptedIntact(d: Digests, s: Snap, idx: Index, offered: bool, url: string)
    requires Integrity(d, s) && ValidIndex(idx) && ((offered && !AnotherFile(idx, s.saved)) || Discarded(s.files))
    ensures Integrity(d, s.(saved := Accepted(d.index, idx, offered, url, s.saved)))
  {
    if s.saved.ready.Some? {
      PartIsNoBundle("", s.saved.ready.value.bundle);
    }
  }

  lemma IntegrityStep(d: Digests, s: Snap, step: Step, s': Snap)
    requires Integrity(d, s) && Next(d, s, step, s')
    ensures Integrity(d, s')
  {
    if step.Accept? {
      var decision := Decide(d.index, step.idx, step.idx.channel, s.saved, step.facts, s.failed);
      AcceptedIntact(d, s, step.idx, decision.Offered?, step.url);
    } else if s'.saved == s.saved {
      FileStep(d, s, step, s');
    }
  }

  lemma {:induction false} IntegrityThroughout(d: Digests, trace: seq<Snap>, steps: seq<Step>, i: nat)
    requires Chain(d, trace, steps) && Fresh(trace[0]) && i < |trace|
    ensures Integrity(d, trace[i])
  {
    if i == 0 {
    } else {
      IntegrityThroughout(d, trace, steps, i - 1);
      assert Linked(d, trace, steps, i - 1);
      IntegrityStep(d, trace[i - 1], steps[i - 1], trace[i]);
    }
  }

  // --- monotone acceptance per channel ---

  lemma StepNeverStepsBack(d: Digests, s: Snap, step: Step, s': Snap)
    requires Next(d, s, step, s')
    ensures NoStepBack(s.saved, s'.saved)
  {
    if step.Accept? {
      AcceptingNeverStepsBack(d.index, step.idx, step.idx.channel, s.saved, step.facts, s.failed, step.url);
    }
  }

  // Over any run of checks, refusals, downloads, installs and power cuts, whatever channels they follow.
  lemma {:induction false} SerialsNeverDecrease(d: Digests, trace: seq<Snap>, steps: seq<Step>, i: nat, j: nat)
    requires Chain(d, trace, steps) && i <= j < |trace|
    ensures NoStepBack(trace[i].saved, trace[j].saved)
  {
    if i == j {
    } else {
      SerialsNeverDecrease(d, trace, steps, i, j - 1);
      assert Linked(d, trace, steps, j - 1);
      StepNeverStepsBack(d, trace[j - 1], steps[j - 1], trace[j]);
    }
  }

  lemma AcceptRecords(d: Digests, s: Snap, idx: Index, facts: Facts, url: string, s': Snap)
    requires Accepts(d, s, idx, facts, url, s')
    ensures idx.serial > Seen(s.saved, idx.channel) || Same(d.index, idx, s.saved)
    ensures idx.channel in s'.saved.serials && s'.saved.serials[idx.channel] == idx.serial
    ensures IsStored(d.index, idx, s'.saved)
  {
  }

  lemma AcceptedAt(d: Digests, trace: seq<Snap>, steps: seq<Step>, i: nat)
    requires Chain(d, trace, steps) && i < |steps| && steps[i].Accept?
    ensures var idx := steps[i].idx;
            && (idx.serial > Seen(trace[i].saved, idx.channel) || Same(d.index, idx, trace[i].saved))
            && idx.channel in trace[i + 1].saved.serials
            && trace[i + 1].saved.serials[idx.channel] == idx.serial && IsStored(d.index, idx, trace[i + 1].saved)
  {
    assert Linked(d, trace, steps, i);
    AcceptRecords(d, trace[i], steps[i].idx, steps[i].facts, steps[i].url, trace[i + 1]);
  }

  lemma LaterAcceptance(hash: IndexHash, st: State, st': State, i: Index, j: Index)
    requires NoStepBack(st, st') && i.channel == j.channel
    requires i.channel in st.serials && st.serials[i.channel] == i.serial && IsStored(hash, i, st)
    requires j.serial > Seen(st', j.channel) || Same(hash, j, st')
    ensures i.serial <= j.serial && (i.serial == j.serial ==> hash(i) == hash(j))
  {
  }

  // Two indexes of a channel accepted with the same serial have the same hash.
  lemma EqualSerialsEqualHashes(d: Digests, trace: seq<Snap>, steps: seq<Step>, i: nat, j: nat)
    requires Chain(d, trace, steps) && i < j < |steps| && steps[i].Accept? && steps[j].Accept?
    requires steps[i].idx.channel == steps[j].idx.channel
    ensures steps[i].idx.serial <= steps[j].idx.serial
    ensures steps[i].idx.serial == steps[j].idx.serial ==> d.index(steps[i].idx) == d.index(steps[j].idx)
  {
    AcceptedAt(d, trace, steps, i);
    AcceptedAt(d, trace, steps, j);
    SerialsNeverDecrease(d, trace, steps, i + 1, j);
    LaterAcceptance(d.index, trace[i + 1].saved, trace[j].saved, steps[i].idx, steps[j].idx);
  }

  // The index is the one last accepted of its channel.
  predicate LeftAt(hash: IndexHash, idx: Index, st: State) {
    Seen(st, idx.channel) == idx.serial && IsStored(hash, idx, st)
  }

  lemma OtherChannelsStay(d: Digests, s: Snap, other: Index, facts: Facts, url: string, s': Snap, idx: Index)
    requires Accepts(d, s, other, facts, url, s') && other.channel != idx.channel && LeftAt(d.index, idx, s.saved)
    ensures LeftAt(d.index, idx, s'.saved)
  {
  }

  lemma StaysLeftAt(d: Digests, s: Snap, step: Step, s': Snap, idx: Index)
    requires Next(d, s, step, s') && LeftAt(d.index, idx, s.saved)
    requires step.Accept? ==> step.idx.channel != idx.channel
    ensures LeftAt(d.index, idx, s'.saved)
  {
    if step.Accept? {
      OtherChannelsStay(d, s, step.idx, step.facts, step.url, s', idx);
    } else {
      assert s'.saved.serials == s.saved.serials && s'.saved.indexHashes == s.saved.indexHashes;
    }
  }

  lemma {:induction false} ChannelStaysAsLeft(d: Digests, trace: seq<Snap>, steps: seq<Step>, i: nat, j: nat,
                                              idx: Index)
    requires Chain(d, trace, steps) && i <= j < |trace| && LeftAt(d.index, idx, trace[i].saved)
    requires forall k :: i <= k < j && steps[k].Accept? ==> steps[k].idx.channel != idx.channel
    ensures LeftAt(d.index, idx, trace[j].saved)
  {
    if i == j {
    } else {
      ChannelStaysAsLeft(d, trace, steps, i, j - 1, idx);
      assert Linked(d, trace, steps, j - 1);
      StaysLeftAt(d, trace[j - 1], steps[j - 1], trace[j], idx);
    }
  }

  // Whatever is checked on other channels, and whatever else happens, in between: a channel left at an
  // index is found at that index, and coming back to it is no replay.
  lemma UnchangedIndexIsStillAccepted(d: Digests, trace: seq<Snap>, steps: seq<Step>, i: nat, j: nat, facts: Facts,
                                      failed: seq<string>)
    requires Chain(d, trace, steps) && i < j < |trace| && steps[i].Accept? && ValidIndex(steps[i].idx)
    requires forall k :: i < k < j && steps[k].Accept? ==> steps[k].idx.channel != steps[i].idx.channel
    requires facts.compatible == Some(steps[i].idx.compatible) && ParseVersion(facts.running).Some?
    ensures !Decide(d.index, steps[i].idx, steps[i].idx.channel, trace[j].saved, facts, failed).Refused?
  {
    AcceptedAt(d, trace, steps, i);
    ChannelStaysAsLeft(d, trace, steps, i + 1, j, steps[i].idx);
    UnchangedChannelIsAccepted(d.index, steps[i].idx, trace[j].saved, facts, failed);
  }

  // An index that a later one has superseded is refused in every later state of every run: no replay,
  // and no rollback of the channel, gets past the serial, whatever was checked or cut off in between.
  lemma SupersededIsRefused(d: Digests, trace: seq<Snap>, steps: seq<Step>, i: nat, j: nat, earlier: Index,
                            followed: string, facts: Facts, failed: seq<string>)
    requires Chain(d, trace, steps) && i < |steps| && i < j < |trace| && steps[i].Accept?
    requires earlier.channel == steps[i].idx.channel && earlier.serial < steps[i].idx.serial
    ensures Decide(d.index, earlier, followed, trace[j].saved, facts, failed).Refused?
  {
    AcceptedAt(d, trace, steps, i);
    SerialsNeverDecrease(d, trace, steps, i + 1, j);
  }

  // --- bounded waste ---

  // An accepted index that is not the one stored, but has its hash.
  ghost predicate Clashes(d: Digests, s: Snap, step: Step) {
    step.Accept? && IsStored(d.index, step.idx, s.saved) && !Same(d.index, step.idx, s.saved)
  }

  // A bundle that used its refetches is given up, only a clash brings it back for another, and every
  // restart was charged, but for the one under way and one for each power cut.
  ghost predicate Within(s: Snap, sha: Digest) {
    && (Count(s.saved, sha) <= MAX_REFETCH || sha in s.saved.givenUp)
    && Count(s.saved, sha) <= MAX_REFETCH + 1 + s.waste.clashes
    && (Offers(s.saved, sha) && Count(s.saved, sha) > MAX_REFETCH ==>
          Count(s.saved, sha) <= MAX_REFETCH + s.waste.clashes)
    && Spent(s.waste, sha) <= Count(s.saved, sha) + s.waste.cuts + (if s.waste.uncharged == Some(sha) then 1 else 0)
  }

  predicate Offers(st: State, sha: Digest) {
    st.offer.Some? && st.offer.value.sha256 == sha
  }

  // Without a clash an offer is never of a bundle that was given up; and only the offered bundle is being
  // started over.
  ghost predicate Consistent(s: Snap) {
    && (s.saved.offer.Some? && s.saved.offer.value.sha256 in s.saved.givenUp ==> s.waste.clashes > 0)
    && (s.waste.uncharged.Some? ==> Offers(s.saved, s.waste.uncharged.value))
  }

  ghost predicate Budget(s: Snap) {
    Consistent(s) && forall sha :: Within(s, sha)
  }

  lemma AcceptStaysConsistent(d: Digests, s: Snap, idx: Index, facts: Facts, url: string, s': Snap)
    requires Consistent(s) && Accepts(d, s, idx, facts, url, s') && s.waste.uncharged.None?
    ensures Consistent(s')
  {
  }

  lemma StaysConsistent(d: Digests, s: Snap, step: Step, s': Snap)
    requires Consistent(s) && Next(d, s, step, s')
    ensures Consistent(s')
  {
    if step.Accept? {
      AcceptStaysConsistent(d, s, step.idx, step.facts, step.url, s');
    }
  }

  lemma ChargeStaysWithin(d: Digests, s: Snap, step: Step, s': Snap, sha: Digest)
    requires Consistent(s) && Within(s, sha) && Next(d, s, step, s') && (step.Charge? || step.GiveUp?)
    requires s.saved.offer.Some? ==> Within(s, s.saved.offer.value.sha256)
    ensures Within(s', sha)
  {
  }

  lemma AcceptStaysWithin(d: Digests, s: Snap, idx: Index, facts: Facts, url: string, s': Snap, sha: Digest)
    requires Within(s, sha) && Consistent(s) && Accepts(d, s, idx, facts, url, s') && s.waste.uncharged.None?
    ensures Within(s', sha)
  {
    if IsStored(d.index, idx, s.saved) {
      assert s'.saved.refetch == s.saved.refetch && s'.saved.givenUp == s.saved.givenUp;
      if Offers(s'.saved, sha) && Same(d.index, idx, s.saved) {
        assert sha !in s.saved.givenUp;
      }
    } else {
      assert s'.saved.refetch == map[] && s'.waste.spent == map[];
    }
  }

  lemma StaysWithin(d: Digests, s: Snap, step: Step, s': Snap, sha: Digest)
    requires Consistent(s) && Within(s, sha) && Next(d, s, step, s')
    requires s.saved.offer.Some? ==> Within(s, s.saved.offer.value.sha256)
    ensures Within(s', sha)
  {
    if step.Charge? || step.GiveUp? {
      ChargeStaysWithin(d, s, step, s', sha);
    } else if step.Accept? {
      AcceptStaysWithin(d, s, step.idx, step.facts, step.url, s', sha);
    } else {
      assert s'.saved.refetch == s.saved.refetch && s'.saved.givenUp == s.saved.givenUp;
    }
  }

  lemma BudgetStep(d: Digests, s: Snap, step: Step, s': Snap)
    requires Budget(s) && Next(d, s, step, s')
    ensures Budget(s')
  {
    StaysConsistent(d, s, step, s');
    forall sha ensures Within(s', sha) {
      assert Within(s, sha);
      StaysWithin(d, s, step, s', sha);
    }
  }

  lemma FreshIsWithin(s: Snap)
    requires Fresh(s)
    ensures Budget(s)
  {
    forall sha ensures Within(s, sha) { }
  }

  lemma {:induction false} BudgetThroughout(d: Digests, trace: seq<Snap>, steps: seq<Step>, i: nat)
    requires Chain(d, trace, steps) && Fresh(trace[0]) && i < |trace|
    ensures Budget(trace[i])
  {
    if i > 0 {
      BudgetThroughout(d, trace, steps, i - 1);
      assert Linked(d, trace, steps, i - 1);
      BudgetStep(d, trace[i - 1], steps[i - 1], trace[i]);
    } else {
      FreshIsWithin(trace[0]);
    }
  }

  // Bounded waste over every run, for any hash: since the last new index a bundle was started over at
  // most MAX_REFETCH + 1 times, plus once for each power cut and each clash.
  lemma RestartsAreBounded(d: Digests, trace: seq<Snap>, steps: seq<Step>, i: nat, sha: Digest)
    requires Chain(d, trace, steps) && Fresh(trace[0]) && i < |trace|
    ensures Spent(trace[i].waste, sha) <= MAX_REFETCH + 1 + trace[i].waste.cuts + trace[i].waste.clashes
  {
    BudgetThroughout(d, trace, steps, i);
    assert Within(trace[i], sha);
  }

  // Where the clashes counted come from.
  lemma {:induction false} ClashesWereAccepted(d: Digests, trace: seq<Snap>, steps: seq<Step>, i: nat)
    requires Chain(d, trace, steps) && i < |trace| && trace[0].waste.clashes == 0
    ensures trace[i].waste.clashes > 0 ==> exists k :: 0 <= k < i && Clashes(d, trace[k], steps[k])
  {
    if i == 0 {
    } else {
      ClashesWereAccepted(d, trace, steps, i - 1);
      assert Linked(d, trace, steps, i - 1);
      assert trace[i].waste.clashes > trace[i - 1].waste.clashes ==> Clashes(d, trace[i - 1], steps[i - 1]);
    }
  }

  // The record of a given-up bundle is dropped only by an index with another hash.
  lemma {:induction false} RecordStays(d: Digests, trace: seq<Snap>, steps: seq<Step>, i: nat, j: nat, sha: Digest)
    requires Chain(d, trace, steps) && i <= j < |trace| && sha in trace[i].saved.givenUp
    requires forall k :: i <= k < j && steps[k].Accept? ==> IsStored(d.index, steps[k].idx, trace[k].saved)
    ensures sha in trace[j].saved.givenUp
  {
    if i == j {
    } else {
      RecordStays(d, trace, steps, i, j - 1, sha);
      assert Linked(d, trace, steps, j - 1);
    }
  }

  // Which bundle a step fetches: the one it writes to, or starts over.
  ghost predicate Fetches(s: Snap, step: Step, sha: Digest) {
    (step.Append? || step.Restart?) && s.saved.offer.Some? && s.saved.offer.value.sha256 == sha
  }

  // A bundle once given up is not fetched again - no byte of it is written - until an index with
  // another hash has been accepted, or one that clashes with the stored one.
  lemma GivenUpStaysDown(d: Digests, trace: seq<Snap>, steps: seq<Step>, i: nat, j: nat, sha: Digest)
    requires Chain(d, trace, steps) && Fresh(trace[0]) && i <= j < |steps|
    requires sha in trace[i].saved.givenUp
    requires forall k :: i <= k < j && steps[k].Accept? ==> IsStored(d.index, steps[k].idx, trace[k].saved)
    ensures Fetches(trace[j], steps[j], sha) ==> trace[j].waste.clashes > 0
    ensures Fetches(trace[j], steps[j], sha) ==> exists k :: 0 <= k < j && Clashes(d, trace[k], steps[k])
  {
    RecordStays(d, trace, steps, i, j, sha);
    BudgetThroughout(d, trace, steps, j);
    ClashesWereAccepted(d, trace, steps, j);
    assert Consistent(trace[j]);
  }

  // --- failed versions ---

  lemma {:induction false} FailedOnlyGrows(d: Digests, trace: seq<Snap>, steps: seq<Step>, i: nat, j: nat)
    requires Chain(d, trace, steps) && i <= j < |trace|
    ensures trace[i].failed <= trace[j].failed
  {
    if i == j {
    } else {
      FailedOnlyGrows(d, trace, steps, i, j - 1);
      assert Linked(d, trace, steps, j - 1);
    }
  }

  // Once a version is recorded as failed, no later index that names it becomes an offer.
  lemma FailedIsNeverOffered(d: Digests, trace: seq<Snap>, steps: seq<Step>, i: nat, j: nat, version: string)
    requires Chain(d, trace, steps) && i <= j < |steps| && version in trace[i].failed
    requires steps[j].Accept? && steps[j].idx.version == version
    ensures trace[j + 1].saved.offer.None? && trace[j + 1].saved.ready.None?
  {
    FailedOnlyGrows(d, trace, steps, i, j);
    assert Linked(d, trace, steps, j);
  }

  // Nor does any later install that chooses for itself, or stream, choose it. That no choice is of a version
  // then in failed-versions is what the client's code guarantees, by ReadyToInstall's and OfferToStream's
  // housekeeping before it; Pick records it, and here it lasts over the run.
  lemma FailedIsNeverPicked(d: Digests, trace: seq<Snap>, steps: seq<Step>, i: nat, j: nat, version: string)
    requires Chain(d, trace, steps) && i <= j < |steps| && version in trace[i].failed && steps[j].Pick?
    ensures steps[j].version != version
  {
    FailedOnlyGrows(d, trace, steps, i, j);
    assert Linked(d, trace, steps, j);
  }

  // An index that offers a given-up bundle leaves its record standing exactly if it has the stored
  // hash, and then it is no repetition: another serial shares that hash.
  lemma RecordOutlivesOfferOnlyByClash(hash: IndexHash, idx: Index, followed: string, st: State, facts: Facts,
                                       failed: seq<string>, url: string)
    requires idx.size > 0 && Decide(hash, idx, followed, st, facts, failed).Offered? && idx.sha256 in st.givenUp
    ensures idx.sha256 in Accepted(hash, idx, true, url, st).givenUp <==> IsStored(hash, idx, st)
    ensures IsStored(hash, idx, st) ==> idx.serial > Seen(st, idx.channel)
  {
    OfferedIsWorthIt(hash, idx, followed, st, facts, failed);
  }

  // That does happen when two serials clash: the bundle is back although its record was never cleared.
  lemma ClashBringsItBack(d: Digests, idx: Index, st: State, facts: Facts)
    requires IsStored(d.index, idx, st) && idx.serial > Seen(st, idx.channel) && idx.sha256 in st.givenUp
    requires idx.size > 0 && facts.compatible == Some(idx.compatible) && facts.l4t == Some(idx.l4t)
    requires Newer(idx.version, facts.running) == Some(true) && facts.other.None? && facts.firmware.None?
    ensures Decide(d.index, idx, idx.channel, st, facts, []).Offered?
    ensures var st' := Accepted(d.index, idx, true, st.url, st);
            st'.offer.Some? && st'.offer.value.sha256 in st'.givenUp
  {
  }
}
