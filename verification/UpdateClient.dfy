// boat-update: the verbs, changing downloads/, state.json and failed-versions one write at a time. Every
// write is a step of UpdateMachine, so its theorems hold at every point where the power can fail.
module UpdateClient {
  import opened Basics
  import opened Trial
  import opened Versions
  import opened Channel
  import opened UpdateMachine
  import opened Fetch

  // How a verb ended: its answer, or an UpdateError.
  datatype Outcome = Done(ready: bool) | Raised

  // How an iteration of the download loop ended.
  datatype Turn = Again(stalled: nat, whole: bool) | Complete(stalled: nat) | Stop(outcome: Outcome)

  // What one iteration of the download loop finds: still_allowed, gates(), the link, and /data's free bytes.
  datatype Moment = Moment(allowed: bool, gatesPass: bool, linkUp: bool, metered: bool, meteredOk: bool, free: nat)

  // --- the measure of the download loop ---

  function RestartsLeft(st: State, sha: Digest): nat {
    if Count(st, sha) < MAX_REFETCH then MAX_REFETCH - Count(st, sha) else 0
  }

  function Room(size: nat, have: nat): nat {
    if have < size then size - have else 0
  }

  function Potential(left: nat, size: nat, have: nat, stalled: nat): (p: int)
    ensures stalled <= 1 ==> p >= 0
  {
    left * (2 * size + 2) + 2 * Room(size, have) + 1 - stalled
  }

  lemma RestartDrops(left: nat, size: nat, have: nat, stalled: nat, later: nat)
    requires left > 0 && stalled <= 1 && later <= 1
    ensures Potential(left - 1, size, 0, later) < Potential(left, size, have, stalled)
  {
    assert left * (2 * size + 2) == (left - 1) * (2 * size + 2) + (2 * size + 2);
  }

  lemma PotentialBound(left: nat, size: nat, have: nat)
    requires left <= MAX_REFETCH
    ensures 0 <= Potential(left, size, have, 0) < (MAX_REFETCH + 1) * (2 * size + 2)
  {
    assert left * (2 * size + 2) <= MAX_REFETCH * (2 * size + 2);
  }

  // --- an honest channel ---

  // The channel serves file as the offered bundle, these are the runs since start, and RAUC takes the
  // file in all of them.
  datatype Honest = Honest(file: Bytes, offer: Offer, start: Snap, taken: bool)

  ghost predicate Serves(d: Digests, hon: Honest, rauc: Bytes -> bool) {
    hon.offer.size == |hon.file| && d.file(hon.file) == hon.offer.sha256 && (hon.taken ==> rauc(hon.file))
  }

  // What the checks and the housekeeping in between go by: the indexes accepted, what was given up, and
  // that no other trial than the one under way at the start can end.
  ghost predicate Steady(hon: Honest, s: Snap) {
    && s.saved.serials == hon.start.saved.serials && s.saved.indexHashes == hon.start.saved.indexHashes
    && (hon.taken ==> s.saved.givenUp == hon.start.saved.givenUp)
    && (s.saved.installed.None? || s.saved.installed == hon.start.saved.installed)
    && (s.saved.ready.None? || s.saved.ready == hon.start.saved.ready || s.saved.ready == Some(ReadyOf(hon.offer)))
    && (forall v :: v in s.failed ==> v in hon.start.failed || OnTrial(hon.start.saved, v))
  }

  predicate OnTrial(st: State, version: string) {
    st.installed.Some? && st.installed.value.version == version
  }

  // The partial download is a prefix of the published file, the bundle is that file, no restart of it
  // has been charged, the offer is only given up when RAUC does not take the file, and until the bundle
  // is there no byte that was there at the start is lost.
  ghost predicate Faithful(hon: Honest, s: Snap) {
    && Steady(hon, s)
    && Have(s.files, PartName(hon.offer.bundle)) <= hon.file
    && (hon.offer.bundle in s.files ==> s.files[hon.offer.bundle] == hon.file)
    && (s.saved.offer == Some(hon.offer) || (s.saved.offer.None? && !hon.taken))
    && s.saved.refetch == hon.start.saved.refetch && s.waste.spent == hon.start.waste.spent
    && (hon.taken && hon.offer.bundle !in s.files ==>
          |Have(hon.start.files, PartName(hon.offer.bundle))| <= |Have(s.files, PartName(hon.offer.bundle))|)
  }

  ghost predicate Keeps(hon: Option<Honest>, s: Snap) {
    hon.Some? ==> Faithful(hon.value, s)
  }

  ghost predicate SameBut(name: string, files: map<string, Bytes>, files': map<string, Bytes>) {
    forall f :: f != name ==> (f in files' <==> f in files) && (f in files' ==> files'[f] == files[f])
  }

  lemma SameButTwice(name: string, a: map<string, Bytes>, b: map<string, Bytes>, c: map<string, Bytes>)
    requires SameBut(name, a, b) && SameBut(name, b, c)
    ensures SameBut(name, a, c)
  {
  }

  // A state on the way from one .part to a longer one.
  ghost predicate Between(o: Offer, before: Snap, after: Snap, s: Snap) {
    && s.saved == before.saved && s.failed == before.failed && s.waste == before.waste
    && SameBut(PartName(o.bundle), before.files, s.files)
    && Have(before.files, PartName(o.bundle)) <= Have(s.files, PartName(o.bundle))
    && Have(s.files, PartName(o.bundle)) <= Have(after.files, PartName(o.bundle))
  }

  ghost predicate Filling(o: Offer, before: Snap, now: Snap, trace: seq<Snap>, from: nat) {
    && Between(o, before, now, now)
    && forall k :: from <= k < |trace| ==> Between(o, before, now, trace[k])
  }

  // The loop's tail after a window that was no fault: stalled counts the windows without progress.
  function Tally(have: nat, now: nat, size: nat, stalled: nat, whole: bool): Turn {
    var s := if now > have then 0 else stalled + 1;
    if now >= size then Complete(s)
    else if s >= 2 then Stop(Done(false))
    else Again(s, whole)
  }

  ghost predicate StartedOver(o: Offer, s: Snap, s': Snap, turn: Turn, again: Turn) {
    && PartName(o.bundle) !in s'.files
    && if Count(s.saved, o.sha256) >= MAX_REFETCH then
         turn == Stop(Raised) && s'.saved == GivenUp(Charged(s.saved, o.sha256), o.sha256)
       else
         turn == again && s'.saved == Charged(s.saved, o.sha256)
  }

  function Reading(o: Offer, have: nat, reply: Reply): Ending {
    Judge(reply.rc, reply.code, have + |Concat(reply.blocks)| > o.size, have)
  }

  // What is made of a window that began at have, by how it ended.
  ghost predicate Concluded(o: Offer, s: Snap, s': Snap, ending: Ending, have: nat, stalled: nat, whole: bool,
                            turn: Turn)
  {
    var before, after := Have(s.files, PartName(o.bundle)), Have(s'.files, PartName(o.bundle));
    && SameBut(PartName(o.bundle), s.files, s'.files) && s'.failed == s.failed && have <= |before|
    && match ending
       case NotTheBundle => && turn == Stop(Raised) && s'.saved == s.saved && s'.waste == s.waste
                            && after == before[..have]
       case Ended => turn == Tally(have, |before|, o.size, stalled, whole) && s' == s
       case _ => StartedOver(o, s, s', turn, Again(stalled, whole || ending.IgnoredRange?))
  }

  // What one window leaves behind, by how it ended.
  ghost predicate Fetched(o: Offer, s: Snap, s': Snap, reply: Reply, stalled: nat, whole: bool, turn: Turn) {
    var before, after := Have(s.files, PartName(o.bundle)), Have(s'.files, PartName(o.bundle));
    var body := Concat(reply.blocks);
    var ending := Reading(o, |before|, reply);
    && SameBut(PartName(o.bundle), s.files, s'.files) && s'.failed == s.failed
    && match ending
       case NotTheBundle => turn == Stop(Raised) && s'.saved == s.saved && s'.waste == s.waste && after == before
       case Ended => && turn == Tally(|before|, |after|, o.size, stalled, whole)
                     && s'.saved == s.saved && s'.waste == s.waste && after == before + body
       case _ => StartedOver(o, s, s', turn, Again(stalled, whole || ending.IgnoredRange?))
  }

  lemma TransferThenConclude(o: Offer, s: Snap, mid: Snap, s': Snap, reply: Reply, stalled: nat, whole: bool,
                             turn: Turn)
    requires |Have(s.files, PartName(o.bundle))| < o.size
    requires Between(o, s, mid, mid)
    requires Have(mid.files, PartName(o.bundle)) == Have(s.files, PartName(o.bundle))
               + Capped(Concat(reply.blocks), o.size - |Have(s.files, PartName(o.bundle))|)
    requires var have := |Have(s.files, PartName(o.bundle))|;
             Concluded(o, mid, s', Reading(o, have, reply), have, stalled, whole, turn)
    ensures Fetched(o, s, s', reply, stalled, whole, turn)
  {
    SameButTwice(PartName(o.bundle), s.files, mid.files, s'.files);
  }

  function PotentialOf(o: Offer, s: Snap, stalled: nat): (p: int)
    ensures stalled <= 1 ==> p >= 0
  {
    Potential(RestartsLeft(s.saved, o.sha256), o.size, |Have(s.files, PartName(o.bundle))|, stalled)
  }

  // A window after which the loop goes on has used up some of the potential, whatever the server sent.
  lemma FetchedDrops(o: Offer, s: Snap, s': Snap, reply: Reply, stalled: nat, whole: bool, turn: Turn)
    requires Fetched(o, s, s', reply, stalled, whole, turn) && stalled <= 1
    requires |Have(s.files, PartName(o.bundle))| < o.size
    ensures turn.Again? ==> turn.stalled <= 1 && s'.saved.offer == s.saved.offer
                            && PotentialOf(o, s', turn.stalled) < PotentialOf(o, s, stalled)
    ensures turn.Complete? ==> turn.stalled <= 1 && s'.saved == s.saved
                               && |Have(s'.files, PartName(o.bundle))| == o.size
  {
    if turn.Again? && s'.saved != s.saved {
      RestartDrops(RestartsLeft(s.saved, o.sha256), o.size, |Have(s.files, PartName(o.bundle))|, stalled, stalled);
    }
  }

  // Resuming from a prefix with what an honest server answers gives a longer prefix.
  lemma FetchedFaithfully(hon: Honest, s: Snap, s': Snap, reply: Reply, stalled: nat, whole: bool, turn: Turn)
    requires Faithful(hon, s) && Fetched(hon.offer, s, s', reply, stalled, whole, turn)
    requires hon.offer.size == |hon.file|
    requires HonestReply(hon.file, |Have(s.files, PartName(hon.offer.bundle))|, reply)
    ensures Reading(hon.offer, |Have(s.files, PartName(hon.offer.bundle))|, reply).Ended?
    ensures Have(s'.files, PartName(hon.offer.bundle)) <= hon.file && s'.saved == s.saved && s'.waste == s.waste
    ensures turn == Tally(|Have(s.files, PartName(hon.offer.bundle))|, |Have(s'.files, PartName(hon.offer.bundle))|,
                          hon.offer.size, stalled, whole)
    ensures |Concat(reply.blocks)| > 0 ==> !turn.Stop?
  {
    var before := Have(s.files, PartName(hon.offer.bundle));
    HonestIsNeverMisread(hon.file, |before|, reply);
    assert before == hon.file[..|before|];
  }

  // Against any server: what a window leaves of the .part is what was there, or nothing, or that and
  // the body of an answer that was one - no redirect, no refusal, no excess, and no whole file where
  // the rest was asked for that ended well or that curl refused (33).
  lemma OnlyAnswersAreKept(o: Offer, s: Snap, s': Snap, reply: Reply, stalled: nat, whole: bool, turn: Turn)
    requires Fetched(o, s, s', reply, stalled, whole, turn)
    ensures var before, after := Have(s.files, PartName(o.bundle)), Have(s'.files, PartName(o.bundle));
            || after == before
            || (after == [] && s'.saved.refetch == Charged(s.saved, o.sha256).refetch)
            || (&& after == before + Concat(reply.blocks) && |after| <= o.size
                && !Redirect(reply.code) && reply.code != "416" && reply.rc != 33
                && (reply.rc == 22 ==> TransientHttp(reply.code))
                && (reply.rc == 0 ==> reply.code == "206" || (reply.code == "200" && before == [])))
  {
  }

  // A server that ignores ranges: the resumed window is thrown away and charged once, and the next one,
  // without a time limit, brings the whole file.
  lemma WithoutRangesOneRestart(o: Offer, file: Bytes, s: Snap, mid: Snap, s': Snap, refusal: Reply, answer: Reply,
                                stalled: nat, first: Turn, second: Turn)
    requires |file| == o.size > 0 && 0 < |Have(s.files, PartName(o.bundle))| < o.size
    requires Count(s.saved, o.sha256) < MAX_REFETCH && Concat(refusal.blocks) == []
    requires refusal.code == "200" && refusal.rc in {0, 33}
    requires Fetched(o, s, mid, refusal, stalled, false, first)
    requires answer.rc == 0 && answer.code == "200" && Concat(answer.blocks) == file
    requires first.Again? ==> Fetched(o, mid, s', answer, first.stalled, first.whole, second)
    ensures first == Again(stalled, true) && mid.saved == Charged(s.saved, o.sha256)
    ensures second == Complete(0) && Have(s'.files, PartName(o.bundle)) == file && s'.saved == mid.saved
  {
    assert "200"[0] == '2';
  }

  lemma FillingKeeps(hon: Honest, before: Snap, now: Snap, trace: seq<Snap>, from: nat)
    requires Faithful(hon, before) && Filling(hon.offer, before, now, trace, from)
    requires Have(now.files, PartName(hon.offer.bundle)) <= hon.file
    ensures forall k :: from <= k < |trace| ==> Faithful(hon, trace[k])
  {
    assert PartName(hon.offer.bundle) != hon.offer.bundle;
  }

  ghost predicate Answers(hon: Honest, o: Offer, serve: (nat, bool) -> Reply) {
    && hon.offer == o && o.size == |hon.file|
    && forall have: nat, whole: bool :: have < o.size ==> HonestReply(hon.file, have, serve(have, whole))
  }

  // The world a download meets: iteration by iteration what it finds and what the server answers; and
  // whether RAUC takes a bundle.
  datatype World = World(net: nat -> Moment, serve: nat -> ((nat, bool) -> Reply), rauc: Bytes -> bool)

  ghost predicate HonestWorld(d: Digests, hon: Honest, w: World) {
    Serves(d, hon, w.rauc) && forall n: nat :: Answers(hon, hon.offer, w.serve(n))
  }

  // Nothing gets in the way and every window brings something.
  ghost predicate Lucky(hon: Honest, w: World) {
    && hon.taken
    && forall n: nat :: Favourable(hon.offer, w.net(n)) && Delivers(hon.offer, w.serve(n))
  }

  // A window that was not the last was allowed by the gates, the link and, in the background, the policy.
  predicate Permitted(background: bool, n: nat, m: Moment) {
    Preflight(m).None? && (background && n > 1 ==> m.allowed)
  }

  // What cannot stop a download: an open gate, a link that may be used, and room for the whole bundle.
  predicate Favourable(o: Offer, m: Moment) {
    m.allowed && Preflight(m).None? && m.free >= o.size + FREE_FLOOR
  }

  // Every window brings at least a byte.
  ghost predicate Delivers(o: Offer, serve: (nat, bool) -> Reply) {
    forall have: nat, whole: bool :: have < o.size ==> Concat(serve(have, whole).blocks) != []
  }

  // The link and the gates, before anything is fetched.
  function Preflight(m: Moment): Option<Outcome> {
    if !m.gatesPass then Some(Raised)
    else if !m.linkUp || (m.metered && !m.meteredOk) then Some(Done(false))
    else None
  }

  ghost predicate AtMost(o: Offer, have: nat, s: Snap) {
    |Have(s.files, PartName(o.bundle))| <= have
  }

  // The .part only ever grows into room that leaves FREE_FLOOR bytes free.
  ghost predicate GrowsWithRoom(o: Offer, free: int, have: nat, s: Snap) {
    AtMost(o, have, s) || LeavesRoom(o, free, have, s)
  }

  // With free bytes on /data when the .part had have of them, and no other writer.
  ghost predicate LeavesRoom(o: Offer, free: int, have: nat, s: Snap) {
    free + have - |Have(s.files, PartName(o.bundle))| >= FREE_FLOOR
  }

  // What fetch_index made of the channel's answer: none, one that is no signed index, or an index.
  datatype ChannelAnswer = NoAnswer | BadAnswer | Signed(index: Index)

  // no_longer_wanted. What cannot be compared with the running release is not wanted either.
  predicate NoLongerWanted(version: string, running: string, failed: seq<string>) {
    Newer(version, running) != Some(true) || version in failed
  }

  function AfterTrial(st: State, verdict: Trial.Standing): State {
    if verdict.Undecided? then st else st.(installed := None)
  }

  function FailedAfter(failed: seq<string>, st: State, verdict: Trial.Standing): seq<string>
    requires verdict.Failed? ==> st.installed.Some?
  {
    if verdict.Failed? && st.installed.value.version !in failed then failed + [st.installed.value.version] else failed
  }

  predicate ReadyUnwanted(st: State, running: string, failed: seq<string>) {
    st.ready.Some? && NoLongerWanted(st.ready.value.version, running, failed)
  }

  predicate OfferUnwanted(st: State, running: string, failed: seq<string>) {
    st.offer.Some? && NoLongerWanted(st.offer.value.version, running, failed)
  }

  function Tidied(st: State, running: string, failed: seq<string>): State {
    Dropped(ReadyUnwanted(st, running, failed), OfferUnwanted(st, running, failed), st)
  }

  // The files, without those that go with what is tidied away.
  function Swept(files: map<string, Bytes>, st: State, running: string, failed: seq<string>): map<string, Bytes> {
    var rest := if ReadyUnwanted(st, running, failed) then files - {st.ready.value.bundle} else files;
    if OfferUnwanted(st, running, failed) then rest - {PartName(st.offer.value.bundle)} else rest
  }

  // Where trial_outcome and housekeeping look: the booted slot, grubenv, and the running release.
  datatype Booted = Booted(slot: Option<Slot>, env: Option<Env>, release: string)

  // The running release, committed, is never one still to install.
  lemma RunningIsNotWanted(running: string, failed: seq<string>)
    ensures NoLongerWanted(running, running, failed)
  {
    if ParseVersion(running).Some? {
      NewerIsStrictWeakOrder(running, running, running);
    }
  }

  predicate KeptByDiscard(keep: Option<string>, f: string) {
    keep == Some(f) || f == PartName(if keep.Some? then keep.value else "")
  }

  ghost predicate Fewer(files': map<string, Bytes>, files: map<string, Bytes>) {
    forall f :: f in files' ==> f in files && files'[f] == files[f]
  }

  ghost predicate OnlyFewer(before: Snap, s: Snap) {
    s == before.(files := s.files) && Fewer(s.files, before.files)
  }

  // A state on the way to a save: files may be gone, nothing else has changed yet.
  ghost predicate OnTheWay(before: Snap, after: Snap, whole: bool, s: Snap) {
    s == after || (OnlyFewer(before, s) && (whole ==> s.files == before.files))
  }

  // The names still to look at, and what is left of the directory as it was.
  ghost predicate Discarding(files: map<string, Bytes>, before: map<string, Bytes>, keep: Option<string>,
                             names: set<string>)
  {
    && Fewer(files, before)
    && forall f :: f in files <==> f in before && (KeptByDiscard(keep, f) || f in names)
  }

  lemma DiscardStep(files: map<string, Bytes>, before: map<string, Bytes>, keep: Option<string>, names: set<string>,
                    f: string)
    requires Discarding(files, before, keep, names) && f in names
    ensures Discarding(if KeptByDiscard(keep, f) then files else files - {f}, before, keep, names - {f})
  {
  }

  lemma DiscardAll(files: map<string, Bytes>, before: map<string, Bytes>)
    requires Discarding(files, before, None, {})
    ensures Discarded(files)
  {
    assert PartName("") == ".part";
  }

  lemma FewerKeeps(hon: Option<Honest>, s: Snap, s': Snap)
    requires Keeps(hon, s) && Fewer(s'.files, s.files)
    requires hon.Some? && hon.value.taken ==>
               forall f :: f in s.files && KeptByDiscard(Some(hon.value.offer.bundle), f) ==> f in s'.files
    requires s'.saved == s.saved && s'.waste == s.waste && s'.failed == s.failed
    ensures Keeps(hon, s')
  {
  }

  // How a streamed install goes: refused by the preflight, broken off by RAUC, or ended, with the release
  // the slot then holds, None if it cannot be read.
  datatype Streaming = NotStarted | Broken | Streamed(got: Option<string>)

  class UpdateClient {
    const d: Digests

    // On disk.
    var files: map<string, Bytes>
    var saved: State
    var failed: seq<string>

    // The state dict of the running verb.
    var mem: State

    // History, which no verb reads: every state the disk has been in - a power cut goes back to one of
    // them - and the steps between them.
    var waste: Waste
    var trace: seq<Snap>
    ghost var steps: seq<Step>

    function Now(): Snap
      reads this
    {
      Snap(files, saved, failed, waste)
    }

    ghost predicate Valid()
      reads this
    {
      |trace| == |steps| + 1 && trace[|steps|] == Now() && Fresh(trace[0]) && Chain(d, trace, steps)
    }

    // Between two verbs, and between the writes of one: nothing is in memory that is not saved.
    ghost predicate Idle()
      reads this
    {
      Valid() && mem == saved && waste.uncharged.None?
    }

    ghost predicate KeptSince(hon: Option<Honest>, from: nat)
      reads this
    {
      forall k {:trigger Keeps(hon, trace[k])} :: from <= k < |trace| ==> Keeps(hon, trace[k])
    }

    ghost predicate InRoom(o: Offer, free: int, have: nat, from: nat)
      reads this
    {
      forall k {:trigger GrowsWithRoom(o, free, have, trace[k])} ::
        from <= k < |trace| ==> GrowsWithRoom(o, free, have, trace[k])
    }

    ghost predicate NoLonger(o: Offer, have: nat, from: nat)
      reads this
    {
      forall k {:trigger AtMost(o, have, trace[k])} :: from <= k < |trace| ==> AtMost(o, have, trace[k])
    }

    function Part(o: Offer): Bytes
      reads this
    {
      Have(files, PartName(o.bundle))
    }

    // The offered bundle is there, whole, and recorded ready.
    ghost predicate Got(o: Offer)
      reads this
    {
      && saved.offer == Some(o) && o.bundle in files && d.file(files[o.bundle]) == o.sha256
      && saved.ready.Some? && saved.ready.value.bundle == o.bundle && saved.ready.value.sha256 == o.sha256
    }

    // A board that has never checked a channel.
    constructor (d: Digests, st: State, failed: seq<string>)
      requires Fresh(Snap(map[], st, failed, Waste(map[], 0, 0, None)))
      ensures Idle() && this.d == d && saved == st && this.failed == failed && files == map[] && |trace| == 1
    {
      this.d := d;
      files, saved, this.failed, mem := map[], st, failed, st;
      waste := Waste(map[], 0, 0, None);
      trace := [Snap(map[], st, failed, Waste(map[], 0, 0, None))];
      steps := [];
    }

    lemma Intact()
      requires Valid()
      ensures Integrity(d, Now())
    {
      IntegrityThroughout(d, trace, steps, |steps|);
    }

    // --- the writes ---

    method Record(ghost step: Step)
      requires |trace| == |steps| + 1 && Fresh(trace[0]) && Chain(d, trace, steps)
      requires Next(d, trace[|steps|], step, Now())
      modifies this`trace, this`steps
      ensures Valid() && trace == old(trace) + [Now()] && steps == old(steps) + [step]
    {
      OneMore(d, trace, steps, step, Now());
      trace := trace + [Now()];
      steps := steps + [step];
    }

    // save_state.
    method Save(ghost step: Step, after: Waste)
      requires Valid() && Next(d, Now(), step, Snap(files, mem, failed, after))
      modifies this`saved, this`waste, this`trace, this`steps
      ensures Valid() && saved == mem && waste == after
      ensures trace == old(trace) + [Now()] && steps == old(steps) + [step]
    {
      saved := mem;
      waste := after;
      Record(step);
    }

    method Store(fs: map<string, Bytes>, ghost step: Step, after: Waste)
      requires Valid() && Next(d, Now(), step, Snap(fs, saved, failed, after))
      modifies this`files, this`waste, this`trace, this`steps
      ensures Valid() && files == fs && waste == after
      ensures trace == old(trace) + [Now()] && steps == old(steps) + [step]
    {
      files := fs;
      waste := after;
      Record(step);
    }

    // The power fails after the k-th write, or the run is ended there: what came later never happened,
    // and the next run reads what is on disk.
    method PowerCut(k: nat)
      requires Valid() && k < |trace|
      modifies this
      ensures Idle() && trace == old(trace)[..k + 1] + [Now()] && steps == old(steps)[..k] + [Step.PowerCut]
      ensures Now() == old(trace)[k].(waste := AfterCut(old(trace)[k].waste))
    {
      CutShort(d, trace, steps, k);
      var at := trace[k];
      files, saved, failed, waste := at.files, at.saved, at.failed, AfterCut(at.waste);
      trace := trace[..k + 1];
      steps := steps[..k];
      Record(Step.PowerCut);
      mem := saved;
    }

    method Unlink(name: string, ghost hon: Option<Honest>)
      requires Valid() && waste.uncharged.None? && Keeps(hon, Now())
      requires hon.Some? && hon.value.taken ==> !KeptByDiscard(Some(hon.value.offer.bundle), name)
      modifies this`files, this`waste, this`trace, this`steps
      ensures Valid() && files == old(files) - {name} && waste == old(waste) && Keeps(hon, Now())
      ensures trace == old(trace) + [Now()] && steps == old(steps) + [Step.Unlink(name)]
    {
      Store(files - {name}, Step.Unlink(name), waste);
      FewerKeeps(hon, old(Now()), Now());
    }

    method AppendPart(o: Offer, data: Bytes)
      requires Valid() && waste.uncharged.None? && saved.offer == Some(o) && |Part(o)| + |data| <= o.size
      modifies this`files, this`waste, this`trace, this`steps
      ensures Valid() && waste == old(waste)
      ensures Part(o) == old(Part(o)) + data && PartName(o.bundle) in files
      ensures SameBut(PartName(o.bundle), old(files), files)
      ensures trace == old(trace) + [Now()] && old(steps) <= steps
    {
      Store(files[PartName(o.bundle) := Part(o) + data], Step.Append(data), waste);
    }

    // --- curl_capped ---

    ghost predicate Copying(o: Offer, before: Snap, from: nat, blocks: seq<Bytes>, i: nat, limit: nat, got: nat,
                            over: bool, written: Bytes)
      reads this
    {
      && Valid() && waste.uncharged.None? && saved.offer == Some(o) && from <= |trace|
      && Filling(o, before, Now(), trace, from)
      && PartName(o.bundle) in files && Part(o) == Have(before.files, PartName(o.bundle)) + written
      && |Have(before.files, PartName(o.bundle))| + limit <= o.size
      && Copied(blocks, i, limit, got, over, written)
    }

    // open(out, "ab").
    method OpenPart(o: Offer, ghost blocks: seq<Bytes>, ghost limit: nat)
      requires Valid() && waste.uncharged.None? && saved.offer == Some(o) && |Part(o)| + limit <= o.size
      modifies this`files, this`waste, this`trace, this`steps
      ensures old(trace) <= trace && old(steps) <= steps
      ensures Copying(o, old(Now()), |old(steps)|, blocks, 0, limit, 0, false, [])
    {
      AppendPart(o, []);
      assert blocks[0..] == blocks && Part(o) == old(Part(o)) + [];
    }

    // One f.write: at most limit - got bytes of the block.
    method CopyBlock(o: Offer, ghost before: Snap, ghost from: nat, blocks: seq<Bytes>, i: nat, limit: nat, got: nat,
                     ghost written: Bytes) returns (over: bool, ghost more: Bytes)
      requires i < |blocks| && Copying(o, before, from, blocks, i, limit, got, false, written)
      modifies this`files, this`waste, this`trace, this`steps
      ensures old(trace) <= trace && old(steps) <= steps
      ensures over == (got + |blocks[i]| > limit)
      ensures if over then Copying(o, before, from, blocks, i, limit, got, true, more)
              else Copying(o, before, from, blocks, i + 1, limit, got + |blocks[i]|, false, more)
    {
      over := got + |blocks[i]| > limit;
      var data := if over then blocks[i][..limit - got] else blocks[i];
      CopiedStep(blocks, i, limit, got, written);
      more := written + data;
      AppendPart(o, data);
      SameButTwice(PartName(o.bundle), before.files, old(files), files);
      assert Part(o) == Have(before.files, PartName(o.bundle)) + more;
    }

    method CopyBlocks(o: Offer, ghost before: Snap, ghost from: nat, blocks: seq<Bytes>, limit: nat)
        returns (over: bool, ghost written: Bytes)
      requires Copying(o, before, from, blocks, 0, limit, 0, false, [])
      modifies this`files, this`waste, this`trace, this`steps
      ensures old(trace) <= trace && old(steps) <= steps && Valid() && Filling(o, before, Now(), trace, from)
      ensures PartName(o.bundle) in files && Part(o) == Have(before.files, PartName(o.bundle)) + written
      ensures written == Capped(Concat(blocks), limit) && (over <==> |Concat(blocks)| > limit)
    {
      var got: nat, i: nat := 0, 0;
      over, written := false, [];
      while i < |blocks| && !over
        invariant Copying(o, before, from, blocks, i, limit, got, over, written)
        invariant old(trace) <= trace && old(steps) <= steps
        decreases |blocks| - i, !over
      {
        var block := blocks[i];
        over, written := CopyBlock(o, before, from, blocks, i, limit, got, written);
        if !over {
          got := got + |block|;
          i := i + 1;
        }
      }
      if !over {
        CopiedAll(blocks, limit, got, written);
      }
    }

    // For every split of the body into blocks, exactly its first limit bytes are appended, and more than
    // that is reported.
    method CurlCapped(o: Offer, blocks: seq<Bytes>, limit: nat) returns (over: bool)
      requires Idle() && saved.offer == Some(o) && |Part(o)| + limit <= o.size
      modifies this`files, this`waste, this`trace, this`steps
      ensures Idle() && old(trace) <= trace && old(steps) <= steps && PartName(o.bundle) in files
      ensures Part(o) == old(Part(o)) + Capped(Concat(blocks), limit)
      ensures over <==> |Concat(blocks)| > limit
      ensures Filling(o, old(Now()), Now(), trace, |old(steps)|)
    {
      ghost var before, from := Now(), |steps|;
      OpenPart(o, blocks, limit);
      ghost var written;
      over, written := CopyBlocks(o, before, from, blocks, limit);
    }

    // --- giving up and starting over ---

    // give_up; its caller raises.
    method GiveUp(o: Offer)
      requires Valid() && saved.offer == Some(o)
      requires if waste.uncharged.Some? then waste.uncharged == Some(o.sha256) && mem == Charged(saved, o.sha256)
               else mem == saved
      modifies this`saved, this`mem, this`waste, this`trace, this`steps
      ensures Idle() && saved == GivenUp(old(mem), o.sha256) && waste == Accounted(old(waste))
      ensures trace == old(trace) + [Now()] && old(steps) <= steps
    {
      mem := mem.(givenUp := mem.givenUp + {o.sha256}, offer := None);
      Save(Step.GiveUp(waste.uncharged.Some?), Accounted(waste));
    }

    // refetch: the restart just made is charged, and the one too many gives the bundle up.
    method Refetch(o: Offer) returns (raised: bool)
      requires Valid() && mem == saved && saved.offer == Some(o) && waste.uncharged == Some(o.sha256)
      modifies this`saved, this`mem, this`waste, this`trace, this`steps
      ensures Idle() && trace == old(trace) + [Now()] && old(steps) <= steps && waste == Accounted(old(waste))
      ensures raised <==> Count(old(saved), o.sha256) >= MAX_REFETCH
      ensures saved == if raised then GivenUp(Charged(old(saved), o.sha256), o.sha256)
                       else Charged(old(saved), o.sha256)
    {
      mem := mem.(refetch := mem.refetch[o.sha256 := Count(mem, o.sha256) + 1]);
      raised := mem.refetch[o.sha256] > MAX_REFETCH;
      if raised {
        GiveUp(o);
      } else {
        Save(Step.Charge, Accounted(waste));
      }
    }

    // The partial download is thrown away, and that is charged.
    method StartOver(o: Offer) returns (raised: bool)
      requires Idle() && saved.offer == Some(o)
      modifies this
      ensures Idle() && old(trace) <= trace && old(steps) <= steps && failed == old(failed)
      ensures files == old(files) - {PartName(o.bundle)}
      ensures forall k :: |old(trace)| <= k < |trace| ==> trace[k].files == files
      ensures raised <==> Count(old(saved), o.sha256) >= MAX_REFETCH
      ensures saved == if raised then GivenUp(Charged(old(saved), o.sha256), o.sha256)
                       else Charged(old(saved), o.sha256)
      ensures !raised ==> RestartsLeft(saved, o.sha256) == RestartsLeft(old(saved), o.sha256) - 1
    {
      Store(files - {PartName(o.bundle)}, Step.Restart, Wasted(waste, o.sha256));
      raised := Refetch(o);
    }

    method TruncatePart(o: Offer, length: nat)
      requires Idle() && saved.offer == Some(o) && PartName(o.bundle) in files && length <= |Part(o)|
      modifies this`files, this`waste, this`trace, this`steps
      ensures Idle() && trace == old(trace) + [Now()] && old(steps) <= steps && waste == old(waste)
      ensures files == old(files)[PartName(o.bundle) := old(Part(o))[..length]]
    {
      Store(files[PartName(o.bundle) := Part(o)[..length]], Step.Truncate(length), waste);
    }

    // --- one window ---

    // The transfer itself, against any server: what was written of its body, and how it is read.
    method Transfer(o: Offer, reply: Reply) returns (ending: Ending)
      requires Idle() && saved.offer == Some(o) && |Part(o)| < o.size
      modifies this`files, this`waste, this`trace, this`steps
      ensures Idle() && old(trace) <= trace && old(steps) <= steps && PartName(o.bundle) in files
      ensures ending == Reading(o, |old(Part(o))|, reply)
      ensures Part(o) == old(Part(o)) + Capped(Concat(reply.blocks), o.size - |old(Part(o))|)
      ensures Filling(o, old(Now()), Now(), trace, |old(steps)|)
      ensures |Part(o)| <= o.size && NoLonger(o, o.size, |old(trace)|)
    {
      var have := |Part(o)|;
      var over := CurlCapped(o, reply.blocks, o.size - have);
      ending := Judge(reply.rc, reply.code, over, have);
    }

    method Conclude(o: Offer, ending: Ending, have: nat, stalled: nat, whole: bool, ghost from: nat)
        returns (turn: Turn)
      requires Idle() && saved.offer == Some(o) && PartName(o.bundle) in files && have <= |Part(o)| <= o.size
      requires from <= |trace| && NoLonger(o, o.size, from)
      modifies this
      ensures Idle() && old(trace) <= trace && old(steps) <= steps
      ensures Concluded(o, old(Now()), Now(), ending, have, stalled, whole, turn)
      ensures NoLonger(o, o.size, from)
      ensures ending.Ended? ==> trace == old(trace)
    {
      match ending {
        case NotTheBundle =>
          TruncatePart(o, have);
          turn := Stop(Raised);
        case Ended =>
          turn := Tally(have, |Part(o)|, o.size, stalled, whole);
        case _ =>
          var raised := StartOver(o);
          turn := if raised then Stop(Raised) else Again(stalled, whole || ending.IgnoredRange?);
      }
    }

    // The transfer and what is made of it: no state on the way has a .part larger than the bundle.
    method FetchWindow(o: Offer, reply: Reply, stalled: nat, whole: bool) returns (turn: Turn)
      requires Idle() && saved.offer == Some(o) && |Part(o)| < o.size
      modifies this
      ensures Idle() && old(trace) <= trace && old(steps) <= steps
      ensures Fetched(o, old(Now()), Now(), reply, stalled, whole, turn)
      ensures NoLonger(o, o.size, |old(trace)|)
      ensures Reading(o, |old(Part(o))|, reply).Ended? ==> Filling(o, old(Now()), Now(), trace, |old(steps)|)
    {
      var have := |Part(o)|;
      ghost var from := |trace|;
      var ending := Transfer(o, reply);
      ghost var mid := Now();
      turn := Conclude(o, ending, have, stalled, whole, from);
      TransferThenConclude(o, old(Now()), mid, Now(), reply, stalled, whole, turn);
    }

    // --- the checked bundle ---

    ghost predicate Held(hon: Option<Honest>, o: Offer, have: nat, from: nat)
      reads this
    {
      from <= |trace| && KeptSince(hon, from) && NoLonger(o, have, from)
    }

    lemma HeldNow(hon: Option<Honest>, o: Offer, have: nat)
      requires Valid() && Keeps(hon, Now()) && |Part(o)| <= have
      ensures Held(hon, o, have, |steps|)
    {
    }

    // finish_download's refusal of a bundle RAUC does not take.
    method DropBundle(o: Offer, ghost have: nat, ghost from: nat, ghost hon: Option<Honest>)
      requires Idle() && saved.offer == Some(o) && (hon.Some? ==> hon.value.offer == o && !hon.value.taken)
      requires |Part(o)| <= have && Keeps(hon, Now()) && Held(hon, o, have, from)
      modifies this
      ensures Idle() && old(trace) <= trace && old(steps) <= steps && failed == old(failed)
      ensures files == old(files) - {o.bundle} && saved == GivenUp(old(saved), o.sha256)
      ensures Held(hon, o, have, from)
    {
      Unlink(o.bundle, hon);
      GiveUp(o);
    }

    method MarkReady(o: Offer, ghost have: nat, ghost from: nat, ghost hon: Option<Honest>)
      requires Idle() && saved.offer == Some(o) && o.bundle in files && d.file(files[o.bundle]) == o.sha256
      requires |Part(o)| <= have && Keeps(hon, Now()) && Held(hon, o, have, from)
      modifies this
      ensures Idle() && old(trace) <= trace && old(steps) <= steps && failed == old(failed)
      ensures files == old(files) && saved == old(saved).(ready := Some(ReadyOf(o)))
      ensures Held(hon, o, have, from)
    {
      mem := mem.(ready := Some(ReadyOf(o)));
      Save(Step.MarkReady, waste);
    }

    // finish_download: rauc is whether RAUC takes the bundle.
    method FinishDownload(o: Offer, rauc: Bytes -> bool, ghost have: nat, ghost from: nat, ghost hon: Option<Honest>)
        returns (outcome: Outcome)
      requires Idle() && saved.offer == Some(o) && o.bundle in files && d.file(files[o.bundle]) == o.sha256
      requires hon.Some? ==> hon.value.offer == o && Serves(d, hon.value, rauc)
      requires |Part(o)| <= have && Keeps(hon, Now()) && Held(hon, o, have, from)
      modifies this
      ensures Idle() && old(trace) <= trace && old(steps) <= steps && failed == old(failed)
      ensures outcome == if rauc(old(files)[o.bundle]) then Done(true) else Raised
      ensures outcome == Done(true) ==> files == old(files) && saved == old(saved).(ready := Some(ReadyOf(o)))
      ensures outcome == Raised ==> files == old(files) - {o.bundle} && saved == GivenUp(old(saved), o.sha256)
      ensures Held(hon, o, have, from)
    {
      if !rauc(files[o.bundle]) {
        DropBundle(o, have, from, hon);
        return Raised;
      }
      MarkReady(o, have, from, hon);
      return Done(true);
    }

    // os.replace(part, final).
    method PromotePart(o: Offer, ghost from: nat, ghost hon: Option<Honest>)
      requires Idle() && saved.offer == Some(o) && PartName(o.bundle) in files
      requires |Part(o)| == o.size && d.file(Part(o)) == o.sha256 && Held(hon, o, o.size, from)
      requires Keeps(hon, Now()) && (hon.Some? ==> hon.value.offer == o && Part(o) == hon.value.file)
      modifies this`files, this`waste, this`trace, this`steps
      ensures Idle() && trace == old(trace) + [Now()] && old(steps) <= steps && waste == old(waste)
      ensures files == (old(files) - {PartName(o.bundle)})[o.bundle := old(Part(o))]
      ensures o.bundle in files && files[o.bundle] == old(Part(o)) && Part(o) == []
      ensures Keeps(hon, Now()) && Held(hon, o, o.size, from)
    {
      Store((files - {PartName(o.bundle)})[o.bundle := Part(o)], Step.Promote, waste);
    }

    method FinishChecked(o: Offer, rauc: Bytes -> bool, ghost from: nat, ghost hon: Option<Honest>)
        returns (outcome: Outcome)
      requires Idle() && saved.offer == Some(o) && PartName(o.bundle) in files
      requires |Part(o)| == o.size && d.file(Part(o)) == o.sha256
      requires hon.Some? ==> hon.value.offer == o && Serves(d, hon.value, rauc) && Part(o) == hon.value.file
      requires Keeps(hon, Now()) && Held(hon, o, o.size, from)
      modifies this
      ensures Idle() && old(trace) <= trace && old(steps) <= steps && failed == old(failed)
      ensures outcome == if rauc(old(Part(o))) then Done(true) else Raised
      ensures outcome == Done(true) ==> Got(o) && files[o.bundle] == old(Part(o))
      ensures Held(hon, o, o.size, from)
    {
      PromotePart(o, from, hon);
      outcome := FinishDownload(o, rauc, o.size, from, hon);
    }

    // The download is complete: it is the bundle the index named, or it is started over.
    method CheckAndFinish(o: Offer, rauc: Bytes -> bool, stalled: nat, whole: bool, ghost hon: Option<Honest>)
        returns (turn: Turn)
      requires Idle() && saved.offer == Some(o) && |Part(o)| == o.size > 0
      requires Keeps(hon, Now()) && (hon.Some? ==> hon.value.offer == o && Serves(d, hon.value, rauc))
      modifies this
      ensures Idle() && old(trace) <= trace && old(steps) <= steps && failed == old(failed)
      ensures d.file(old(Part(o))) != o.sha256 ==>
                && StartedOver(o, old(Now()), Now(), turn, Again(stalled, whole))
                && SameBut(PartName(o.bundle), old(files), files)
      ensures d.file(old(Part(o))) == o.sha256 ==> turn == Stop(if rauc(old(Part(o))) then Done(true) else Raised)
      ensures turn == Stop(Done(true)) ==> Got(o) && files[o.bundle] == old(Part(o))
      ensures hon.Some? ==> d.file(old(Part(o))) == o.sha256 && old(Part(o)) == hon.value.file
      ensures NoLonger(o, o.size, |old(steps)|)
      ensures KeptSince(hon, |old(steps)|)
    {
      if hon.Some? {
        assert Part(o) == hon.value.file;
      }
      HeldNow(hon, o, o.size);
      if d.file(Part(o)) != o.sha256 {
        var raised := StartOver(o);
        turn := if raised then Stop(Raised) else Again(stalled, whole);
      } else {
        var outcome := FinishChecked(o, rauc, |steps|, hon);
        turn := Stop(outcome);
      }
    }

    // --- an iteration of the loop ---

    method SetWaiting(o: Offer, waiting: bool, ghost have: nat, ghost from: nat, ghost hon: Option<Honest>)
      requires Idle() && saved.offer == Some(o)
      requires |Part(o)| <= have && Keeps(hon, Now()) && Held(hon, o, have, from)
      modifies this
      ensures Idle() && old(trace) <= trace && old(steps) <= steps && failed == old(failed) && files == old(files)
      ensures waste == old(waste) && saved == old(saved).(waiting := waiting) && Held(hon, o, have, from)
    {
      mem := mem.(waiting := waiting);
      Save(Step.Wait(waiting), waste);
    }

    method BeforeWindow(o: Offer, m: Moment, ghost hon: Option<Honest>) returns (stop: Option<Outcome>)
      requires Idle() && saved.offer == Some(o) && Keeps(hon, Now())
      modifies this
      ensures Idle() && old(trace) <= trace && old(steps) <= steps && failed == old(failed) && files == old(files)
      ensures waste == old(waste) && Held(hon, o, |old(Part(o))|, |old(steps)|)
      ensures stop == Preflight(m)
      ensures saved == old(saved).(waiting := if !m.gatesPass || !m.linkUp then old(saved).waiting
                                              else m.metered && !m.meteredOk)
    {
      stop := Preflight(m);
      HeldNow(hon, o, |Part(o)|);
      if m.gatesPass && m.linkUp {
        if m.metered && !m.meteredOk {
          SetWaiting(o, true, |Part(o)|, |steps|, hon);
        } else if mem.waiting {
          SetWaiting(o, false, |Part(o)|, |steps|, hon);
        }
      }
    }

    // Fetch what is missing.
    method FetchRest(o: Offer, serve: (nat, bool) -> Reply, stalled: nat, whole: bool,
                     ghost hon: Option<Honest>) returns (turn: Turn)
      requires Idle() && saved.offer == Some(o) && stalled <= 1
      requires |Part(o)| < o.size
      requires Keeps(hon, Now()) && (hon.Some? ==> Answers(hon.value, o, serve))
      modifies this
      ensures Idle() && old(trace) <= trace && old(steps) <= steps && failed == old(failed)
      ensures turn != Stop(Done(true))
      ensures turn.Complete? ==> turn.stalled <= 1 && saved == old(saved) && |Part(o)| == o.size
      ensures turn.Again? ==> turn.stalled <= 1 && saved.offer == Some(o)
                              && PotentialOf(o, Now(), turn.stalled) < PotentialOf(o, old(Now()), stalled)
      ensures NoLonger(o, o.size, |old(trace)|)
      ensures KeptSince(hon, |old(steps)|)
      ensures hon.Some? && Delivers(o, serve) ==> !turn.Stop?
    {
      ghost var before := Now();
      var reply := serve(|Part(o)|, whole);
      turn := FetchWindow(o, reply, stalled, whole);
      FetchedDrops(o, before, Now(), reply, stalled, whole, turn);
      if hon.Some? {
        FetchedFaithfully(hon.value, before, Now(), reply, stalled, whole, turn);
        FillingKeeps(hon.value, before, Now(), trace, |old(steps)|);
      }
    }

    // Whatever the window began with, a restart after it uses up more than the window gained.
    method FinishWindow(o: Offer, rauc: Bytes -> bool, again: nat, whole: bool, ghost have: nat, ghost stalled: nat,
                        ghost hon: Option<Honest>) returns (turn: Turn)
      requires Idle() && saved.offer == Some(o) && |Part(o)| == o.size > 0 && again <= 1 && stalled <= 1
      requires Keeps(hon, Now()) && (hon.Some? ==> hon.value.offer == o && Serves(d, hon.value, rauc))
      modifies this
      ensures Idle() && old(trace) <= trace && old(steps) <= steps && failed == old(failed)
      ensures !turn.Complete? && (turn == Stop(Done(true)) ==> Got(o))
      ensures turn.Again? ==> turn.stalled <= 1 && saved.offer == Some(o)
                              && PotentialOf(o, Now(), turn.stalled)
                                 < Potential(RestartsLeft(old(saved), o.sha256), o.size, have, stalled)
      ensures NoLonger(o, o.size, |old(steps)|)
      ensures KeptSince(hon, |old(steps)|)
      ensures hon.Some? && hon.value.taken ==> turn == Stop(Done(true))
    {
      turn := CheckAndFinish(o, rauc, again, whole, hon);
      if turn.Again? {
        RestartDrops(RestartsLeft(old(saved), o.sha256), o.size, have, stalled, again);
      }
    }

    // Fetch what is missing, and check what is complete.
    method FetchAndFinish(o: Offer, serve: (nat, bool) -> Reply, rauc: Bytes -> bool,
                          stalled: nat, whole: bool, ghost hon: Option<Honest>) returns (turn: Turn)
      requires Idle() && saved.offer == Some(o) && o.size > 0 && stalled <= 1
      requires |Part(o)| <= o.size
      requires Keeps(hon, Now()) && (hon.Some? ==> Answers(hon.value, o, serve) && Serves(d, hon.value, rauc))
      modifies this
      ensures Idle() && old(trace) <= trace && old(steps) <= steps && failed == old(failed)
      ensures !turn.Complete? && (turn == Stop(Done(true)) ==> Got(o))
      ensures turn.Again? ==> turn.stalled <= 1 && saved.offer == Some(o)
                              && PotentialOf(o, Now(), turn.stalled) < PotentialOf(o, old(Now()), stalled)
      ensures NoLonger(o, o.size, |old(trace)|)
      ensures KeptSince(hon, |old(steps)|)
      ensures hon.Some? && Delivers(o, serve) && hon.value.taken ==> turn.Again? || turn == Stop(Done(true))
    {
      turn := Complete(stalled);
      if |Part(o)| < o.size {
        turn := FetchRest(o, serve, stalled, whole, hon);
      }
      if turn.Complete? {
        turn := FinishWindow(o, rauc, turn.stalled, whole, |old(Part(o))|, stalled, hon);
      }
    }

    // A .part larger than the bundle: a new index can give the same file a smaller size.
    method DropOversized(o: Offer, stalled: nat, whole: bool) returns (turn: Turn)
      requires Idle() && saved.offer == Some(o) && |Part(o)| > o.size && stalled <= 1
      modifies this
      ensures Idle() && old(trace) <= trace && old(steps) <= steps && failed == old(failed)
      ensures StartedOver(o, old(Now()), Now(), turn, Again(stalled, whole))
      ensures NoLonger(o, |old(Part(o))|, |old(steps)|)
      ensures turn.Again? ==> PotentialOf(o, Now(), stalled) < PotentialOf(o, old(Now()), stalled)
    {
      ghost var have := |Part(o)|;
      var raised := StartOver(o);
      if !raised {
        RestartDrops(RestartsLeft(old(saved), o.sha256), o.size, have, stalled, stalled);
      }
      turn := if raised then Stop(Raised) else Again(stalled, whole);
    }

    lemma RoomForAll(o: Offer, free: nat, have: nat, from: nat)
      requires NoLonger(o, o.size, from) && free >= o.size - have + FREE_FLOOR
      ensures InRoom(o, free, have, from)
    {
      forall k | from <= k < |trace| ensures GrowsWithRoom(o, free, have, trace[k]) {
        assert AtMost(o, o.size, trace[k]);
      }
    }

    // One iteration of download_offer's loop, against any server.
    method OneWindow(o: Offer, m: Moment, serve: (nat, bool) -> Reply, rauc: Bytes -> bool, stalled: nat, whole: bool,
                     ghost hon: Option<Honest>) returns (turn: Turn)
      requires Idle() && saved.offer == Some(o) && o.size > 0 && stalled <= 1
      requires Keeps(hon, Now()) && (hon.Some? ==> Answers(hon.value, o, serve) && Serves(d, hon.value, rauc))
      modifies this
      ensures Idle() && old(trace) <= trace && old(steps) <= steps && failed == old(failed)
      ensures !turn.Complete? && (turn == Stop(Done(true)) ==> Got(o))
      ensures Preflight(m).Some? ==> turn == Stop(Preflight(m).value)
      ensures Preflight(m).None? && |old(Part(o))| <= o.size && m.free < o.size - |old(Part(o))| + FREE_FLOOR ==>
                turn == Stop(Raised) && files == old(files)
      ensures turn.Again? ==> turn.stalled <= 1 && saved.offer == Some(o)
                              && PotentialOf(o, Now(), turn.stalled) < PotentialOf(o, old(Now()), stalled)
      ensures InRoom(o, m.free, |old(Part(o))|, |old(trace)|)
      ensures KeptSince(hon, |old(steps)|)
      ensures hon.Some? && Favourable(o, m) && Delivers(o, serve) && hon.value.taken ==>
                turn.Again? || turn == Stop(Done(true))
    {
      var stop := BeforeWindow(o, m, hon);
      if stop.Some? {
        return Stop(stop.value);
      }
      var have := |Part(o)|;
      if have > o.size {
        turn := DropOversized(o, stalled, whole);
      } else if m.free < o.size - have + FREE_FLOOR {
        turn := Stop(Raised);
      } else {
        ghost var from := |trace|;
        turn := FetchAndFinish(o, serve, rauc, stalled, whole, hon);
        RoomForAll(o, m.free, have, from);
      }
    }

    // --- download_offer ---

    ghost predicate FewerSince(start: Snap, from: nat)
      reads this
    {
      forall k {:trigger OnlyFewer(start, trace[k])} :: from <= k < |trace| ==> OnlyFewer(start, trace[k])
    }

    method DiscardOne(f: string, keep: Option<string>, ghost names: set<string>, ghost before: map<string, Bytes>,
                      ghost start: Snap, ghost from: nat, ghost hon: Option<Honest>)
      requires Valid() && waste.uncharged.None? && from <= |steps| && KeptSince(hon, from)
      requires Discarding(files, before, keep, names) && f in names
      requires hon.Some? ==> keep == Some(hon.value.offer.bundle)
      requires start.files == before && OnlyFewer(start, Now()) && FewerSince(start, from + 1)
      modifies this`files, this`waste, this`trace, this`steps
      ensures Valid() && old(trace) <= trace && old(steps) <= steps && waste == old(waste) && KeptSince(hon, from)
      ensures Discarding(files, before, keep, names - {f})
      ensures OnlyFewer(start, Now()) && FewerSince(start, from + 1)
    {
      DiscardStep(files, before, keep, names, f);
      if !KeptByDiscard(keep, f) {
        assert Keeps(hon, trace[|steps|]);
        Unlink(f, hon);
      }
    }

    // discard_downloads, in whatever order the directory lists.
    method DiscardDownloads(keep: Option<string>, ghost hon: Option<Honest>)
      requires Valid() && waste.uncharged.None? && Keeps(hon, Now())
      requires hon.Some? ==> keep == Some(hon.value.offer.bundle)
      modifies this`files, this`waste, this`trace, this`steps
      ensures Valid() && old(trace) <= trace && old(steps) <= steps && waste == old(waste)
      ensures Discarding(files, old(files), keep, {}) && KeptSince(hon, |old(steps)|)
      ensures OnlyFewer(old(Now()), Now()) && FewerSince(old(Now()), |old(trace)|)
    {
      var names := files.Keys;
      while names != {}
        invariant Valid() && old(trace) <= trace && old(steps) <= steps && waste == old(waste)
        invariant Discarding(files, old(files), keep, names) && KeptSince(hon, |old(steps)|)
        invariant OnlyFewer(old(Now()), Now()) && FewerSince(old(Now()), |old(trace)|)
        decreases |names|
      {
        var f :| f in names;
        DiscardOne(f, keep, names, old(files), old(Now()), |old(steps)|, hon);
        names := names - {f};
      }
    }

    // In the background the policy is read again before every window but the first.
    method NextWindow(o: Offer, n: nat, background: bool, w: World, stalled: nat, whole: bool,
                      ghost hon: Option<Honest>) returns (turn: Turn)
      requires Idle() && saved.offer == Some(o) && o.size > 0 && stalled <= 1
      requires Keeps(hon, Now()) && (hon.Some? ==> hon.value.offer == o && HonestWorld(d, hon.value, w))
      modifies this
      ensures Idle() && old(trace) <= trace && old(steps) <= steps && failed == old(failed)
      ensures !turn.Complete? && (turn == Stop(Done(true)) ==> Got(o))
      ensures turn.Again? ==> turn.stalled <= 1 && saved.offer == Some(o) && Permitted(background, n, w.net(n))
                              && PotentialOf(o, Now(), turn.stalled) < PotentialOf(o, old(Now()), stalled)
      ensures KeptSince(hon, |old(steps)|)
      ensures hon.Some? && Lucky(hon.value, w) ==> turn.Again? || turn == Stop(Done(true))
    {
      if background && n > 1 && !w.net(n).allowed {
        return Stop(Done(false));
      }
      turn := OneWindow(o, w.net(n), w.serve(n), w.rauc, stalled, whole, hon);
    }

    // The window loop, against any server: it ends even without a limit, and within a bound.
    method DownloadWindows(o: Offer, windows: Option<nat>, background: bool, w: World, ghost hon: Option<Honest>)
        returns (outcome: Outcome, n: nat)
      requires Idle() && saved.offer == Some(o) && o.size > 0
      requires Keeps(hon, Now()) && (hon.Some? ==> hon.value.offer == o && HonestWorld(d, hon.value, w))
      modifies this
      ensures Idle() && old(trace) <= trace && old(steps) <= steps && failed == old(failed)
      ensures outcome == Done(true) ==> Got(o)
      ensures n <= (MAX_REFETCH + 1) * (2 * o.size + 2) && (windows.Some? ==> n <= windows.value)
      ensures forall i :: 1 <= i < n ==> Permitted(background, i, w.net(i))
      ensures KeptSince(hon, |old(steps)|)
      ensures hon.Some? && windows.None? && Lucky(hon.value, w) ==> outcome == Done(true)
    {
      var stalled: nat, whole := 0, false;
      n := 0;
      PotentialBound(RestartsLeft(saved, o.sha256), o.size, |Part(o)|);
      while windows.None? || n < windows.value
        invariant Idle() && old(trace) <= trace && old(steps) <= steps && failed == old(failed)
        invariant saved.offer == Some(o) && stalled <= 1 && KeptSince(hon, |old(steps)|)
        invariant n + PotentialOf(o, Now(), stalled) < (MAX_REFETCH + 1) * (2 * o.size + 2)
        invariant windows.Some? ==> n <= windows.value
        invariant forall i :: 1 <= i <= n ==> Permitted(background, i, w.net(i))
        decreases PotentialOf(o, Now(), stalled)
      {
        n := n + 1;
        var turn := NextWindow(o, n, background, w, stalled, whole, hon);
        if turn.Stop? {
          return turn.outcome, n;
        }
        stalled, whole := turn.stalled, turn.whole;
      }
      outcome := Done(false);
    }

    // Before the loop: a bundle that is complete but was not recorded ready is finished, or dropped.
    method Prepare(o: Offer, rauc: Bytes -> bool, ghost hon: Option<Honest>) returns (done: Option<Outcome>)
      requires Idle() && saved.offer == Some(o)
      requires Keeps(hon, Now()) && (hon.Some? ==> hon.value.offer == o && Serves(d, hon.value, rauc))
      modifies this
      ensures Idle() && old(trace) <= trace && old(steps) <= steps && failed == old(failed)
      ensures done == Some(Done(true)) ==> Got(o)
      ensures done.None? ==> saved == old(saved) && Part(o) == old(Part(o))
                             && forall f :: f in files ==> f == PartName(o.bundle)
      ensures done.Some? <==> o.bundle in old(files) && d.file(old(files)[o.bundle]) == o.sha256
      ensures KeptSince(hon, |old(steps)|)
      ensures hon.Some? && hon.value.taken ==> done.None? || done == Some(Done(true))
    {
      DiscardDownloads(Some(o.bundle), hon);
      done := None;
      if o.bundle in files {
        if d.file(files[o.bundle]) == o.sha256 {
          HeldNow(hon, o, |Part(o)|);
          var outcome := FinishDownload(o, rauc, |Part(o)|, |steps|, hon);
          done := Some(outcome);
        } else {
          Unlink(o.bundle, hon);
        }
      }
    }

    // download_offer. True means a file with the signed offer's SHA-256 is there; whatever the server
    // does, the loop ends within the bound; with an honest one every state on the way - so also every
    // state a power cut can leave - has a prefix of the published file and no restart charged; and if
    // besides nothing gets in the way, the bundle arrives.
    method DownloadOffer(windows: Option<nat>, background: bool, keyProblem: bool, w: World, ghost hon: Option<Honest>)
        returns (outcome: Outcome, n: nat)
      requires Idle() && Keeps(hon, Now()) && (hon.Some? ==> HonestWorld(d, hon.value, w))
      modifies this
      ensures Idle() && old(trace) <= trace && old(steps) <= steps && failed == old(failed)
      ensures outcome == Done(true) ==> old(saved).offer.Some? && Got(old(saved).offer.value)
      ensures old(saved).offer.None? ==> outcome == Done(false) && n == 0 && Now() == old(Now())
      ensures old(saved).offer.Some? ==> n <= (MAX_REFETCH + 1) * (2 * old(saved).offer.value.size + 2)
      ensures forall i :: 1 <= i < n ==> Permitted(background, i, w.net(i))
      ensures KeptSince(hon, |old(steps)|)
      ensures hon.Some? && windows.None? && !keyProblem && Lucky(hon.value, w) ==>
                outcome == Done(true)
    {
      n := 0;
      if mem.offer.None? {
        return Done(false), n;
      }
      var o := mem.offer.value;
      Intact();
      if mem.ready.Some? && mem.ready.value.bundle in files {
        return Done(true), n;
      }
      if keyProblem {
        return Raised, n;
      }
      var done := Prepare(o, w.rauc, hon);
      if done.Some? {
        return done.value, n;
      }
      outcome, n := DownloadWindows(o, windows, background, w, hon);
    }

    // --- check_channel ---

    // stamp_auto, and every other save of fields that are only shown.
    method StampAuto(stamp: bool)
      requires Idle()
      modifies this
      ensures Idle() && old(trace) <= trace && old(steps) <= steps && Now() == old(Now())
      ensures trace == old(trace) || trace == old(trace) + [old(Now())]
    {
      if stamp {
        Save(Step.Stamp, waste);
      }
    }

    method NoteIndex(idx: Index, url: string)
      modifies this`mem
      ensures mem == Noted(d.index, idx, url, old(mem))
    {
      if !IsStored(d.index, idx, mem) {
        mem := mem.(givenUp := {}, refetch := map[]);
      }
      mem := mem.(serials := mem.serials[idx.channel := idx.serial],
                  indexHashes := mem.indexHashes[idx.channel := d.index(idx)], channel := idx.channel, url := url);
    }

    // The files and the offer, before they are saved: old bytes are no part of another file, and a
    // bundle downloaded for a withdrawn offer is of no use.
    method TakeOffer(idx: Index, offered: bool)
      requires Valid() && waste.uncharged.None? && idx.size > 0
      modifies this`files, this`mem, this`waste, this`trace, this`steps
      ensures Valid() && waste == old(waste) && old(trace) <= trace && old(steps) <= steps
      ensures mem == Offering(idx, offered, old(mem))
      ensures if offered && !AnotherFile(idx, old(mem)) then files == old(files) && trace == old(trace)
              else Discarding(files, old(files), None, {})
      ensures OnlyFewer(old(Now()), Now()) && FewerSince(old(Now()), |old(trace)|)
    {
      if offered {
        if AnotherFile(idx, mem) {
          DiscardDownloads(None, None);
        }
        if mem.ready.Some? && mem.ready.value.sha256 != idx.sha256 {
          mem := mem.(ready := None);
        }
        mem := mem.(offer := Some(OfferOf(idx)));
      } else {
        mem := mem.(offer := None, ready := None);
        DiscardDownloads(None, None);
      }
    }

    method Absorb(idx: Index, offered: bool, url: string)
      requires Idle() && idx.size > 0
      modifies this`files, this`mem, this`waste, this`trace, this`steps
      ensures Valid() && waste == old(waste) && old(trace) <= trace && old(steps) <= steps
      ensures mem == Accepted(d.index, idx, offered, url, saved)
      ensures if offered && !AnotherFile(idx, saved) then files == old(files) && trace == old(trace)
              else Discarding(files, old(files), None, {})
      ensures OnlyFewer(old(Now()), Now()) && FewerSince(old(Now()), |old(trace)|)
    {
      NoteIndex(idx, url);
      TakeOffer(idx, offered);
    }

    ghost predicate PassedThrough(before: Snap, whole: bool, from: nat)
      reads this
    {
      forall k {:trigger OnTheWay(before, Now(), whole, trace[k])} ::
        from <= k < |trace| ==> OnTheWay(before, Now(), whole, trace[k])
    }

    lemma PassThrough(before: Snap, whole: bool, from: nat)
      requires |trace| > 0 && trace[|trace| - 1] == Now() && from < |trace|
      requires forall k :: from <= k < |trace| - 1 ==> OnlyFewer(before, trace[k])
      requires whole ==> from == |trace| - 1
      ensures PassedThrough(before, whole, from)
    {
      forall k | from <= k < |trace| ensures OnTheWay(before, Now(), whole, trace[k]) {
        assert k < |trace| - 1 ==> OnlyFewer(before, trace[k]);
      }
    }

    // What an accepted index changes.
    method AcceptIndex(idx: Index, offered: bool, facts: Facts, url: string)
      requires Idle() && ValidIndex(idx)
      requires !Decide(d.index, idx, idx.channel, saved, facts, failed).Refused?
      requires offered == Decide(d.index, idx, idx.channel, saved, facts, failed).Offered?
      modifies this
      ensures Idle() && old(trace) <= trace && old(steps) <= steps && failed == old(failed)
      ensures saved == Accepted(d.index, idx, offered, url, old(saved))
      ensures waste == WasteAfter(d.index, idx, old(saved), old(waste))
      ensures PassedThrough(old(Now()), offered && !AnotherFile(idx, old(saved)), |old(trace)|)
      ensures if offered && !AnotherFile(idx, old(saved)) then files == old(files)
              else Discarding(files, old(files), None, {})
    {
      Absorb(idx, offered, url);
      if !offered || AnotherFile(idx, saved) {
        DiscardAll(files, old(files));
      }
      AcceptIsAStep(d, Now(), idx, facts, url, offered);
      Save(Step.Accept(idx, facts, url), WasteAfter(d.index, idx, saved, waste));
      PassThrough(old(Now()), offered && !AnotherFile(idx, old(saved)), |old(trace)|);
    }

    // The signed index: validated, decided on, and taken if it is not refused.
    method TakeIndex(idx: Index, followed: string, facts: Facts, url: string) returns (found: Option<bool>)
      requires Idle()
      modifies this
      ensures Idle() && old(trace) <= trace && old(steps) <= steps && failed == old(failed)
      ensures var decision := Decide(d.index, idx, followed, old(saved), facts, failed);
              found == if !ValidIndex(idx) || decision.Refused? then None else Some(decision.Offered?)
      ensures found.None? ==> Now() == old(Now()) && trace == old(trace)
      ensures found.Some? ==> idx.size > 0 && saved == Accepted(d.index, idx, found.value, url, old(saved))
      ensures found.Some? ==> if found.value && !AnotherFile(idx, old(saved)) then files == old(files)
                              else Discarding(files, old(files), None, {})
      ensures found.Some? ==> waste == WasteAfter(d.index, idx, old(saved), old(waste))
      ensures found.Some? ==> PassedThrough(old(Now()), found.value && !AnotherFile(idx, old(saved)), |old(trace)|)
      ensures found == Some(true) ==> saved.offer == Some(OfferOf(idx)) && idx.version !in failed
                                      && Newer(idx.version, facts.running) == Some(true)
    {
      if !ValidIndex(idx) {
        return None;
      }
      var decision := Decide(d.index, idx, followed, mem, facts, failed);
      if decision.Refused? {
        return None;
      }
      AcceptIndex(idx, decision.Offered?, facts, url);
      return Some(decision.Offered?);
    }

    lemma StampedFirst(before: Snap, whole: bool, from: nat, later: nat)
      requires from <= later <= from + 1 && (from < later ==> from < |trace| && trace[from] == before)
      requires PassedThrough(before, whole, later)
      ensures PassedThrough(before, whole, from)
    {
      forall k | from <= k < |trace| ensures OnTheWay(before, Now(), whole, trace[k]) {
        assert k < later ==> OnlyFewer(before, trace[k]);
      }
    }

    // Whether an offer was found, or None if it raised.
    method CheckChannel(answer: ChannelAnswer, followed: string, facts: Facts, url: string, stamp: bool)
        returns (found: Option<bool>)
      requires Idle()
      modifies this
      ensures Idle() && old(trace) <= trace && old(steps) <= steps && failed == old(failed)
      ensures !answer.Signed? ==> found.None?
      ensures answer.Signed? ==>
                var decision := Decide(d.index, answer.index, followed, old(saved), facts, failed);
                found == if !ValidIndex(answer.index) || decision.Refused? then None else Some(decision.Offered?)
      ensures found.None? ==> saved == old(saved) && files == old(files)
      ensures found.Some? ==> answer.Signed? && answer.index.size > 0
                              && saved == Accepted(d.index, answer.index, found.value, url, old(saved))
      ensures found.Some? ==> if found.value && !AnotherFile(answer.index, old(saved)) then files == old(files)
                              else Discarding(files, old(files), None, {})
      ensures waste == if found.Some? then WasteAfter(d.index, answer.index, old(saved), old(waste)) else old(waste)
      ensures found.None? ==> trace == old(trace) || trace == old(trace) + [old(Now())]
      ensures found.Some? ==>
                PassedThrough(old(Now()), found.value && !AnotherFile(answer.index, old(saved)), |old(trace)|)
      ensures found == Some(true) ==> saved.offer == Some(OfferOf(answer.index)) && answer.index.version !in failed
                                      && Newer(answer.index.version, facts.running) == Some(true)
    {
      if answer.NoAnswer? {
        return None;
      }
      StampAuto(stamp);
      if answer.BadAnswer? {
        return None;
      }
      ghost var from := |trace|;
      found := TakeIndex(answer.index, followed, facts, url);
      if found.Some? {
        StampedFirst(old(Now()), found.value && !AnotherFile(answer.index, old(saved)), |old(trace)|, from);
      }
    }

    // --- trials and tidying ---

    method MarkFailed(version: string)
      requires Idle()
      modifies this`failed, this`trace, this`steps
      ensures Idle() && trace == old(trace) + [Now()] && old(steps) <= steps && failed == old(failed) + [version]
    {
      failed := failed + [version];
      Record(Step.Fail(version));
    }

    method TrialOutcome(at: Booted)
      requires Idle()
      modifies this
      ensures Idle() && old(trace) <= trace && old(steps) <= steps && files == old(files) && waste == old(waste)
      ensures saved == AfterTrial(old(saved), TrialVerdict(old(saved).installed, at.slot, at.env))
      ensures failed == FailedAfter(old(failed), old(saved), TrialVerdict(old(saved).installed, at.slot, at.env))
      ensures forall k :: |old(trace)| <= k < |trace| ==>
                trace[k] == Now() || trace[k] == old(Now()).(failed := failed)
    {
      var verdict := TrialVerdict(mem.installed, at.slot, at.env);
      if verdict.Failed? && mem.installed.value.version !in failed {
        MarkFailed(mem.installed.value.version);
      }
      if !verdict.Undecided? {
        mem := mem.(installed := None);
        Save(Step.Forget, waste);
      }
    }

    // A ready bundle that is running or not wanted any more: its file now, the record with the next save.
    method TidyReady(at: Booted) returns (drop: bool)
      requires Idle()
      modifies this`files, this`mem, this`waste, this`trace, this`steps
      ensures Valid() && waste == old(waste) && old(trace) <= trace && old(steps) <= steps
      ensures drop == ReadyUnwanted(saved, at.release, failed)
      ensures mem == Dropped(drop, false, saved)
      ensures files == if drop then old(files) - {saved.ready.value.bundle} else old(files)
      ensures !drop ==> trace == old(trace)
    {
      drop := false;
      if mem.ready.Some? {
        var env := if at.env.Some? then at.env.value else map[];
        var isDone := mem.ready.value.version == at.release && at.slot.Some?
                      && Get(env, Committed(at.slot.value), "?") == "1";
        RunningIsNotWanted(at.release, failed);
        if isDone || NoLongerWanted(mem.ready.value.version, at.release, failed) {
          Unlink(mem.ready.value.bundle, None);
          mem := mem.(ready := None);
          drop := true;
        }
      }
    }

    method TidyOffer(at: Booted, ghost dropReady: bool) returns (drop: bool)
      requires Valid() && waste.uncharged.None? && mem == Dropped(dropReady, false, saved)
      modifies this`files, this`mem, this`waste, this`trace, this`steps
      ensures Valid() && waste == old(waste) && old(trace) <= trace && old(steps) <= steps
      ensures drop == OfferUnwanted(saved, at.release, failed)
      ensures mem == Dropped(dropReady, drop, saved)
      ensures files == if drop then old(files) - {PartName(saved.offer.value.bundle)} else old(files)
      ensures !drop ==> trace == old(trace)
    {
      drop := false;
      if mem.offer.Some? && NoLongerWanted(mem.offer.value.version, at.release, failed) {
        Unlink(PartName(mem.offer.value.bundle), None);
        mem := mem.(offer := None);
        drop := true;
      }
    }

    // The second half of housekeeping.
    method Tidy(at: Booted)
      requires Idle()
      modifies this
      ensures Idle() && old(trace) <= trace && old(steps) <= steps && failed == old(failed) && waste == old(waste)
      ensures saved == Tidied(old(saved), at.release, failed)
      ensures files == Swept(old(files), old(saved), at.release, failed)
      ensures !ReadyUnwanted(old(saved), at.release, failed) && !OfferUnwanted(old(saved), at.release, failed) ==>
                trace == old(trace)
    {
      var dropReady := TidyReady(at);
      var dropOffer := TidyOffer(at, dropReady);
      if dropReady || dropOffer {
        Save(Step.Tidy(dropReady, dropOffer), waste);
      }
    }

    // The trial's outcome, then what is tidied away; everything else is as it was.
    twostate predicate Housekept(at: Booted)
      reads this
    {
      var verdict := TrialVerdict(old(saved).installed, at.slot, at.env);
      && failed == FailedAfter(old(failed), old(saved), verdict)
      && saved == Tidied(AfterTrial(old(saved), verdict), at.release, failed)
      && files == Swept(old(files), old(saved), at.release, failed)
    }

    // After it, whatever is still offered or ready is strictly newer than the running release and has
    // failed no trial here.
    method Housekeeping(at: Booted)
      requires Idle()
      modifies this
      ensures Idle() && old(trace) <= trace && old(steps) <= steps && old(failed) <= failed
      ensures Housekept(at)
      ensures saved.ready.Some? ==> Newer(saved.ready.value.version, at.release) == Some(true)
                                    && saved.ready.value.version !in failed
      ensures saved.offer.Some? ==> Newer(saved.offer.value.version, at.release) == Some(true)
                                    && saved.offer.value.version !in failed
      ensures waste == old(waste)
      ensures var st := AfterTrial(old(saved), TrialVerdict(old(saved).installed, at.slot, at.env));
              !ReadyUnwanted(st, at.release, failed) && !OfferUnwanted(st, at.release, failed) ==>
                forall k :: |old(trace)| <= k < |trace| ==>
                  trace[k] == Now() || trace[k] == old(Now()).(failed := failed)
    {
      TrialOutcome(at);
      Tidy(at);
    }

    // --- what is installed ---

    // What is installed or streamed next, for the history; nothing is written.
    method Choose(version: string, running: string)
      requires Idle() && saved.offer.Some? && version !in failed && Newer(version, running) == Some(true)
      modifies this`trace, this`steps
      ensures Idle() && trace == old(trace) + [Now()] && steps == old(steps) + [Step.Pick(version, running)]
    {
      Record(Step.Pick(version, running));
    }

    // The file to install, if any. The checks after the file's presence are never the ones to refuse:
    // with an offer and a ready file there, the answer is that file, and it is the signed offer's.
    method ReadyToInstall(at: Booted) returns (bundle: Option<string>)
      requires Idle()
      modifies this
      ensures Idle() && old(trace) <= trace && old(steps) <= steps && old(failed) <= failed
      ensures Housekept(at)
      ensures bundle.Some? <==> saved.offer.Some? && saved.ready.Some? && saved.ready.value.bundle in files
      ensures bundle.Some? ==> bundle.value == saved.ready.value.bundle && Got(saved.offer.value)
      ensures bundle.Some? ==> Newer(saved.ready.value.version, at.release) == Some(true)
                               && saved.ready.value.version !in failed
      ensures bundle.Some? ==> |steps| > |old(steps)|
                               && steps[|steps| - 1] == Step.Pick(saved.ready.value.version, at.release)
    {
      Housekeeping(at);
      Intact();
      if mem.ready.None? || mem.ready.value.bundle !in files {
        return None;
      }
      var r := mem.ready.value;
      if mem.offer.None? || r.sha256 != mem.offer.value.sha256 {
        return None;
      }
      if r.version in failed || Newer(r.version, at.release) != Some(true) {
        return None;
      }
      Choose(r.version, at.release);
      return Some(r.bundle);
    }

    // The offer to stream, or None if it raised.
    method OfferToStream(at: Booted, followed: string, url: string) returns (offer: Option<Offer>)
      requires Idle()
      modifies this
      ensures Idle() && old(trace) <= trace && old(steps) <= steps && old(failed) <= failed
      ensures Housekept(at)
      ensures offer == if saved.offer.Some? && saved.offer.value.channel == followed && saved.url == url
                       then saved.offer else None
      ensures offer.Some? ==> Newer(offer.value.version, at.release) == Some(true) && offer.value.version !in failed
      ensures offer.Some? ==> |steps| > |old(steps)|
                              && steps[|steps| - 1] == Step.Pick(offer.value.version, at.release)
    {
      Housekeeping(at);
      if mem.offer.None? || mem.offer.value.channel != followed || mem.url != url {
        return None;
      }
      Choose(mem.offer.value.version, at.release);
      return mem.offer;
    }

    method ForgetInstalled()
      requires Idle()
      modifies this
      ensures Idle() && old(trace) <= trace && old(steps) <= steps && failed == old(failed) && files == old(files)
      ensures saved == old(saved).(installed := None)
    {
      if mem.installed.Some? {
        mem := mem.(installed := None);
        Save(Step.Forget, waste);
      }
    }

    method RememberInstalled(installed: Installed)
      requires Idle()
      modifies this
      ensures Idle() && trace == old(trace) + [Now()] && steps == old(steps) + [Step.Remember(installed)]
      ensures failed == old(failed) && files == old(files) && saved == old(saved).(installed := Some(installed))
    {
      mem := mem.(installed := Some(installed));
      Save(Step.Remember(installed), waste);
    }

    // resolve_bundle: the bundle named on the command line, if it is a file, or the one to choose itself.
    method ResolveBundle(named: Option<string>, isFile: bool, at: Booted) returns (bundle: Option<string>)
      requires Idle()
      modifies this
      ensures Idle() && old(trace) <= trace && old(steps) <= steps && old(failed) <= failed
      ensures named.Some? ==> bundle == (if isFile then named else None) && Now() == old(Now())
      ensures named.None? ==> Housekept(at)
      ensures named.None? && bundle.Some? ==>
                && saved.offer.Some? && Got(saved.offer.value) && bundle.value == saved.offer.value.bundle
                && saved.ready.Some? && Newer(saved.ready.value.version, at.release) == Some(true)
                && saved.ready.value.version !in failed
    {
      if named.Some? {
        return if isFile then named else None;
      }
      bundle := ReadyToInstall(at);
    }

    // The last step, and not one before from, remembers the install; until then the disk had none.
    ghost predicate RememberedAfterNone(installed: Installed, from: nat)
      reads this
    {
      && from < |steps| == |trace| - 1 && steps[|steps| - 1] == Step.Remember(installed)
      && trace[|steps| - 1].saved.installed.None? && trace[|steps|] == Now()
    }

    // An earlier install is forgotten before RAUC writes the slot, and the new one remembered if the slot
    // then holds it.
    method WriteSlot(installed: Installed, holds: bool)
      requires Idle()
      modifies this
      ensures Idle() && old(trace) <= trace && old(steps) <= steps && failed == old(failed) && files == old(files)
      ensures saved == old(saved).(installed := if holds then Some(installed) else None)
      ensures holds ==> RememberedAfterNone(installed, |old(steps)|)
    {
      ForgetInstalled();
      if holds {
        RememberInstalled(installed);
      }
    }

    // install, the inner run: rauc info's version if RAUC accepts the bundle, and whether the write to
    // the other slot succeeded. An earlier install is forgotten, on disk, before the slot is touched, and the
    // new one remembered exactly when the slot holds it: in the state before, while RAUC writes, none is.
    method Install(named: Option<string>, isFile: bool, at: Booted, slot: Slot, info: Option<string>, written: bool)
        returns (chosen: Option<string>)
      requires Idle()
      modifies this
      ensures Idle() && old(trace) <= trace && old(steps) <= steps && old(failed) <= failed
      ensures chosen.Some? && info.Some? ==>
                saved.installed == if written then Some(Installed(info.value, Other(slot))) else None
      ensures chosen.Some? && info.Some? && written ==>
                RememberedAfterNone(Installed(info.value, Other(slot)), |old(steps)|)
      ensures named.Some? ==> chosen == (if isFile then named else None) && files == old(files)
                              && saved == old(saved).(installed := saved.installed)
      ensures chosen.None? || info.None? ==> if named.Some? then Now() == old(Now()) else Housekept(at)
      ensures named.None? && chosen.Some? ==>
                && saved.offer.Some? && Got(saved.offer.value) && chosen.value == saved.offer.value.bundle
                && saved.ready.Some? && Newer(saved.ready.value.version, at.release) == Some(true)
                && saved.ready.value.version !in failed
    {
      chosen := ResolveBundle(named, isFile, at);
      if chosen.None? || info.None? {
        return;
      }
      WriteSlot(Installed(info.value, Other(slot)), written);
    }

    // install --stream. An earlier install is forgotten once the preflight is through, before RAUC starts, and
    // the new one remembered exactly if RAUC ended well and the slot then holds the offer; a slot that holds
    // another release is marked bad: marks is what grubenv_set is given.
    method StreamInstall(at: Booted, followed: string, url: string, slot: Slot, end: Streaming)
        returns (offer: Option<Offer>, marks: Env)
      requires Idle()
      modifies this
      ensures Idle() && old(trace) <= trace && old(steps) <= steps && old(failed) <= failed
      ensures offer == if saved.offer.Some? && saved.offer.value.channel == followed && saved.url == url
                       then saved.offer else None
      ensures marks == if offer.Some? && end.Streamed? && end.got != Some(offer.value.version)
                       then map[Order := Name(slot) + " " + Name(Other(slot)),
                                Ok(Other(slot)) := "0", Try(Other(slot)) := "0"]
                       else map[]
      ensures offer.Some? && !end.NotStarted? ==>
                saved.installed == if end == Streamed(Some(offer.value.version))
                                   then Some(Installed(offer.value.version, Other(slot))) else None
      ensures offer.Some? && end == Streamed(Some(offer.value.version)) ==>
                RememberedAfterNone(Installed(offer.value.version, Other(slot)), |old(steps)|)
      ensures offer.None? || end.NotStarted? ==> Housekept(at)
      ensures offer.Some? ==> Newer(offer.value.version, at.release) == Some(true) && offer.value.version !in failed
    {
      marks := map[];
      offer := OfferToStream(at, followed, url);
      if offer.None? || end.NotStarted? {
        return;
      }
      WriteSlot(Installed(offer.value.version, Other(slot)), end == Streamed(Some(offer.value.version)));
      if end.Streamed? && end.got != Some(offer.value.version) {
        var t := Other(slot);
        marks := map[Order := Name(slot) + " " + Name(t), Ok(t) := "0", Try(t) := "0"];
      }
    }
  }
}
