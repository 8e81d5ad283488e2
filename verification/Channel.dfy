// The channel's signed index: what is accepted of it, what is offered, and what state.json keeps.
module Channel {
  import opened Basics
  import opened Trial
  import opened Versions

  type Digest = string

  const MAX_REFETCH := 3
  const SERIAL_MAX := 0x1_0000_0000

  datatype Offer = Offer(version: string, bundle: string, size: nat, sha256: Digest, l4t: string, channel: string)

  datatype Ready = Ready(bundle: string, version: string, sha256: Digest)

  // state.json. given_up's texts are left out: any entry counts.
  datatype State = State(serials: map<string, int>, indexHashes: map<string, Digest>,
                         offer: Option<Offer>, ready: Option<Ready>,
                         givenUp: set<Digest>, refetch: map<Digest, nat>,
                         installed: Option<Installed>, waiting: bool, channel: string, url: string)

  // rest: the fields only shown to people.
  datatype Index = Index(channel: string, serial: int, compatible: string, version: string, l4t: string,
                         bundle: string, size: int, sha256: Digest, firmware: Option<string>, rest: string)

  type IndexHash = Index -> Digest

  // What the board is: its release, the one a rollback would boot, and what it was flashed with.
  datatype Facts = Facts(running: string, other: Option<string>, compatible: Option<string>,
                         l4t: Option<string>, firmware: Option<string>)

  datatype Decision = Refused(why: string) | NothingToFetch(message: string) | Offered

  // --- validate_index ---

  predicate IsAlnum(c: char) {
    IsDigit(c) || 'A' <= c <= 'Z' || 'a' <= c <= 'z'
  }

  function WithoutNewline(s: string): string {
    if s != [] && s[|s| - 1] == '\n' then s[..|s| - 1] else s
  }

  // BUNDLE_RE.match, whose $ also matches before a final newline; and no "..".
  predicate IsBundleName(s: string) {
    var t := WithoutNewline(s);
    && |t| >= 7 && t[|t| - 6..] == ".raucb" && IsAlnum(t[0])
    && (forall i :: 0 <= i < |t| ==> IsAlnum(t[i]) || t[i] in "._+-")
    && (forall i :: 0 <= i < |s| - 1 ==> !(s[i] == '.' && s[i + 1] == '.'))
  }

  predicate ValidIndex(idx: Index) {
    && IsBundleName(idx.bundle) && idx.size > 0 && 0 <= idx.serial < SERIAL_MAX
    && ParseVersion(idx.version).Some?
  }

  // --- decide ---

  function Seen(st: State, channel: string): int {
    if channel in st.serials then st.serials[channel] else -1
  }

  predicate IsStored(hash: IndexHash, idx: Index, st: State) {
    idx.channel in st.indexHashes && st.indexHashes[idx.channel] == hash(idx)
  }

  predicate Same(hash: IndexHash, idx: Index, st: State) {
    idx.serial == Seen(st, idx.channel) && IsStored(hash, idx, st)
  }

  predicate Given(s: Option<string>) {
    s.Some? && s.value != ""
  }

  function Decide(hash: IndexHash, idx: Index, followed: string, st: State, facts: Facts, failed: seq<string>): Decision
  {
    if idx.channel != followed then Refused("another channel")
    else if idx.serial <= Seen(st, idx.channel) && !Same(hash, idx, st) then Refused("a replayed or rolled-back index")
    else if facts.compatible != Some(idx.compatible) then Refused("another board")
    else if Newer(idx.version, facts.running).None? then Refused("this board's release is not a version")
    else if Newer(idx.version, facts.running) == Some(false) then NothingToFetch("up to date")
    else if idx.version in failed then NothingToFetch("failed a trial")
    else if facts.other == Some(idx.version) then NothingToFetch("already in the other slot")
    else if idx.sha256 in st.givenUp && Same(hash, idx, st) then NothingToFetch("given up")
    else if facts.l4t != Some(idx.l4t) then NothingToFetch("a BSP bump")
    else if Given(facts.firmware) && Given(idx.firmware) && idx.firmware != facts.firmware then
      NothingToFetch("another kernel device tree")
    else Offered
  }

  // --- what check_channel keeps of an accepted index ---

  function OfferOf(idx: Index): Offer
    requires idx.size > 0
  {
    Offer(idx.version, idx.bundle, idx.size, idx.sha256, idx.l4t, idx.channel)
  }

  // The index last accepted of its channel. A new one tries again what was given up under the old one.
  function Noted(hash: IndexHash, idx: Index, url: string, st: State): State {
    var known := if IsStored(hash, idx, st) then st else st.(givenUp := {}, refetch := map[]);
    known.(serials := known.serials[idx.channel := idx.serial],
           indexHashes := known.indexHashes[idx.channel := hash(idx)],
           channel := idx.channel, url := url)
  }

  // The offer that comes with it, or that it withdraws; a bundle ready for another is not ready for it.
  function Offering(idx: Index, offered: bool, st: State): State
    requires idx.size > 0
  {
    if offered then
      st.(offer := Some(OfferOf(idx)),
          ready := if st.ready.Some? && st.ready.value.sha256 == idx.sha256 then st.ready else None)
    else st.(offer := None, ready := None)
  }

  function Accepted(hash: IndexHash, idx: Index, offered: bool, url: string, st: State): State
    requires idx.size > 0
  {
    Offering(idx, offered, Noted(hash, idx, url, st))
  }

  // A different name is a different file, and so is the same name with another SHA-256.
  predicate AnotherFile(idx: Index, st: State) {
    st.offer.None? || st.offer.value.bundle != idx.bundle || st.offer.value.sha256 != idx.sha256
  }

  // --- what decide promises ---

  // An index is refused exactly for another channel, a serial not above the highest accepted unless it is
  // that very index, another board, or a running release nothing can be compared with; and of the others
  // an offer is made exactly of what is strictly newer, failed no trial here, is not in the other slot,
  // was not given up under this index, and fits this board's L4T and kernel device tree.
  lemma OfferedIsWorthIt(hash: IndexHash, idx: Index, followed: string, st: State, facts: Facts, failed: seq<string>)
    ensures var decision := Decide(hash, idx, followed, st, facts, failed);
            && (decision.Refused? <==>
                  || idx.channel != followed
                  || (idx.serial <= Seen(st, idx.channel) && !Same(hash, idx, st))
                  || facts.compatible != Some(idx.compatible)
                  || ParseVersion(idx.version).None? || ParseVersion(facts.running).None?)
            && (decision.Offered? <==>
                  && !decision.Refused?
                  && Newer(idx.version, facts.running) == Some(true)
                  && idx.version !in failed && facts.other != Some(idx.version) && facts.l4t == Some(idx.l4t)
                  && !(idx.sha256 in st.givenUp && Same(hash, idx, st))
                  && (Given(facts.firmware) && Given(idx.firmware) ==> idx.firmware == facts.firmware))
  {
  }

  datatype Occasion = Occasion(idx: Index, followed: string, st: State, facts: Facts, failed: seq<string>)

  // Each was offered, and each board ran what the one before offered.
  ghost predicate Installs(hash: IndexHash, run: seq<Occasion>) {
    && (forall k :: 0 <= k < |run| ==>
          Decide(hash, run[k].idx, run[k].followed, run[k].st, run[k].facts, run[k].failed).Offered?)
    && (forall k :: 0 < k < |run| ==> run[k].facts.running == run[k - 1].idx.version)
  }

  lemma NewerChains(a: string, b: string, c: string)
    requires Newer(a, b) == Some(true) && Newer(b, c) == Some(true)
    ensures Newer(a, c) == Some(true)
  {
    NewerIsStrictWeakOrder(a, b, c);
  }

  lemma NewerIsAnother(a: string, b: string)
    requires Newer(a, b) == Some(true)
    ensures a != b
  {
    NewerIsStrictWeakOrder(a, b, a);
  }

  lemma {:induction false} Climbs(versions: seq<string>, i: nat, j: nat)
    requires i < j < |versions|
    requires forall k :: 0 < k < |versions| ==> Newer(versions[k], versions[k - 1]) == Some(true)
    ensures Newer(versions[j], versions[i]) == Some(true)
  {
    if i == j - 1 {
    } else {
      Climbs(versions, i, j - 1);
      NewerChains(versions[j], versions[j - 1], versions[i]);
    }
  }

  // The releases the board runs: the one it starts with, then each it was offered.
  function Releases(run: seq<Occasion>): (versions: seq<string>)
    requires run != []
    ensures |versions| == |run| + 1 && versions[0] == run[0].facts.running
    ensures forall k :: 0 < k <= |run| ==> versions[k] == run[k - 1].idx.version
  {
    [run[0].facts.running] + seq(|run|, k requires 0 <= k < |run| => run[k].idx.version)
  }

  // A board that only installs what it is offered never comes back to a release, or below one: over any
  // run of offers and installs, whatever the channels serve and whatever is reset in between, every
  // release is strictly newer than every one the board ran before, so none is run twice.
  lemma OffersOnlyClimb(hash: IndexHash, run: seq<Occasion>, i: nat, j: nat)
    requires run != [] && Installs(hash, run) && i < j <= |run|
    ensures Newer(Releases(run)[j], Releases(run)[i]) == Some(true) && Releases(run)[j] != Releases(run)[i]
  {
    var versions := Releases(run);
    forall k | 0 < k < |versions| ensures Newer(versions[k], versions[k - 1]) == Some(true) {
      var o := run[k - 1];
      OfferedIsWorthIt(hash, o.idx, o.followed, o.st, o.facts, o.failed);
      assert versions[k - 1] == o.facts.running;
    }
    Climbs(versions, i, j);
    NewerIsAnother(versions[j], versions[i]);
  }

  // Serials of a channel only go up, and an index accepted at the same serial is the same index.
  ghost predicate NoStepBack(st: State, st': State) {
    forall c :: c in st.serials ==>
      && c in st'.serials && st.serials[c] <= st'.serials[c]
      && (st.serials[c] == st'.serials[c] && c in st.indexHashes ==>
            c in st'.indexHashes && st'.indexHashes[c] == st.indexHashes[c])
  }

  lemma AcceptingNeverStepsBack(hash: IndexHash, idx: Index, followed: string, st: State, facts: Facts,
                                failed: seq<string>, url: string)
    requires idx.size > 0 && !Decide(hash, idx, followed, st, facts, failed).Refused?
    ensures NoStepBack(st, Accepted(hash, idx, Decide(hash, idx, followed, st, facts, failed).Offered?, url, st))
  {
  }

  // Coming back to a channel whose index has not changed is accepted, whatever was checked on others
  // in between: the serial it was left at is the serial it is found at.
  lemma UnchangedChannelIsAccepted(hash: IndexHash, idx: Index, st: State, facts: Facts, failed: seq<string>)
    requires Seen(st, idx.channel) == idx.serial && IsStored(hash, idx, st)
    requires facts.compatible == Some(idx.compatible) && ParseVersion(idx.version).Some?
    requires ParseVersion(facts.running).Some?
    ensures !Decide(hash, idx, idx.channel, st, facts, failed).Refused?
  {
  }
}
