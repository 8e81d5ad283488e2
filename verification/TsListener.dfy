// The TypeScript receiver: an insertion-ordered Map pruned, evicted and set in place, timestamps read
// through Number - and its agreement with boat-sleepd on whole traces.
module TsListener {
  import opened Basics
  import opened SleepWire
  import opened RoundedClock
  import Replay
  import SP = SleepProtocol

  type Verdict = SP.Verdict
  type Arrival = SP.Arrival

  // --- BigInt.toString(16), the Map's key: nonces with the same key are the same nonce ---

  const HEX_DIGITS := "0123456789abcdef"

  function ToHex(n: nat): (s: string)
    ensures |s| >= 1
  {
    if n < 16 then [HEX_DIGITS[n]] else ToHex(n / 16) + [HEX_DIGITS[n % 16]]
  }

  lemma {:induction false} KeysAreInjective(m: nat, n: nat)
    requires ToHex(m) == ToHex(n)
    ensures m == n
  {
    assert forall i, j :: 0 <= i < j < 16 ==> HEX_DIGITS[i] != HEX_DIGITS[j];
    var s := ToHex(m);
    if m >= 16 || n >= 16 {
      assert m >= 16 ==> s[..|s| - 1] == ToHex(m / 16) && s[|s| - 1] == HEX_DIGITS[m % 16];
      assert n >= 16 ==> s[..|s| - 1] == ToHex(n / 16) && s[|s| - 1] == HEX_DIGITS[n % 16];
      KeysAreInjective(m / 16, n / 16);
    }
  }

  // --- the Map, in insertion order; a key stands for the nonce it prints ---

  datatype Entry = Entry(key: nat, at: int)

  datatype MapAnswer = MapAnswer(isNew: bool, seen: seq<Entry>)

  predicate HasKey(entries: seq<Entry>, key: nat) {
    exists i :: 0 <= i < |entries| && entries[i].key == key
  }

  function Survivors(entries: seq<Entry>, cutoff: int): seq<Entry> {
    if entries == [] then []
    else (if entries[0].at > cutoff then [entries[0]] else []) + Survivors(entries[1..], cutoff)
  }

  function Evicted(entries: seq<Entry>, maxEntries: int): seq<Entry> {
    if |entries| < maxEntries || entries == [] then entries else Evicted(entries[1..], maxEntries)
  }

  function Admit(seen: seq<Entry>, window: int, maxEntries: int, nonce: nat, now: int): MapAnswer {
    Added(Survivors(seen, Cutoff(now, window)), maxEntries, nonce, now)
  }

  function Added(live: seq<Entry>, maxEntries: int, nonce: nat, now: int): MapAnswer {
    if HasKey(live, nonce) then MapAnswer(false, live)
    else MapAnswer(true, Evicted(live, maxEntries) + [Entry(nonce, now)])
  }

  ghost predicate DistinctKeys(entries: seq<Entry>) {
    forall i, j :: 0 <= i < j < |entries| ==> entries[i].key != entries[j].key
  }

  ghost predicate InTimeOrder(entries: seq<Entry>, clock: int) {
    && (forall i, j :: 0 <= i < j < |entries| ==> entries[i].at <= entries[j].at)
    && (forall i :: 0 <= i < |entries| ==> entries[i].at <= clock)
  }

  lemma {:induction false} SurvivorsAre(entries: seq<Entry>, cutoff: int)
    ensures forall e :: e in Survivors(entries, cutoff) <==> e in entries && e.at > cutoff
    ensures |Survivors(entries, cutoff)| <= |entries|
  {
    if entries == [] {
    } else {
      SurvivorsAre(entries[1..], cutoff);
      assert entries == [entries[0]] + entries[1..];
    }
  }

  lemma {:induction false} SurvivorsStayDistinct(entries: seq<Entry>, cutoff: int)
    requires DistinctKeys(entries)
    ensures DistinctKeys(Survivors(entries, cutoff))
  {
    if entries == [] {
    } else {
      var rest := entries[1..];
      var live := Survivors(rest, cutoff);
      SurvivorsStayDistinct(rest, cutoff);
      SurvivorsAre(rest, cutoff);
      forall i | 0 <= i < |live| ensures live[i].key != entries[0].key {
        assert live[i] in rest;
      }
    }
  }

  lemma {:induction false} SurvivorsStayInOrder(entries: seq<Entry>, cutoff: int, clock: int)
    requires InTimeOrder(entries, clock)
    ensures InTimeOrder(Survivors(entries, cutoff), clock)
  {
    if entries == [] {
    } else {
      var rest := entries[1..];
      var live := Survivors(rest, cutoff);
      SurvivorsStayInOrder(rest, cutoff, clock);
      SurvivorsAre(rest, cutoff);
      forall i | 0 <= i < |live| ensures entries[0].at <= live[i].at {
        assert live[i] in rest;
      }
      OlderInFront(entries[0], live, clock);
    }
  }

  lemma OlderInFront(first: Entry, entries: seq<Entry>, clock: int)
    requires InTimeOrder(entries, clock) && first.at <= clock
    requires forall i :: 0 <= i < |entries| ==> first.at <= entries[i].at
    ensures InTimeOrder([first] + entries, clock)
  {
    var all := [first] + entries;
    forall i, j | 0 <= i < j < |all| ensures all[i].at <= all[j].at {
      assert all[j] == entries[j - 1];
      assert i > 0 ==> all[i] == entries[i - 1];
    }
  }

  // Eviction drops entries from the front only, and no more than it needs to.
  lemma {:induction false} EvictedIsASuffix(entries: seq<Entry>, maxEntries: int)
    ensures |Evicted(entries, maxEntries)| <= |entries|
    ensures Evicted(entries, maxEntries) == entries[|entries| - |Evicted(entries, maxEntries)|..]
    ensures |Evicted(entries, maxEntries)| == if |entries| < maxEntries then |entries| else Max(maxEntries - 1, 0)
  {
    if !(|entries| < maxEntries || entries == []) {
      EvictedIsASuffix(entries[1..], maxEntries);
    }
  }

  // The Map never grows past maxEntries, and no key is in it twice.
  lemma AdmitStaysBounded(seen: seq<Entry>, window: int, maxEntries: int, nonce: nat, now: int)
    requires maxEntries >= 1 && DistinctKeys(seen) && |seen| <= maxEntries
    ensures DistinctKeys(Admit(seen, window, maxEntries, nonce, now).seen)
    ensures |Admit(seen, window, maxEntries, nonce, now).seen| <= maxEntries
  {
    var live := Survivors(seen, Cutoff(now, window));
    SurvivorsAre(seen, Cutoff(now, window));
    SurvivorsStayDistinct(seen, Cutoff(now, window));
    if !HasKey(live, nonce) {
      RoomMade(live, maxEntries, Entry(nonce, now));
    }
  }

  lemma RoomMade(live: seq<Entry>, maxEntries: int, newest: Entry)
    requires maxEntries >= 1 && DistinctKeys(live) && !HasKey(live, newest.key)
    ensures DistinctKeys(Evicted(live, maxEntries) + [newest])
    ensures |Evicted(live, maxEntries) + [newest]| <= maxEntries
  {
    EvictedIsASuffix(live, maxEntries);
    NewKeyAtEnd(live, |live| - |Evicted(live, maxEntries)|, newest);
  }

  lemma NewKeyAtEnd(live: seq<Entry>, cut: nat, newest: Entry)
    requires DistinctKeys(live) && cut <= |live| && !HasKey(live, newest.key)
    ensures DistinctKeys(live[cut..] + [newest])
  {
    var all := live[cut..] + [newest];
    forall i, j | 0 <= i < j < |all| ensures all[i].key != all[j].key {
      assert all[i] == live[cut + i];
      assert j < |all| - 1 ==> all[j] == live[cut + j];
    }
  }

  // It stays in the order its entries were admitted in.
  lemma AdmitStaysInOrder(seen: seq<Entry>, window: int, maxEntries: int, clock: int, nonce: nat, now: int)
    requires InTimeOrder(seen, clock) && clock <= now
    ensures InTimeOrder(Admit(seen, window, maxEntries, nonce, now).seen, now)
  {
    var live := Survivors(seen, Cutoff(now, window));
    SurvivorsStayInOrder(seen, Cutoff(now, window), clock);
    if HasKey(live, nonce) {
      LaterClock(live, clock, now);
    } else {
      EvictedInOrder(live, maxEntries, Entry(nonce, now), clock);
    }
  }

  lemma LaterClock(entries: seq<Entry>, clock: int, later: int)
    requires InTimeOrder(entries, clock) && clock <= later
    ensures InTimeOrder(entries, later)
  {
  }

  lemma EvictedInOrder(live: seq<Entry>, maxEntries: int, newest: Entry, clock: int)
    requires InTimeOrder(live, clock) && clock <= newest.at
    ensures InTimeOrder(Evicted(live, maxEntries) + [newest], newest.at)
  {
    EvictedIsASuffix(live, maxEntries);
    NewestAtEnd(live, |live| - |Evicted(live, maxEntries)|, newest, clock);
  }

  lemma NewestAtEnd(live: seq<Entry>, cut: nat, newest: Entry, clock: int)
    requires InTimeOrder(live, clock) && clock <= newest.at && cut <= |live|
    ensures InTimeOrder(live[cut..] + [newest], newest.at)
  {
    var all := live[cut..] + [newest];
    forall i, j | 0 <= i < j < |all| ensures all[i].at <= all[j].at {
      assert all[i] == live[cut + i];
      assert j < |all| - 1 ==> all[j] == live[cut + j];
    }
    forall i | 0 <= i < |all| ensures all[i].at <= newest.at {
      assert i < |all| - 1 ==> all[i] == live[cut + i];
    }
  }

  // So whatever is evicted was admitted no later than anything that stays.
  lemma EvictionTakesTheOldest(live: seq<Entry>, maxEntries: int, clock: int, gone: Entry, kept: Entry)
    requires InTimeOrder(live, clock)
    requires gone in live && gone !in Evicted(live, maxEntries)
    requires kept in Evicted(live, maxEntries)
    ensures gone.at <= kept.at
  {
    EvictedIsASuffix(live, maxEntries);
    var stay := Evicted(live, maxEntries);
    var cut := |live| - |stay|;
    forall k | cut <= k < |live| ensures live[k] in stay {
      assert live[k] == stay[k - cut];
    }
    var i :| 0 <= i < |live| && live[i] == gone;
    var j :| 0 <= j < |stay| && stay[j] == kept;
    assert live[cut + j] == kept;
  }

  lemma PruneStep(s: seq<Entry>, i: nat, cutoff: int)
    requires i < |s|
    ensures s[i].at <= cutoff ==>
              var t := s[..i] + s[i + 1..];
              t[..i] + Survivors(t[i..], cutoff) == s[..i] + Survivors(s[i..], cutoff)
    ensures s[i].at > cutoff ==> s[..i + 1] + Survivors(s[i + 1..], cutoff) == s[..i] + Survivors(s[i..], cutoff)
  {
    var rest := s[i + 1..];
    assert s[i..][1..] == rest;
    if s[i].at <= cutoff {
      assert (s[..i] + rest)[..i] == s[..i] && (s[..i] + rest)[i..] == rest;
    } else {
      assert s[..i + 1] == s[..i] + [s[i]];
    }
  }

  class TsReplayCache {
    const windowSeconds: int
    const maxEntries: int
    var seen: seq<Entry>

    constructor (windowSeconds: int, maxEntries: int)
      ensures this.windowSeconds == windowSeconds && this.maxEntries == maxEntries && seen == []
    {
      this.windowSeconds := windowSeconds;
      this.maxEntries := maxEntries;
      seen := [];
    }

    method PruneTo(cutoff: int)
      modifies this
      ensures seen == Survivors(old(seen), cutoff)
    {
      var i := 0;
      while i < |seen|
        invariant 0 <= i <= |seen|
        invariant seen[..i] + Survivors(seen[i..], cutoff) == Survivors(old(seen), cutoff)
        decreases |seen| - i
      {
        PruneStep(seen, i, cutoff);
        if seen[i].at <= cutoff {
          seen := seen[..i] + seen[i + 1..];
        } else {
          i := i + 1;
        }
      }
    }

    method EvictTo()
      modifies this
      ensures seen == Evicted(old(seen), maxEntries)
    {
      while |seen| >= maxEntries && seen != []
        invariant Evicted(seen, maxEntries) == Evicted(old(seen), maxEntries)
        decreases |seen|
      {
        seen := seen[1..];
      }
    }

    method CheckAndAdd(nonce: nat, nowSeconds: int) returns (isNew: bool)
      modifies this
      ensures MapAnswer(isNew, seen) == Admit(old(seen), windowSeconds, maxEntries, nonce, nowSeconds)
    {
      PruneTo(Cutoff(nowSeconds, windowSeconds));
      if HasKey(seen, nonce) {
        return false;
      }
      EvictTo();
      seen := seen + [Entry(nonce, nowSeconds)];
      isNew := true;
    }
  }

  // --- verify and whole traces ---

  function Screen(cfg: SP.Config, a: Arrival): Option<SP.Reason> {
    var p := a.packet;
    if |p| != PACKET_LEN then Some(SP.WrongLength)
    else
      var header := p[..HEADER_LEN];
      if header[..8] != MAGIC then Some(SP.BadMagic)
      else if header[8] != VERSION then Some(SP.BadVersion)
      else if p[HEADER_LEN..] != cfg.hmac(cfg.key, header) then Some(SP.BadSignature)
      else if Stale(HeaderTimestamp(header), a.now, cfg.window) then Some(SP.StaleTimestamp)
      else None
  }

  function Verify(cfg: SP.Config, maxEntries: int, seen: seq<Entry>, a: Arrival): (Verdict, seq<Entry>) {
    match Screen(cfg, a)
    case Some(why) => (SP.Refused(why), seen)
    case None =>
      var r := Admit(seen, cfg.window, maxEntries, SP.Nonce(a.packet), a.now);
      if !r.isNew then (SP.Refused(SP.ReplayedNonce), r.seen)
      else if HeaderOpcode(a.packet[..HEADER_LEN]) != OP_SLEEP then (SP.Refused(SP.UnknownOpcode), r.seen)
      else (SP.Accepted, r.seen)
  }

  function Verdicts(cfg: SP.Config, maxEntries: int, seen: seq<Entry>, arrivals: seq<Arrival>): seq<Verdict>
    decreases |arrivals|
  {
    if arrivals == [] then []
    else
      var (verdict, seen') := Verify(cfg, maxEntries, seen, arrivals[0]);
      [verdict] + Verdicts(cfg, maxEntries, seen', arrivals[1..])
  }

  // The Map after a trace.
  function MapAfter(cfg: SP.Config, maxEntries: int, seen: seq<Entry>, arrivals: seq<Arrival>): seq<Entry>
    decreases |arrivals|
  {
    if arrivals == [] then seen
    else MapAfter(cfg, maxEntries, Verify(cfg, maxEntries, seen, arrivals[0]).1, arrivals[1..])
  }

  // After every trace of packets, whoever sent them and whatever the clock did, the Map is within its
  // bound and has no key twice.
  lemma {:induction false} MapStaysBounded(cfg: SP.Config, maxEntries: int, seen: seq<Entry>, arrivals: seq<Arrival>)
    requires maxEntries >= 1 && DistinctKeys(seen) && |seen| <= maxEntries
    ensures var after := MapAfter(cfg, maxEntries, seen, arrivals);
            DistinctKeys(after) && |after| <= maxEntries
    decreases |arrivals|
  {
    if arrivals == [] {
    } else {
      var a := arrivals[0];
      if Screen(cfg, a).None? {
        AdmitStaysBounded(seen, cfg.window, maxEntries, SP.Nonce(a.packet), a.now);
      }
      MapStaysBounded(cfg, maxEntries, Verify(cfg, maxEntries, seen, a).1, arrivals[1..]);
    }
  }

  // And while the clock does not run backwards it is in the order of its admissions.
  lemma {:induction false} MapStaysInOrder(cfg: SP.Config, maxEntries: int, seen: seq<Entry>, clock: int,
                                           arrivals: seq<Arrival>)
    requires InTimeOrder(seen, clock) && SP.NonDecreasing(arrivals, clock)
    ensures InTimeOrder(MapAfter(cfg, maxEntries, seen, arrivals),
                        if arrivals == [] then clock else arrivals[|arrivals| - 1].now)
    decreases |arrivals|
  {
    if arrivals == [] {
    } else {
      var a := arrivals[0];
      if Screen(cfg, a).None? {
        AdmitStaysInOrder(seen, cfg.window, maxEntries, clock, SP.Nonce(a.packet), a.now);
      } else {
        LaterClock(seen, clock, a.now);
      }
      MapStaysInOrder(cfg, maxEntries, Verify(cfg, maxEntries, seen, a).1, a.now, arrivals[1..]);
    }
  }

  method VerifyPacket(cfg: SP.Config, cache: TsReplayCache, packet: Bytes, nowSeconds: int)
    returns (verdict: Verdict)
    requires cache.windowSeconds == cfg.window
    modifies cache
    ensures (verdict, cache.seen)
            == Verify(cfg, cache.maxEntries, old(cache.seen), SP.Arrival(packet, nowSeconds))
  {
    if |packet| != PACKET_LEN {
      return SP.Refused(SP.WrongLength);
    }
    var header, mac := packet[..HEADER_LEN], packet[HEADER_LEN..];
    if header[..8] != MAGIC {
      return SP.Refused(SP.BadMagic);
    }
    if header[8] != VERSION {
      return SP.Refused(SP.BadVersion);
    }
    var expected := cfg.hmac(cfg.key, header);
    if mac != expected {
      return SP.Refused(SP.BadSignature);
    }
    var timestamp := ToNumber(HeaderTimestamp(header));
    var skew := Minus(timestamp, nowSeconds);
    if Abs(skew) > cfg.window {
      return SP.Refused(SP.StaleTimestamp);
    }
    var isNew := cache.CheckAndAdd(HeaderNonce(header), nowSeconds);
    if !isNew {
      return SP.Refused(SP.ReplayedNonce);
    }
    if HeaderOpcode(header) != OP_SLEEP {
      return SP.Refused(SP.UnknownOpcode);
    }
    verdict := SP.Accepted;
  }

  // The Map and the dict hold the same nonces with the same times.
  ghost predicate SameCache(entries: seq<Entry>, seen: Replay.Seen) {
    && DistinctKeys(entries)
    && (forall i :: 0 <= i < |entries| ==> entries[i].key in seen && seen[entries[i].key] == entries[i].at)
    && (forall n :: n in seen ==> Entry(n, seen[n]) in entries)
  }

  lemma {:induction false} SameCacheSameSize(entries: seq<Entry>, seen: Replay.Seen)
    requires SameCache(entries, seen)
    ensures |entries| == |seen|
  {
    if entries == [] {
      assert seen.Keys == {};
    } else {
      var rest := seen - {entries[0].key};
      WithoutTheFirst(entries, seen);
      SameCacheSameSize(entries[1..], rest);
      assert seen.Keys == rest.Keys + {entries[0].key};
      assert |seen.Keys| == |rest.Keys| + 1;
    }
  }

  lemma WithoutTheFirst(entries: seq<Entry>, seen: Replay.Seen)
    requires SameCache(entries, seen) && entries != []
    ensures SameCache(entries[1..], seen - {entries[0].key})
  {
    var rest := seen - {entries[0].key};
    forall n | n in rest ensures Entry(n, rest[n]) in entries[1..] {
      var i :| 0 <= i < |entries| && entries[i] == Entry(n, seen[n]);
      assert entries[1..][i - 1] == entries[i];
    }
  }

  lemma SameCacheAfterPruning(entries: seq<Entry>, seen: Replay.Seen, cutoff: int)
    requires SameCache(entries, seen)
    ensures SameCache(Survivors(entries, cutoff), Replay.Prune(seen, cutoff))
  {
    SurvivorsAre(entries, cutoff);
    SurvivorsStayDistinct(entries, cutoff);
    var live := Survivors(entries, cutoff);
    forall i | 0 <= i < |live| ensures live[i] in entries && live[i].at > cutoff {
      assert live[i] in live;
    }
  }

  // The times of a Map are readings of the clock, which Number holds.
  ghost predicate ClockReadings(entries: seq<Entry>) {
    forall i :: 0 <= i < |entries| ==> IsNumber(entries[i].at)
  }

  lemma {:induction false} SurvivorsAlike(entries: seq<Entry>, a: int, b: int)
    requires forall i :: 0 <= i < |entries| ==> (entries[i].at <= a <==> entries[i].at <= b)
    ensures Survivors(entries, a) == Survivors(entries, b)
  {
    if entries == [] {
    } else {
      SurvivorsAlike(entries[1..], a, b);
    }
  }

  // With an exact cutoff the rounding lets the same entries expire.
  lemma CutoffKeepsAlike(entries: seq<Entry>, window: int, now: int)
    requires ClockReadings(entries) && ExactCutoff(now, window)
    ensures Survivors(entries, Cutoff(now, window)) == Survivors(entries, now - window)
  {
    forall i | 0 <= i < |entries| ensures entries[i].at <= Cutoff(now, window) <==> entries[i].at <= now - window {
      CutoffFromTheRounding(entries[i].at, now, window);
    }
    SurvivorsAlike(entries, Cutoff(now, window), now - window);
  }

  lemma AdmitReadsTheClock(entries: seq<Entry>, window: int, maxEntries: int, nonce: nat, now: int)
    requires ClockReadings(entries) && IsNumber(now)
    ensures ClockReadings(Admit(entries, window, maxEntries, nonce, now).seen)
  {
    var live := Survivors(entries, Cutoff(now, window));
    SurvivorsAre(entries, Cutoff(now, window));
    EvictedIsASuffix(live, maxEntries);
    forall i | 0 <= i < |live| ensures IsNumber(live[i].at) {
      assert live[i] in entries;
    }
  }

  // Room for one more, or a nonce that needs none.
  predicate HasRoom(seen: Replay.Seen, window: int, maxEntries: int, nonce: nat, now: int) {
    var live := Replay.Prune(seen, now - window);
    nonce in live || |live| < maxEntries
  }

  lemma OneCallAgrees(entries: seq<Entry>, seen: Replay.Seen, window: int, maxEntries: int, nonce: nat, now: int)
    requires SameCache(entries, seen) && HasRoom(seen, window, maxEntries, nonce, now)
    requires ClockReadings(entries) && ExactCutoff(now, window)
    ensures var ts := Admit(entries, window, maxEntries, nonce, now);
            var py := Replay.Admit(seen, window, nonce, now);
            ts.isNew == py.isNew && SameCache(ts.seen, py.seen)
  {
    CutoffKeepsAlike(entries, window, now);
    SameCacheAfterPruning(entries, seen, now - window);
    AddedAgrees(Survivors(entries, now - window), Replay.Prune(seen, now - window), maxEntries, nonce, now);
  }

  lemma AddedAgrees(live: seq<Entry>, pruned: Replay.Seen, maxEntries: int, nonce: nat, now: int)
    requires SameCache(live, pruned) && (nonce in pruned || |pruned| < maxEntries)
    ensures var ts := Added(live, maxEntries, nonce, now);
            && ts.isNew == (nonce !in pruned)
            && SameCache(ts.seen, if nonce in pruned then pruned else pruned[nonce := now])
  {
    SameCacheSameSize(live, pruned);
    if nonce in pruned {
      assert Entry(nonce, pruned[nonce]) in live;
    } else {
      assert Evicted(live, maxEntries) == live;
      NewcomerAgrees(live, pruned, nonce, now);
    }
  }

  lemma NewcomerAgrees(live: seq<Entry>, pruned: Replay.Seen, nonce: nat, now: int)
    requires SameCache(live, pruned) && nonce !in pruned
    ensures !HasKey(live, nonce) && SameCache(live + [Entry(nonce, now)], pruned[nonce := now])
  {
    var seen', entries' := pruned[nonce := now], live + [Entry(nonce, now)];
    assert entries'[|live|] == Entry(nonce, now);
    forall n | n in seen' ensures Entry(n, seen'[n]) in entries' {
      assert n != nonce ==> Entry(n, pruned[n]) in live;
    }
  }

  // At every packet that reaches the nonce step of boat-sleepd there is room for its nonce.
  ghost predicate RoomThroughout(cfg: SP.Config, maxEntries: int, seen: Replay.Seen, arrivals: seq<Arrival>)
    decreases |arrivals|
  {
    arrivals == []
    || (&& (SP.Screen(cfg, arrivals[0]).None? ==>
              HasRoom(seen, cfg.window, maxEntries, SP.Nonce(arrivals[0].packet), arrivals[0].now))
        && RoomThroughout(cfg, maxEntries, SP.Verify(cfg, seen, arrivals[0]).1, arrivals[1..]))
  }

  // A clock Number can hold, at which the rounded check is exact at the edges of the window: the last
  // timestamps inside it and the first outside it, of those 64 bits can carry.
  predicate ExactClock(window: int, now: int) {
    IsNumber(now) && ExactAtEdges(now, window, TWO_64 - 1)
  }

  // And one whose cutoff is not rounded up to a time that has not expired.
  predicate SafeClock(window: int, now: int) {
    ExactClock(window, now) && ExactCutoff(now, window)
  }

  lemma SafeBelow(window: nat, now: nat)
    requires now + window < TWO_53
    ensures SafeClock(window, now)
  {
    RoundedClockCheckAgrees(now, window, TWO_64 - 1);
    RoundedCutoffAgrees(now, window);
  }

  ghost predicate SafeClocks(cfg: SP.Config, arrivals: seq<Arrival>) {
    forall i :: 0 <= i < |arrivals| ==> SafeClock(cfg.window, arrivals[i].now)
  }

  lemma ScreensAgree(cfg: SP.Config, a: Arrival)
    requires ExactClock(cfg.window, a.now)
    ensures Screen(cfg, a) == SP.Screen(cfg, a)
  {
    if |a.packet| == PACKET_LEN {
      SixtyFourBits();
      DecodeEncode(a.packet[..HEADER_LEN][12..20]);
      ExactFromTheEdges(SP.Timestamp(a.packet), a.now, cfg.window, TWO_64 - 1);
    }
  }

  // The clock check is exact at the edges exactly when no packet at all is screened differently.
  lemma ScreensAgreeIff(cfg: SP.Config, now: int)
    requires IsNumber(now) && forall h: Bytes :: |cfg.hmac(cfg.key, h)| == MAC_LEN
    ensures (forall p: Bytes :: Screen(cfg, SP.Arrival(p, now)) == SP.Screen(cfg, SP.Arrival(p, now)))
            <==> ExactClock(cfg.window, now)
  {
    if ExactClock(cfg.window, now) {
      forall p: Bytes ensures Screen(cfg, SP.Arrival(p, now)) == SP.Screen(cfg, SP.Arrival(p, now)) {
        ScreensAgree(cfg, SP.Arrival(p, now));
      }
    } else {
      RoundedClockCheckExactIff(now, cfg.window, TWO_64 - 1);
      var ts: nat :| ts <= TWO_64 - 1 && !Exact(ts, now, cfg.window);
      var p := BuildPacket(cfg.hmac, cfg.key, OP_SLEEP, ts, 0).value;
      UnpackBuilt(cfg.hmac, cfg.key, OP_SLEEP, ts, 0);
      assert Screen(cfg, SP.Arrival(p, now)) != SP.Screen(cfg, SP.Arrival(p, now));
    }
  }

  // The two receivers agree on every packet of every trace - for any clock, also one that runs
  // backwards - as long as a nonce that is not live finds fewer than maxEntries that are, the rounded
  // clock check is exact at the window's edges, and the cache's cutoff is not rounded up.
  lemma {:induction false} ReceiversAgree(cfg: SP.Config, maxEntries: int, entries: seq<Entry>, seen: Replay.Seen,
                                          arrivals: seq<Arrival>)
    requires SameCache(entries, seen) && ClockReadings(entries) && SafeClocks(cfg, arrivals)
    requires RoomThroughout(cfg, maxEntries, seen, arrivals)
    ensures Verdicts(cfg, maxEntries, entries, arrivals) == SP.Verdicts(cfg, seen, arrivals)
    decreases |arrivals|
  {
    if arrivals == [] {
    } else {
      var a := arrivals[0];
      ScreensAgree(cfg, a);
      if SP.Screen(cfg, a).None? {
        OneCallAgrees(entries, seen, cfg.window, maxEntries, SP.Nonce(a.packet), a.now);
        AdmitReadsTheClock(entries, cfg.window, maxEntries, SP.Nonce(a.packet), a.now);
      }
      ReceiversAgree(cfg, maxEntries, Verify(cfg, maxEntries, entries, a).1, SP.Verify(cfg, seen, a).1,
                     arrivals[1..]);
    }
  }

  // --- where the cutoff is rounded up ---

  // One nonce seen before: the Map and the dict answer alike, whenever that was, exactly if the cutoff is.
  lemma OneCallAgreesIff(window: int, maxEntries: int, nonce: nat, now: int)
    ensures (forall seenAt :: IsNumber(seenAt) ==>
               Admit([Entry(nonce, seenAt)], window, maxEntries, nonce, now).isNew
               == Replay.Admit(map[nonce := seenAt], window, nonce, now).isNew)
            <==> ExactCutoff(now, window)
  {
    forall seenAt {
      OneEntryExpires(nonce, seenAt, window, maxEntries, now);
    }
    RoundedCutoffExactIff(now, window);
    if ExactCutoff(now, window) {
    } else {
      var seenAt :| IsNumber(seenAt) && !(seenAt <= Cutoff(now, window) <==> seenAt <= now - window);
      assert Admit([Entry(nonce, seenAt)], window, maxEntries, nonce, now).isNew
             != Replay.Admit(map[nonce := seenAt], window, nonce, now).isNew;
    }
  }

  lemma OneEntryExpires(nonce: nat, seenAt: int, window: int, maxEntries: int, now: int)
    ensures Admit([Entry(nonce, seenAt)], window, maxEntries, nonce, now).isNew <==> seenAt <= Cutoff(now, window)
    ensures Replay.Admit(map[nonce := seenAt], window, nonce, now).isNew <==> seenAt <= now - window
  {
    var one := [Entry(nonce, seenAt)];
    assert Survivors(one[1..], Cutoff(now, window)) == [];
    if seenAt > Cutoff(now, window) {
      assert Survivors(one, Cutoff(now, window)) == one && one[0].key == nonce;
    }
  }

  predicate ScreenedAlike(cfg: SP.Config, a: Arrival) {
    Screen(cfg, a) == SP.Screen(cfg, a)
  }

  // A packet screened alike, at a nonce step where the caches agree.
  lemma VerifyAgrees(cfg: SP.Config, maxEntries: int, entries: seq<Entry>, seen: Replay.Seen, a: Arrival)
    requires ScreenedAlike(cfg, a)
    requires Screen(cfg, a).None? ==>
               && SameCache(entries, seen) && ClockReadings(entries) && ExactCutoff(a.now, cfg.window)
               && HasRoom(seen, cfg.window, maxEntries, SP.Nonce(a.packet), a.now)
    ensures Verify(cfg, maxEntries, entries, a).0 == SP.Verify(cfg, seen, a).0
  {
    if Screen(cfg, a).None? {
      OneCallAgrees(entries, seen, cfg.window, maxEntries, SP.Nonce(a.packet), a.now);
    }
  }

  lemma FirstAgrees(cfg: SP.Config, maxEntries: int, a: Arrival)
    requires ScreenedAlike(cfg, a)
    ensures Verify(cfg, maxEntries, [], a).0 == SP.Verify(cfg, map[], a).0
    ensures Screen(cfg, a).None? ==>
              && Verify(cfg, maxEntries, [], a).1 == [Entry(SP.Nonce(a.packet), a.now)]
              && SP.Verify(cfg, map[], a).1 == map[SP.Nonce(a.packet) := a.now]
    ensures Screen(cfg, a).Some? ==> Verify(cfg, maxEntries, [], a).1 == [] && SP.Verify(cfg, map[], a).1 == map[]
  {
  }

  lemma TwiceAgrees(cfg: SP.Config, maxEntries: int, p: Bytes, seenAt: int, now: int)
    requires IsNumber(seenAt) && ExactCutoff(now, cfg.window) && maxEntries >= 1
    requires ScreenedAlike(cfg, SP.Arrival(p, seenAt)) && ScreenedAlike(cfg, SP.Arrival(p, now))
    ensures Verdicts(cfg, maxEntries, [], [SP.Arrival(p, seenAt), SP.Arrival(p, now)])
            == SP.Verdicts(cfg, map[], [SP.Arrival(p, seenAt), SP.Arrival(p, now)])
  {
    var a, b := SP.Arrival(p, seenAt), SP.Arrival(p, now);
    FirstAgrees(cfg, maxEntries, a);
    VerifyAgrees(cfg, maxEntries, Verify(cfg, maxEntries, [], a).1, SP.Verify(cfg, map[], a).1, b);
    VerdictsOfTwo(cfg, maxEntries, [], map[], a, b);
  }

  // A sleep packet that is on time, accepted at the time the cutoff is rounded up to.
  lemma RoundedUpReopens(cfg: SP.Config, maxEntries: int, p: Bytes, now: int)
    requires IsNumber(now) && IsNumber(cfg.window) && !ExactCutoff(now, cfg.window) && maxEntries >= 1
    requires SP.Screen(cfg, SP.Arrival(p, now)).None? && SP.Timestamp(p) == now
    requires HeaderOpcode(p[..HEADER_LEN]) == OP_SLEEP
    ensures var a, b := SP.Arrival(p, Cutoff(now, cfg.window)), SP.Arrival(p, now);
            && ScreenedAlike(cfg, a) && ScreenedAlike(cfg, b)
            && Verdicts(cfg, maxEntries, [], [a, b]) == [SP.Accepted, SP.Accepted]
            && SP.Verdicts(cfg, map[], [a, b]) == [SP.Accepted, SP.Refused(SP.ReplayedNonce)]
  {
    var seenAt := Cutoff(now, cfg.window);
    var a, b := SP.Arrival(p, seenAt), SP.Arrival(p, now);
    CutoffIsInTheWindow(now, cfg.window);
    assert Screen(cfg, a).None? && SP.Screen(cfg, a).None? && Screen(cfg, b).None?;
    var entries, seen := Verify(cfg, maxEntries, [], a).1, SP.Verify(cfg, map[], a).1;
    assert entries == [Entry(SP.Nonce(p), seenAt)] && seen == map[SP.Nonce(p) := seenAt];
    OneEntryExpires(SP.Nonce(p), seenAt, cfg.window, maxEntries, now);
    VerdictsOfTwo(cfg, maxEntries, [], map[], a, b);
  }

  // So on the wire: no packet at all that is received twice, the second time now, and that both receivers
  // screen alike, gets different verdicts from them - if and only if the cutoff is exact now.
  lemma ReplaysAgreeIff(cfg: SP.Config, maxEntries: int, now: int)
    requires IsNumber(now) && now < TWO_64 && IsNumber(cfg.window) && maxEntries >= 1
    requires forall h: Bytes :: |cfg.hmac(cfg.key, h)| == MAC_LEN
    ensures (forall p: Bytes, seenAt ::
               (&& IsNumber(seenAt)
                && ScreenedAlike(cfg, SP.Arrival(p, seenAt)) && ScreenedAlike(cfg, SP.Arrival(p, now))) ==>
                 Verdicts(cfg, maxEntries, [], [SP.Arrival(p, seenAt), SP.Arrival(p, now)])
                 == SP.Verdicts(cfg, map[], [SP.Arrival(p, seenAt), SP.Arrival(p, now)]))
            <==> ExactCutoff(now, cfg.window)
  {
    if ExactCutoff(now, cfg.window) {
      forall p: Bytes, seenAt | && IsNumber(seenAt) && ScreenedAlike(cfg, SP.Arrival(p, seenAt))
                                && ScreenedAlike(cfg, SP.Arrival(p, now))
        ensures Verdicts(cfg, maxEntries, [], [SP.Arrival(p, seenAt), SP.Arrival(p, now)])
                == SP.Verdicts(cfg, map[], [SP.Arrival(p, seenAt), SP.Arrival(p, now)])
      {
        TwiceAgrees(cfg, maxEntries, p, seenAt, now);
      }
    } else {
      var p := BuildPacket(cfg.hmac, cfg.key, OP_SLEEP, now, 0).value;
      UnpackBuilt(cfg.hmac, cfg.key, OP_SLEEP, now, 0);
      RoundedUpReopens(cfg, maxEntries, p, now);
      RoundedCutoffExactIff(now, cfg.window);
      NumberIsNumber(Abs(now - cfg.window));
      var seenAt := Cutoff(now, cfg.window);
      assert IsNumber(seenAt);
      assert Verdicts(cfg, maxEntries, [], [SP.Arrival(p, seenAt), SP.Arrival(p, now)])
             != SP.Verdicts(cfg, map[], [SP.Arrival(p, seenAt), SP.Arrival(p, now)]);
    }
  }

  // --- where the room runs out ---

  // A new nonce without room evicts the oldest live entry, and no less.
  lemma OldestIsEvicted(live: seq<Entry>, maxEntries: int, newest: Entry)
    requires DistinctKeys(live) && 1 <= maxEntries <= |live| && newest.key != live[0].key
    ensures !HasKey(Evicted(live, maxEntries) + [newest], live[0].key)
  {
    EvictedIsASuffix(live, maxEntries);
    var stay := Evicted(live, maxEntries);
    forall i | 0 <= i < |stay| ensures stay[i].key != live[0].key {
      assert stay[i] == live[|live| - |stay| + i];
    }
  }

  lemma NothingExpires(entries: seq<Entry>, cutoff: int)
    requires forall i :: 0 <= i < |entries| ==> entries[i].at > cutoff
    ensures Survivors(entries, cutoff) == entries
  {
    if entries != [] {
      NothingExpires(entries[1..], cutoff);
    }
  }

  lemma EvictedAndNewestAreLive(live: seq<Entry>, maxEntries: int, newest: Entry, cutoff: int)
    requires newest.at > cutoff && forall i :: 0 <= i < |live| ==> live[i].at > cutoff
    ensures Survivors(Evicted(live, maxEntries) + [newest], cutoff) == Evicted(live, maxEntries) + [newest]
  {
    EvictedIsASuffix(live, maxEntries);
    var stay := Evicted(live, maxEntries);
    forall i | 0 <= i < |stay| ensures stay[i].at > cutoff {
      assert stay[i] == live[|live| - |stay| + i];
    }
    NothingExpires(stay + [newest], cutoff);
  }

  // The two receivers part wherever the room runs out: with at least maxEntries live nonces, a new one
  // makes the Map forget the oldest, which it then accepts again and boat-sleepd refuses.
  lemma EvictionReopensReplay(entries: seq<Entry>, seen: Replay.Seen, window: int, maxEntries: int, other: nat,
                              now: int)
    requires SameCache(entries, seen) && window >= 1 && maxEntries >= 1
    requires ClockReadings(entries) && IsNumber(now) && ExactCutoff(now, window)
    requires !HasRoom(seen, window, maxEntries, other, now)
    ensures Survivors(entries, now - window) != []
    ensures var oldest := Survivors(entries, now - window)[0].key;
            var map1, dict1 := Admit(entries, window, maxEntries, other, now), Replay.Admit(seen, window, other, now);
            && map1.isNew && dict1.isNew && !SameCache(map1.seen, dict1.seen)
            && Admit(map1.seen, window, maxEntries, oldest, now).isNew
            && !Replay.Admit(dict1.seen, window, oldest, now).isNew
  {
    var live, pruned := Survivors(entries, now - window), Replay.Prune(seen, now - window);
    WithoutRoom(entries, seen, window, maxEntries, other, now, live, pruned);
    FullReopens(live, pruned, window, maxEntries, other, now);
  }

  lemma WithoutRoom(entries: seq<Entry>, seen: Replay.Seen, window: int, maxEntries: int, other: nat, now: int,
                    live: seq<Entry>, pruned: Replay.Seen)
    requires SameCache(entries, seen) && ClockReadings(entries) && IsNumber(now) && ExactCutoff(now, window)
    requires live == Survivors(entries, now - window) && pruned == Replay.Prune(seen, now - window)
    requires !HasRoom(seen, window, maxEntries, other, now)
    ensures SameCache(live, pruned) && maxEntries <= |live| && other !in pruned
    ensures forall i :: 0 <= i < |live| ==> live[i].at > now - window
    ensures ClockReadings(Added(live, maxEntries, other, now).seen)
    ensures Admit(entries, window, maxEntries, other, now) == Added(live, maxEntries, other, now)
    ensures Replay.Admit(seen, window, other, now) == Replay.Answer(true, pruned[other := now])
  {
    SameCacheAfterPruning(entries, seen, now - window);
    SameCacheSameSize(live, pruned);
    LiveAreLater(entries, now - window);
    CutoffKeepsAlike(entries, window, now);
    AdmitReadsTheClock(entries, window, maxEntries, other, now);
  }

  // The same from the live entries on.
  lemma FullReopens(live: seq<Entry>, pruned: Replay.Seen, window: int, maxEntries: int, other: nat, now: int)
    requires SameCache(live, pruned) && 1 <= maxEntries <= |live| && other !in pruned && window >= 1
    requires forall i :: 0 <= i < |live| ==> live[i].at > now - window
    requires ExactCutoff(now, window) && ClockReadings(Added(live, maxEntries, other, now).seen)
    ensures var map1, dict1 := Added(live, maxEntries, other, now), pruned[other := now];
            && map1.isNew && !SameCache(map1.seen, dict1)
            && Admit(map1.seen, window, maxEntries, live[0].key, now).isNew
            && !Replay.Admit(dict1, window, live[0].key, now).isNew
  {
    AddedForgetsTheOldest(live, pruned, maxEntries, other, now, now - window);
    OldestIsKnown(pruned, live[0].key, other, now, now - window);
    ForgottenIsNew(Added(live, maxEntries, other, now).seen, pruned[other := now], window, maxEntries, live[0].key,
                   now);
  }

  lemma LiveAreLater(entries: seq<Entry>, cutoff: int)
    ensures forall i :: 0 <= i < |Survivors(entries, cutoff)| ==> Survivors(entries, cutoff)[i].at > cutoff
  {
    SurvivorsAre(entries, cutoff);
    var live := Survivors(entries, cutoff);
    forall i | 0 <= i < |live| ensures live[i].at > cutoff {
      assert live[i] in live;
    }
  }

  lemma ForgottenIsNew(entries: seq<Entry>, seen: Replay.Seen, window: int, maxEntries: int, oldest: nat, now: int)
    requires ClockReadings(entries) && ExactCutoff(now, window)
    requires Survivors(entries, now - window) == entries && !HasKey(entries, oldest)
    requires oldest in Replay.Prune(seen, now - window)
    ensures Admit(entries, window, maxEntries, oldest, now).isNew && !Replay.Admit(seen, window, oldest, now).isNew
  {
    CutoffKeepsAlike(entries, window, now);
  }

  lemma AddedForgetsTheOldest(live: seq<Entry>, pruned: Replay.Seen, maxEntries: int, other: nat, now: int,
                              cutoff: int)
    requires SameCache(live, pruned) && 1 <= maxEntries <= |live| && other !in pruned && now > cutoff
    requires forall i :: 0 <= i < |live| ==> live[i].at > cutoff
    ensures var map1 := Added(live, maxEntries, other, now);
            && map1.isNew && !HasKey(map1.seen, live[0].key) && Survivors(map1.seen, cutoff) == map1.seen
            && !SameCache(map1.seen, pruned[other := now]) && live[0].key in pruned && pruned[live[0].key] > cutoff
  {
    assert !HasKey(live, other);
    OldestIsEvicted(live, maxEntries, Entry(other, now));
    EvictedAndNewestAreLive(live, maxEntries, Entry(other, now), cutoff);
    var map1, oldest := Added(live, maxEntries, other, now), live[0].key;
    assert oldest in pruned[other := now] && Entry(oldest, pruned[oldest]) !in map1.seen;
  }

  lemma OldestIsKnown(pruned: Replay.Seen, oldest: nat, other: nat, now: int, cutoff: int)
    requires oldest in pruned && pruned[oldest] > cutoff && other != oldest
    ensures oldest in Replay.Prune(pruned[other := now], cutoff)
  {
  }

  // So on the wire: the packet with the oldest live nonce, sent again after one with a new nonce.
  lemma EvictionReopensPacket(cfg: SP.Config, maxEntries: int, entries: seq<Entry>, seen: Replay.Seen,
                              replay: Bytes, fill: Bytes, now: int)
    requires SameCache(entries, seen) && ClockReadings(entries) && cfg.window >= 1 && maxEntries >= 1
    requires SafeClock(cfg.window, now)
    requires SP.Screen(cfg, SP.Arrival(replay, now)).None? && SP.Screen(cfg, SP.Arrival(fill, now)).None?
    requires HeaderOpcode(replay[..HEADER_LEN]) == OP_SLEEP && HeaderOpcode(fill[..HEADER_LEN]) == OP_SLEEP
    requires !HasRoom(seen, cfg.window, maxEntries, SP.Nonce(fill), now)
    requires Survivors(entries, now - cfg.window) != []
             && SP.Nonce(replay) == Survivors(entries, now - cfg.window)[0].key
    ensures Verdicts(cfg, maxEntries, entries, [SP.Arrival(fill, now), SP.Arrival(replay, now)])
            == [SP.Accepted, SP.Accepted]
    ensures SP.Verdicts(cfg, seen, [SP.Arrival(fill, now), SP.Arrival(replay, now)])
            == [SP.Accepted, SP.Refused(SP.ReplayedNonce)]
  {
    var a, b := SP.Arrival(fill, now), SP.Arrival(replay, now);
    EvictionReopensReplay(entries, seen, cfg.window, maxEntries, SP.Nonce(fill), now);
    AdmissionDecides(cfg, maxEntries, entries, seen, a);
    AdmissionDecides(cfg, maxEntries, Verify(cfg, maxEntries, entries, a).1, SP.Verify(cfg, seen, a).1, b);
    VerdictsOfTwo(cfg, maxEntries, entries, seen, a, b);
  }

  // For a sleep packet that passes the checks before, the nonce step decides on both sides.
  lemma AdmissionDecides(cfg: SP.Config, maxEntries: int, entries: seq<Entry>, seen: Replay.Seen, a: Arrival)
    requires ExactClock(cfg.window, a.now)
    requires SP.Screen(cfg, a).None? && HeaderOpcode(a.packet[..HEADER_LEN]) == OP_SLEEP
    ensures var ts := Admit(entries, cfg.window, maxEntries, SP.Nonce(a.packet), a.now);
            Verify(cfg, maxEntries, entries, a)
            == (if ts.isNew then SP.Accepted else SP.Refused(SP.ReplayedNonce), ts.seen)
    ensures var py := Replay.Admit(seen, cfg.window, SP.Nonce(a.packet), a.now);
            SP.Verify(cfg, seen, a) == (if py.isNew then SP.Accepted else SP.Refused(SP.ReplayedNonce), py.seen)
  {
    ScreensAgree(cfg, a);
  }

  lemma VerdictsOfTwo(cfg: SP.Config, maxEntries: int, entries: seq<Entry>, seen: Replay.Seen, a: Arrival, b: Arrival)
    ensures Verdicts(cfg, maxEntries, entries, [a, b])
            == [Verify(cfg, maxEntries, entries, a).0,
                Verify(cfg, maxEntries, Verify(cfg, maxEntries, entries, a).1, b).0]
    ensures SP.Verdicts(cfg, seen, [a, b])
            == [SP.Verify(cfg, seen, a).0, SP.Verify(cfg, SP.Verify(cfg, seen, a).1, b).0]
  {
    assert [a, b][1..] == [b] && [b][1..] == [];
    var ts, py := Verify(cfg, maxEntries, entries, a).1, SP.Verify(cfg, seen, a).1;
    assert Verdicts(cfg, maxEntries, ts, [b]) == [Verify(cfg, maxEntries, ts, b).0];
    assert SP.Verdicts(cfg, py, [b]) == [SP.Verify(cfg, py, b).0];
  }
}
