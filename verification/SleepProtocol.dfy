// boat-sleepd's verify and receive loop as a trace of verdicts: which packets can change the fate of
// others, and how often one packet can be accepted.
module SleepProtocol {
  import opened Basics
  import opened SleepWire
  import opened Replay

  datatype Reason = WrongLength | BadMagic | BadVersion | BadSignature | StaleTimestamp | ReplayedNonce | UnknownOpcode

  datatype Verdict = Accepted | Refused(reason: Reason)

  datatype Config = Config(hmac: Hmac, key: Bytes, window: int)

  datatype Arrival = Arrival(packet: Bytes, now: int)

  // The checks before the nonce reaches the cache, in boat-sleepd's order.
  function Screen(cfg: Config, a: Arrival): Option<Reason> {
    var p := a.packet;
    if |p| != PACKET_LEN then Some(WrongLength)
    else
      var header := p[..HEADER_LEN];
      if header[..8] != MAGIC then Some(BadMagic)
      else if header[8] != VERSION then Some(BadVersion)
      else if p[HEADER_LEN..] != cfg.hmac(cfg.key, header) then Some(BadSignature)
      else if Abs(HeaderTimestamp(header) - a.now) > cfg.window then Some(StaleTimestamp)
      else None
  }

  function Nonce(p: Bytes): nat
    requires |p| == PACKET_LEN
  {
    HeaderNonce(p[..HEADER_LEN])
  }

  function Timestamp(p: Bytes): nat
    requires |p| == PACKET_LEN
  {
    HeaderTimestamp(p[..HEADER_LEN])
  }

  // verify on values: the verdict and the cache afterwards.
  function Verify(cfg: Config, seen: Seen, a: Arrival): (Verdict, Seen) {
    match Screen(cfg, a)
    case Some(why) => (Refused(why), seen)
    case None =>
      var r := Admit(seen, cfg.window, Nonce(a.packet), a.now);
      if !r.isNew then (Refused(ReplayedNonce), r.seen)
      else if HeaderOpcode(a.packet[..HEADER_LEN]) != OP_SLEEP then (Refused(UnknownOpcode), r.seen)
      else (Accepted, r.seen)
  }

  // The receive loop: the verdict on every datagram, in order.
  function Verdicts(cfg: Config, seen: Seen, arrivals: seq<Arrival>): (v: seq<Verdict>)
    ensures |v| == |arrivals|
    decreases |arrivals|
  {
    if arrivals == [] then []
    else
      var (verdict, seen') := Verify(cfg, seen, arrivals[0]);
      [verdict] + Verdicts(cfg, seen', arrivals[1..])
  }

  predicate NonDecreasing(arrivals: seq<Arrival>, from: int)
    decreases |arrivals|
  {
    arrivals == [] || (from <= arrivals[0].now && NonDecreasing(arrivals[1..], arrivals[0].now))
  }

  method VerifyPacket(cfg: Config, cache: ReplayCache, packet: Bytes, now: int) returns (verdict: Verdict)
    requires cache.window == cfg.window
    modifies cache
    ensures (verdict, cache.seen) == Verify(cfg, old(cache.seen), Arrival(packet, now))
  {
    if |packet| != PACKET_LEN {
      return Refused(WrongLength);
    }
    var header, mac := packet[..HEADER_LEN], packet[HEADER_LEN..];
    if header[..8] != MAGIC {
      return Refused(BadMagic);
    }
    if header[8] != VERSION {
      return Refused(BadVersion);
    }
    var expected := cfg.hmac(cfg.key, header);
    if mac != expected {
      return Refused(BadSignature);
    }
    var skew := HeaderTimestamp(header) - now;
    if Abs(skew) > cfg.window {
      return Refused(StaleTimestamp);
    }
    var isNew := cache.CheckAndAdd(HeaderNonce(header), now);
    if !isNew {
      return Refused(ReplayedNonce);
    }
    if HeaderOpcode(header) != OP_SLEEP {
      return Refused(UnknownOpcode);
    }
    verdict := Accepted;
  }

  method Receive(cfg: Config, arrivals: seq<Arrival>) returns (verdicts: seq<Verdict>)
    ensures verdicts == Verdicts(cfg, map[], arrivals)
  {
    var cache := new ReplayCache(cfg.window);
    verdicts := [];
    for i := 0 to |arrivals|
      invariant cache.window == cfg.window
      invariant Verdicts(cfg, map[], arrivals) == verdicts + Verdicts(cfg, cache.seen, arrivals[i..])
    {
      var verdict := VerifyPacket(cfg, cache, arrivals[i].packet, arrivals[i].now);
      assert arrivals[i..][0] == arrivals[i] && arrivals[i..][1..] == arrivals[i + 1..];
      verdicts := verdicts + [verdict];
    }
  }

  // --- refused packets do not interfere ---

  function Kept<T>(items: seq<T>, keep: seq<bool>): seq<T>
    requires |items| == |keep|
  {
    if items == [] then []
    else (if keep[0] then [items[0]] else []) + Kept(items[1..], keep[1..])
  }

  lemma KeptHead<T>(items: seq<T>, keep: seq<bool>)
    requires |items| == |keep| && items != []
    ensures keep[0] ==> Kept(items, keep) != [] && Kept(items, keep)[0] == items[0]
                        && Kept(items, keep)[1..] == Kept(items[1..], keep[1..])
                        && Kept(items, keep) == [items[0]] + Kept(items[1..], keep[1..])
    ensures !keep[0] ==> Kept(items, keep) == Kept(items[1..], keep[1..])
  {
  }

  predicate Droppable(v: Verdict) {
    v.Refused? && v.reason != UnknownOpcode
  }

  predicate OnlyRefusedDropped(verdicts: seq<Verdict>, keep: seq<bool>)
    requires |verdicts| == |keep|
  {
    forall i :: 0 <= i < |keep| && !keep[i] ==> Droppable(verdicts[i])
  }

  lemma OnlyRefusedDroppedTail(verdicts: seq<Verdict>, keep: seq<bool>)
    requires |verdicts| == |keep| && keep != [] && OnlyRefusedDropped(verdicts, keep)
    ensures !keep[0] ==> Droppable(verdicts[0])
    ensures OnlyRefusedDropped(verdicts[1..], keep[1..])
  {
  }

  // Caches that agree from the cutoff on give one call the same answer and agree afterwards - and a
  // call that finds its nonce leaves its cache agreeing with one that was never asked.
  lemma OneCallApart(s1: Seen, s2: Seen, window: int, clock: int, nonce: nat, now: int)
    requires clock <= now && Prune(s1, clock - window) == Prune(s2, clock - window)
    ensures Admit(s1, window, nonce, now) == Admit(s2, window, nonce, now)
    ensures Prune(s1, now - window) == Prune(s2, now - window)
    ensures !Admit(s1, window, nonce, now).isNew ==>
              Prune(Admit(s1, window, nonce, now).seen, now - window) == Prune(s2, now - window)
  {
    PruneTwice(s1, clock - window, now - window);
    PruneTwice(s2, clock - window, now - window);
    PruneTwice(s1, now - window, now - window);
  }

  lemma OneStepApart(cfg: Config, s1: Seen, s2: Seen, clock: int, a: Arrival)
    requires clock <= a.now && Prune(s1, clock - cfg.window) == Prune(s2, clock - cfg.window)
    ensures var (v1, s1') := Verify(cfg, s1, a);
      var (v2, s2') := Verify(cfg, s2, a);
      && v1 == v2
      && Prune(s1', a.now - cfg.window) == Prune(s2', a.now - cfg.window)
      && (Droppable(v1) ==> Prune(s1', a.now - cfg.window) == Prune(s2, a.now - cfg.window))
  {
    match Screen(cfg, a)
    case Some(_) => OneCallApart(s1, s2, cfg.window, clock, 0, a.now);
    case None => OneCallApart(s1, s2, cfg.window, clock, Nonce(a.packet), a.now);
  }

  // One packet in front of two runs that agree from there on.
  lemma OnePacketMore(cfg: Config, s1: Seen, s2: Seen, s2': Seen, arrivals: seq<Arrival>, keep: seq<bool>)
    requires |keep| == |arrivals| > 0
    requires Verdicts(cfg, s2', Kept(arrivals[1..], keep[1..]))
             == Kept(Verdicts(cfg, Verify(cfg, s1, arrivals[0]).1, arrivals[1..]), keep[1..])
    requires if keep[0] then Verify(cfg, s2, arrivals[0]) == (Verify(cfg, s1, arrivals[0]).0, s2') else s2' == s2
    ensures Verdicts(cfg, s2, Kept(arrivals, keep)) == Kept(Verdicts(cfg, s1, arrivals), keep)
  {
    var all := Verdicts(cfg, s1, arrivals);
    assert all[1..] == Verdicts(cfg, Verify(cfg, s1, arrivals[0]).1, arrivals[1..]);
    KeptHead(arrivals, keep);
    KeptHead(all, keep);
    if keep[0] {
      VerdictsCons(cfg, s2, arrivals[0], Kept(arrivals[1..], keep[1..]));
    }
  }

  function NextThinned(cfg: Config, seen: Seen, a: Arrival, kept: bool): Seen {
    if kept then Verify(cfg, seen, a).1 else seen
  }

  lemma StillApart(cfg: Config, s1: Seen, s2: Seen, clock: int, arrivals: seq<Arrival>, keep: seq<bool>)
    requires |keep| == |arrivals| > 0 && NonDecreasing(arrivals, clock)
    requires Prune(s1, clock - cfg.window) == Prune(s2, clock - cfg.window)
    requires OnlyRefusedDropped(Verdicts(cfg, s1, arrivals), keep)
    ensures var a := arrivals[0];
      var s1', s2' := Verify(cfg, s1, a).1, NextThinned(cfg, s2, a, keep[0]);
      && Prune(s1', a.now - cfg.window) == Prune(s2', a.now - cfg.window)
      && OnlyRefusedDropped(Verdicts(cfg, s1', arrivals[1..]), keep[1..])
      && NonDecreasing(arrivals[1..], a.now)
      && (keep[0] ==> Verify(cfg, s2, a).0 == Verify(cfg, s1, a).0)
  {
    OneStepApart(cfg, s1, s2, clock, arrivals[0]);
    var all := Verdicts(cfg, s1, arrivals);
    assert all[1..] == Verdicts(cfg, Verify(cfg, s1, arrivals[0]).1, arrivals[1..]);
    OnlyRefusedDroppedTail(all, keep);
  }

  // With a clock that does not run backwards, deleting any packets that were refused - for any reason
  // but an unknown opcode - leaves the verdict on every other packet as it was. s1 and s2 are the caches
  // of the full and the thinned run; calls from `clock` on cannot tell them apart.
  lemma {:induction false} RefusedPacketsDoNotInterfere(cfg: Config, s1: Seen, s2: Seen, clock: int,
                                                        arrivals: seq<Arrival>, keep: seq<bool>)
    requires |keep| == |arrivals| && NonDecreasing(arrivals, clock)
    requires Prune(s1, clock - cfg.window) == Prune(s2, clock - cfg.window)
    requires OnlyRefusedDropped(Verdicts(cfg, s1, arrivals), keep)
    ensures Verdicts(cfg, s2, Kept(arrivals, keep)) == Kept(Verdicts(cfg, s1, arrivals), keep)
    decreases |arrivals|
  {
    if arrivals == [] {
    } else {
      var s1', s2' := Verify(cfg, s1, arrivals[0]).1, NextThinned(cfg, s2, arrivals[0], keep[0]);
      StillApart(cfg, s1, s2, clock, arrivals, keep);
      RefusedPacketsDoNotInterfere(cfg, s1', s2', arrivals[0].now, arrivals[1..], keep[1..]);
      OnePacketMore(cfg, s1, s2, s2', arrivals, keep);
    }
  }

  lemma VerdictsCons(cfg: Config, seen: Seen, a: Arrival, rest: seq<Arrival>)
    ensures var (verdict, seen') := Verify(cfg, seen, a);
      Verdicts(cfg, seen, [a] + rest) == [verdict] + Verdicts(cfg, seen', rest)
  {
    assert ([a] + rest)[1..] == rest;
  }

  lemma PruneTwice(seen: Seen, cutoff: int, later: int)
    requires cutoff <= later
    ensures Prune(Prune(seen, cutoff), later) == Prune(seen, later)
  {
  }

  // Packets that fail before the nonce step never touch the cache: for them it holds for any clock.
  lemma {:induction false} ScreenedPacketsDoNotInterfere(cfg: Config, seen: Seen, arrivals: seq<Arrival>,
                                                         keep: seq<bool>)
    requires |keep| == |arrivals|
    requires forall i :: 0 <= i < |arrivals| && !keep[i] ==> Screen(cfg, arrivals[i]).Some?
    ensures Verdicts(cfg, seen, Kept(arrivals, keep)) == Kept(Verdicts(cfg, seen, arrivals), keep)
    decreases |arrivals|
  {
    if arrivals == [] {
    } else {
      var (_, seen') := Verify(cfg, seen, arrivals[0]);
      ScreenedPacketsDoNotInterfere(cfg, seen', arrivals[1..], keep[1..]);
      KeptHead(arrivals, keep);
      KeptHead(Verdicts(cfg, seen, arrivals), keep);
      assert Verdicts(cfg, seen, arrivals)[1..] == Verdicts(cfg, seen', arrivals[1..]);
    }
  }

  lemma VerdictsOfThree(cfg: Config, seen: Seen, a: Arrival, b: Arrival, c: Arrival)
    ensures var (va, s1) := Verify(cfg, seen, a);
      var (vb, s2) := Verify(cfg, s1, b);
      Verdicts(cfg, seen, [a, b, c]) == [va, vb, Verify(cfg, s2, c).0]
  {
    assert [a, b, c][1..] == [b, c] && [b, c][1..] == [c] && [c][1..] == [];
    var (_, s1) := Verify(cfg, seen, a);
    var (vb, s2) := Verify(cfg, s1, b);
    assert Verdicts(cfg, s2, [c]) == [Verify(cfg, s2, c).0];
    assert Verdicts(cfg, s1, [b, c]) == [vb, Verify(cfg, s2, c).0];
  }

  // A clock that runs backwards breaks it even for a replay that was refused: its pruning forgets
  // the nonce, and the packet is accepted again on its next arrival.
  lemma RefusedReplayInterferesWhenClockGoesBack(cfg: Config, p: Bytes, q: Bytes, t: int)
    requires cfg.window >= 1
    requires Screen(cfg, Arrival(p, t)).None? && HeaderOpcode(p[..HEADER_LEN]) == OP_SLEEP
    requires Screen(cfg, Arrival(q, t + cfg.window)).None? && Nonce(q) != Nonce(p)
    ensures Verdicts(cfg, map[Nonce(q) := t + cfg.window],
                     [Arrival(p, t), Arrival(p, t)]) == [Accepted, Refused(ReplayedNonce)]
    ensures Verdicts(cfg, map[Nonce(q) := t + cfg.window],
                     [Arrival(p, t), Arrival(q, t + cfg.window), Arrival(p, t)])
            == [Accepted, Refused(ReplayedNonce), Accepted]
  {
    var seen: Seen := map[Nonce(q) := t + cfg.window];
    var seen1 := Verify(cfg, seen, Arrival(p, t)).1;
    assert seen1 == seen[Nonce(p) := t];
    assert [Arrival(p, t), Arrival(p, t)][1..] == [Arrival(p, t)];
    assert Prune(seen1, t) == seen;
    assert Verify(cfg, seen1, Arrival(q, t + cfg.window)) == (Refused(ReplayedNonce), seen);
    assert Verify(cfg, seen, Arrival(p, t)).0 == Accepted;
    VerdictsOfThree(cfg, seen, Arrival(p, t), Arrival(q, t + cfg.window), Arrival(p, t));
  }

  // --- how often one nonce, and one packet, can be accepted ---

  // n was last admitted at t: the cache still says so, or the window has passed.
  ghost predicate Blocks(seen: Seen, n: nat, t: int, window: int, clock: int) {
    t <= clock && (t + window <= clock || (n in seen && seen[n] == t))
  }

  lemma BlockedUntil(cfg: Config, seen: Seen, n: nat, t: int, clock: int, a: Arrival)
    requires Blocks(seen, n, t, cfg.window, clock) && clock <= a.now
    ensures var (verdict, seen') := Verify(cfg, seen, a);
      && (|a.packet| == PACKET_LEN && Nonce(a.packet) == n && verdict.Accepted? ==>
            t + cfg.window <= a.now && Blocks(seen', n, a.now, cfg.window, a.now))
      && Blocks(seen', n, t, cfg.window, a.now)
  {
  }

  lemma {:induction false} AdmittedThenBlocked(cfg: Config, seen: Seen, arrivals: seq<Arrival>, n: nat, t: int,
                                               clock: int, j: nat)
    requires Blocks(seen, n, t, cfg.window, clock) && NonDecreasing(arrivals, clock)
    requires j < |arrivals| && Verdicts(cfg, seen, arrivals)[j] == Accepted
    requires |arrivals[j].packet| == PACKET_LEN && Nonce(arrivals[j].packet) == n
    ensures t + cfg.window <= arrivals[j].now
    decreases j
  {
    BlockedUntil(cfg, seen, n, t, clock, arrivals[0]);
    if j == 0 {
    } else {
      var (_, seen') := Verify(cfg, seen, arrivals[0]);
      AdmittedThenBlocked(cfg, seen', arrivals[1..], n, t, arrivals[0].now, j - 1);
    }
  }

  // Two acceptances of one nonce are at least the window apart, in any run from any cache.
  lemma {:induction false} AcceptancesAreSpaced(cfg: Config, seen: Seen, arrivals: seq<Arrival>, clock: int,
                                                i: nat, j: nat)
    requires NonDecreasing(arrivals, clock) && i < j < |arrivals|
    requires Verdicts(cfg, seen, arrivals)[i] == Accepted && Verdicts(cfg, seen, arrivals)[j] == Accepted
    requires |arrivals[i].packet| == PACKET_LEN && |arrivals[j].packet| == PACKET_LEN
    requires Nonce(arrivals[i].packet) == Nonce(arrivals[j].packet)
    ensures arrivals[i].now + cfg.window <= arrivals[j].now
    decreases i
  {
    var a := arrivals[0];
    var (_, seen') := Verify(cfg, seen, a);
    if i > 0 {
      AcceptancesAreSpaced(cfg, seen', arrivals[1..], a.now, i - 1, j - 1);
    } else {
      AdmittedThenBlocked(cfg, seen', arrivals[1..], Nonce(a.packet), a.now, a.now, j - 1);
    }
  }

  // How often packet p is accepted in a run, and when first.
  function Acceptances(cfg: Config, seen: Seen, arrivals: seq<Arrival>, p: Bytes): nat
    decreases |arrivals|
  {
    if arrivals == [] then 0
    else
      var (verdict, seen') := Verify(cfg, seen, arrivals[0]);
      (if verdict.Accepted? && arrivals[0].packet == p then 1 else 0)
      + Acceptances(cfg, seen', arrivals[1..], p)
  }

  function FirstAcceptance(cfg: Config, seen: Seen, arrivals: seq<Arrival>, p: Bytes): Option<int>
    decreases |arrivals|
  {
    if arrivals == [] then None
    else
      var (verdict, seen') := Verify(cfg, seen, arrivals[0]);
      if verdict.Accepted? && arrivals[0].packet == p then Some(arrivals[0].now)
      else FirstAcceptance(cfg, seen', arrivals[1..], p)
  }

  lemma {:induction false} AcceptancesAfter(cfg: Config, seen: Seen, arrivals: seq<Arrival>, p: Bytes, t: int,
                                            clock: int)
    requires |p| == PACKET_LEN && cfg.window >= 1
    requires Blocks(seen, Nonce(p), t, cfg.window, clock) && NonDecreasing(arrivals, clock)
    ensures Acceptances(cfg, seen, arrivals, p) * cfg.window <= Max(0, Timestamp(p) + cfg.window - t)
    decreases |arrivals|
  {
    if arrivals == [] {
    } else {
      var a := arrivals[0];
      var (verdict, seen') := Verify(cfg, seen, a);
      BlockedUntil(cfg, seen, Nonce(p), t, clock, a);
      if verdict.Accepted? && a.packet == p {
        AcceptancesAfter(cfg, seen', arrivals[1..], p, a.now, a.now);
        var rest := Acceptances(cfg, seen', arrivals[1..], p);
        assert (1 + rest) * cfg.window == cfg.window + rest * cfg.window;
      } else {
        AcceptancesAfter(cfg, seen', arrivals[1..], p, t, a.now);
      }
    }
  }

  lemma CancelFactor(count: nat, w: nat, k: nat)
    requires w >= 1
    ensures count * w <= k * w ==> count <= k
    ensures count * w < k * w ==> count < k
  {
    if count > k {
      assert count * w == k * w + (count - k) * w;
    }
  }

  // One packet is accepted at most three times; at most twice unless it first came in exactly the
  // window early; and once if its timestamp was already behind the clock.
  lemma {:induction false} AtMostThreeAcceptances(cfg: Config, seen: Seen, arrivals: seq<Arrival>, p: Bytes,
                                                  clock: int)
    requires |p| == PACKET_LEN && cfg.window >= 1 && NonDecreasing(arrivals, clock)
    ensures var count := Acceptances(cfg, seen, arrivals, p);
            match FirstAcceptance(cfg, seen, arrivals, p)
            case None => count == 0
            case Some(first) =>
              && Abs(Timestamp(p) - first) <= cfg.window
              && 1 <= count <= 3
              && (first > Timestamp(p) - cfg.window ==> count <= 2)
              && (first > Timestamp(p) ==> count == 1)
    decreases |arrivals|
  {
    if arrivals == [] {
    } else {
      var a := arrivals[0];
      var (verdict, seen') := Verify(cfg, seen, a);
      if verdict.Accepted? && a.packet == p {
        AcceptancesAfter(cfg, seen', arrivals[1..], p, a.now, a.now);
        var rest := Acceptances(cfg, seen', arrivals[1..], p);
        CancelFactor(rest, cfg.window, 0);
        CancelFactor(rest, cfg.window, 1);
        CancelFactor(rest, cfg.window, 2);
      } else {
        AtMostThreeAcceptances(cfg, seen', arrivals[1..], p, a.now);
      }
    }
  }

  // "Usable once" holds exactly for a packet whose timestamp is strictly behind the clock when it is
  // accepted: otherwise the same bytes are accepted again later.
  lemma UsableOnceIff(cfg: Config, seen: Seen, p: Bytes, first: int)
    requires cfg.window >= 1 && Verify(cfg, seen, Arrival(p, first)).0 == Accepted
    ensures var seen' := Verify(cfg, seen, Arrival(p, first)).1;
            (forall later :: first <= later ==> Verify(cfg, seen', Arrival(p, later)).0 != Accepted)
            <==> Timestamp(p) < first
  {
    var seen' := Verify(cfg, seen, Arrival(p, first)).1;
    if first <= Timestamp(p) {
      assert Verify(cfg, seen', Arrival(p, first + cfg.window)).0 == Accepted;
    }
  }

  // Three is reached: a well-formed packet sent exactly the window early, on time and the window late.
  lemma ThreeAcceptancesHappen(cfg: Config, p: Bytes, t: int, n: nat)
    requires cfg.window >= 1 && |p| == PACKET_LEN && t == Timestamp(p) && n == Nonce(p)
    requires Screen(cfg, Arrival(p, t)).None? && HeaderOpcode(p[..HEADER_LEN]) == OP_SLEEP
    ensures Verdicts(cfg, map[], [Arrival(p, t - cfg.window), Arrival(p, t), Arrival(p, t + cfg.window)])
            == [Accepted, Accepted, Accepted]
  {
    var early, onTime, late := Arrival(p, t - cfg.window), Arrival(p, t), Arrival(p, t + cfg.window);
    assert Verify(cfg, map[], early) == (Accepted, map[n := t - cfg.window]);
    assert Verify(cfg, map[n := t - cfg.window], onTime) == (Accepted, map[n := t]);
    assert Verify(cfg, map[n := t], late).0 == Accepted;
    VerdictsOfThree(cfg, map[], early, onTime, late);
  }
}
