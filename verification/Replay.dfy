// boat-sleepd's replay cache: nonces seen, pruned by the acceptance window, against the reference
// that remembers every admission for ever.
module Replay {
  import opened Basics

  datatype Call = Call(nonce: nat, now: int)

  datatype Admission = Admission(nonce: nat, at: int)

  type Seen = map<nat, int>

  datatype Answer = Answer(isNew: bool, seen: Seen)

  function Prune(seen: Seen, cutoff: int): Seen {
    map n | n in seen && seen[n] > cutoff :: seen[n]
  }

  // check_and_add on values: the answer and the cache afterwards.
  function Admit(seen: Seen, window: int, nonce: nat, now: int): Answer {
    var live := Prune(seen, now - window);
    if nonce in live then Answer(false, live) else Answer(true, live[nonce := now])
  }

  // --- the reference: the whole admission history, never pruned ---

  ghost predicate SeenSince(history: seq<Admission>, nonce: nat, cutoff: int) {
    exists i :: 0 <= i < |history| && history[i].nonce == nonce && history[i].at > cutoff
  }

  // The cache is what a history says, as far as calls at or after `clock` can tell.
  ghost predicate Tracks(seen: Seen, history: seq<Admission>, window: int, clock: int) {
    && (forall i :: 0 <= i < |history| ==> history[i].at <= clock)
    && (forall n :: n in seen ==> Admission(n, seen[n]) in history)
    && (forall i :: 0 <= i < |history| && history[i].at > clock - window ==>
          history[i].nonce in seen && seen[history[i].nonce] >= history[i].at)
    && (window >= 1 ==> forall n :: n in seen ==> seen[n] > clock - window)
  }

  function Extend(history: seq<Admission>, isNew: bool, nonce: nat, now: int): seq<Admission> {
    if isNew then history + [Admission(nonce, now)] else history
  }

  lemma StepTracks(seen: Seen, history: seq<Admission>, window: int, clock: int, nonce: nat, now: int)
    requires Tracks(seen, history, window, clock) && clock <= now
    ensures var a := Admit(seen, window, nonce, now);
            && (a.isNew <==> !SeenSince(history, nonce, now - window))
            && Tracks(a.seen, Extend(history, a.isNew, nonce, now), window, now)
  {
    var Answer(isNew, seen') := Admit(seen, window, nonce, now);
    var live := Prune(seen, now - window);
    if nonce in live {
      var i :| 0 <= i < |history| && history[i] == Admission(nonce, seen[nonce]);
    }
    var history' := Extend(history, isNew, nonce, now);
    forall n | n in seen' ensures Admission(n, seen'[n]) in history' {
      if isNew && n == nonce {
        assert history'[|history|] == Admission(n, now);
      } else {
        assert Admission(n, seen[n]) in history;
      }
    }
  }

  predicate NonDecreasing(calls: seq<Call>, from: int) {
    calls == [] || (from <= calls[0].now && NonDecreasing(calls[1..], calls[0].now))
  }

  function Answers(seen: Seen, window: int, calls: seq<Call>): seq<bool>
    decreases |calls|
  {
    if calls == [] then []
    else
      var a := Admit(seen, window, calls[0].nonce, calls[0].now);
      [a.isNew] + Answers(a.seen, window, calls[1..])
  }

  ghost function ReferenceAnswers(history: seq<Admission>, window: int, calls: seq<Call>): seq<bool>
    decreases |calls|
  {
    if calls == [] then []
    else
      var isNew := !SeenSince(history, calls[0].nonce, calls[0].now - window);
      [isNew] + ReferenceAnswers(Extend(history, isNew, calls[0].nonce, calls[0].now), window, calls[1..])
  }

  // Pruning refines the full history: on every run of calls whose clock does not run backwards,
  // the pruned cache answers exactly as the memory of every admission does.
  lemma {:induction false} PruningRefinesHistory(seen: Seen, history: seq<Admission>, window: int, clock: int,
                                                 calls: seq<Call>)
    requires Tracks(seen, history, window, clock) && NonDecreasing(calls, clock)
    ensures Answers(seen, window, calls) == ReferenceAnswers(history, window, calls)
    decreases |calls|
  {
    if calls == [] {
    } else {
      var c := calls[0];
      var a := Admit(seen, window, c.nonce, c.now);
      StepTracks(seen, history, window, clock, c.nonce, c.now);
      PruningRefinesHistory(a.seen, Extend(history, a.isNew, c.nonce, c.now), window, c.now, calls[1..]);
    }
  }

  // --- the size of the cache ---

  function Live(history: seq<Admission>, cutoff: int): seq<Admission> {
    if history == [] then []
    else (if history[0].at > cutoff then [history[0]] else []) + Live(history[1..], cutoff)
  }

  ghost function Nonces(history: seq<Admission>): set<nat> {
    set a | a in history :: a.nonce
  }

  lemma {:induction false} LiveAdmissions(history: seq<Admission>, cutoff: int, a: Admission)
    ensures a in Live(history, cutoff) <==> a in history && a.at > cutoff
  {
    if history == [] {
    } else {
      LiveAdmissions(history[1..], cutoff, a);
      assert history == [history[0]] + history[1..];
    }
  }

  lemma {:induction false} NoncesAreFewer(history: seq<Admission>)
    ensures |Nonces(history)| <= |history|
  {
    if history == [] {
      assert Nonces(history) == {};
    } else {
      NoncesAreFewer(history[1..]);
      assert history == [history[0]] + history[1..];
      assert Nonces(history) == {history[0].nonce} + Nonces(history[1..]);
    }
  }

  // The cache holds exactly the nonces admitted in the last window, so never more entries than
  // that window had admissions.
  lemma CacheIsTheLastWindow(seen: Seen, history: seq<Admission>, window: int, clock: int)
    requires Tracks(seen, history, window, clock) && window >= 1
    ensures seen.Keys == Nonces(Live(history, clock - window))
    ensures |seen| <= |Live(history, clock - window)|
  {
    var live := Live(history, clock - window);
    forall n | n in seen.Keys ensures n in Nonces(live) {
      LiveAdmissions(history, clock - window, Admission(n, seen[n]));
      assert Admission(n, seen[n]).nonce == n;
    }
    forall n | n in Nonces(live) ensures n in seen.Keys {
      var a :| a in live && a.nonce == n;
      LiveAdmissions(history, clock - window, a);
      var i :| 0 <= i < |history| && history[i] == a;
    }
    NoncesAreFewer(live);
    assert |seen| == |seen.Keys|;
  }

  // The class boat-sleepd keeps, with its whole admission history as a ghost.
  class ReplayCache {
    const window: int
    var seen: Seen
    ghost var history: seq<Admission>
    ghost var clock: int

    ghost predicate Valid()
      reads this
    {
      Tracks(seen, history, window, clock)
    }

    constructor (window: int)
      ensures this.window == window && seen == map[] && history == []
      ensures Valid()
    {
      this.window := window;
      seen := map[];
      history := [];
      clock := 0;
    }

    // True exactly when the nonce was not admitted at any t > now - window in the whole history -
    // as long as the clock has not run backwards.
    method CheckAndAdd(nonce: nat, now: int) returns (isNew: bool)
      modifies this
      ensures Answer(isNew, seen) == Admit(old(seen), window, nonce, now)
      ensures clock == now
      ensures history == Extend(old(history), isNew, nonce, now)
      ensures old(Valid()) && old(clock) <= now ==>
                Valid() && isNew == !SeenSince(old(history), nonce, now - window)
    {
      var cutoff := now - window;
      if Valid() && clock <= now {
        StepTracks(seen, history, window, clock, nonce, now);
      }
      if seen != map[] {
        seen := Prune(seen, cutoff);
      }
      assert seen == Prune(old(seen), cutoff);
      isNew := nonce !in seen;
      clock := now;
      history := Extend(history, isNew, nonce, now);
      if isNew {
        seen := seen[nonce := now];
      }
    }
  }
}
