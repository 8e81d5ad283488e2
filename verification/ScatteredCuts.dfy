// Cuts that keep any of the unsynced renames, not the first ones: state.json from one moment of a run, a
// bundle in downloads/ from another - and when, exactly, what is ready is still what was signed.
module ScatteredCuts {
  import opened Basics
  import opened Channel
  import opened UpdateMachine

  // Step p made the bundle of that name out of a checked download.
  ghost predicate Promotes(trace: seq<Snap>, steps: seq<Step>, p: nat, name: string) {
    && p < |steps| && p < |trace| && steps[p].Promote?
    && trace[p].saved.offer.Some? && trace[p].saved.offer.value.bundle == name
  }

  lemma BundleStep(d: Digests, s: Snap, step: Step, s': Snap, name: string)
    requires Integrity(d, s) && Next(d, s, step, s') && IsBundleName(name) && name in s'.files
    ensures || (name in s.files && s'.files[name] == s.files[name])
            || (&& step.Promote? && s.saved.offer.Some? && s.saved.offer.value.bundle == name
                && d.file(s'.files[name]) == s.saved.offer.value.sha256)
  {
    if s.saved.offer.Some? {
      PartIsNoBundle(s.saved.offer.value.bundle, name);
    }
  }

  // A bundle has the hash of the offer it was promoted for.
  lemma {:induction false} PromotedBefore(d: Digests, trace: seq<Snap>, steps: seq<Step>, j: nat, name: string)
      returns (p: nat)
    requires Chain(d, trace, steps) && Fresh(trace[0]) && j < |trace|
    requires IsBundleName(name) && name in trace[j].files
    ensures p < j && Promotes(trace, steps, p, name)
    ensures d.file(trace[j].files[name]) == trace[p].saved.offer.value.sha256
  {
    if j == 0 {
      assert false;
    } else {
      IntegrityThroughout(d, trace, steps, j - 1);
      assert Linked(d, trace, steps, j - 1);
      BundleStep(d, trace[j - 1], steps[j - 1], trace[j], name);
      if name in trace[j - 1].files && trace[j].files[name] == trace[j - 1].files[name] {
        p := PromotedBefore(d, trace, steps, j - 1, name);
      } else {
        p := j - 1;
      }
    }
  }

  // After the cut: state.json as saved at i, and each bundle as it was at some moment, or gone.
  ghost predicate Scattered(trace: seq<Snap>, i: nat, left: Snap) {
    && i < |trace| && left.saved == trace[i].saved
    && forall name :: name in left.files && IsBundleName(name) ==>
         exists j :: 0 <= j < |trace| && name in trace[j].files && trace[j].files[name] == left.files[name]
  }

  // What is left under ready's name was promoted by step p.
  ghost predicate LeftBy(d: Digests, trace: seq<Snap>, steps: seq<Step>, p: nat, left: Snap) {
    && left.saved.ready.Some? && left.saved.ready.value.bundle in left.files
    && Promotes(trace, steps, p, left.saved.ready.value.bundle)
    && d.file(left.files[left.saved.ready.value.bundle]) == trace[p].saved.offer.value.sha256
  }

  // It always was promoted by some step.
  lemma ReadyFileWasPromoted(d: Digests, trace: seq<Snap>, steps: seq<Step>, i: nat, left: Snap) returns (p: nat)
    requires Chain(d, trace, steps) && Fresh(trace[0]) && Scattered(trace, i, left)
    requires left.saved.ready.Some? && left.saved.ready.value.bundle in left.files
    ensures LeftBy(d, trace, steps, p, left)
  {
    var name := left.saved.ready.value.bundle;
    IntegrityThroughout(d, trace, steps, i);
    var j :| 0 <= j < |trace| && name in trace[j].files && trace[j].files[name] == left.files[name];
    p := PromotedBefore(d, trace, steps, j, name);
  }

  // Whichever renames survive, integrity does if and only if ready's file is gone, or was promoted for
  // ready's hash and is the one the surviving state.json offers, if it offers any.
  lemma ScatteredCutIff(d: Digests, trace: seq<Snap>, steps: seq<Step>, i: nat, left: Snap)
    requires Chain(d, trace, steps) && Fresh(trace[0]) && Scattered(trace, i, left)
    ensures Integrity(d, left) <==>
              forall p: nat :: LeftBy(d, trace, steps, p, left) ==>
                && trace[p].saved.offer.value.sha256 == left.saved.ready.value.sha256
                && (left.saved.offer.Some? ==> left.saved.offer.value.bundle == left.saved.ready.value.bundle)
  {
    IntegrityThroughout(d, trace, steps, i);
    if left.saved.ready.Some? && left.saved.ready.value.bundle in left.files {
      var p := ReadyFileWasPromoted(d, trace, steps, i, left);
    }
  }

  // --- only a republished bundle is lost this way ---

  // No index accepted from i up to j offers another file than the one before it.
  ghost predicate NoOtherFile(trace: seq<Snap>, steps: seq<Step>, i: nat, j: nat) {
    forall k :: i <= k < j && k < |steps| && k < |trace| && steps[k].Accept? ==>
      !AnotherFile(steps[k].idx, trace[k].saved)
  }

  predicate SameFile(a: Offer, b: Offer) {
    a.bundle == b.bundle && a.sha256 == b.sha256
  }

  lemma OfferStep(d: Digests, s: Snap, step: Step, s': Snap)
    requires Next(d, s, step, s') && (step.Accept? ==> !AnotherFile(step.idx, s.saved))
    ensures s'.saved.offer.Some? ==>
              s.saved.offer.Some? && SameFile(s'.saved.offer.value, s.saved.offer.value)
  {
  }

  // An offer there at the end was there all along, of the same file.
  lemma {:induction false} OfferStays(d: Digests, trace: seq<Snap>, steps: seq<Step>, i: nat, j: nat)
    requires Chain(d, trace, steps) && i <= j < |trace| && NoOtherFile(trace, steps, i, j)
    requires trace[j].saved.offer.Some?
    ensures trace[i].saved.offer.Some? && SameFile(trace[j].saved.offer.value, trace[i].saved.offer.value)
  {
    if i == j {
    } else {
      assert Linked(d, trace, steps, j - 1);
      OfferStep(d, trace[j - 1], steps[j - 1], trace[j]);
      OfferStays(d, trace, steps, i, j - 1);
    }
  }

  lemma ReadyStep(d: Digests, s: Snap, step: Step, s': Snap, o: Offer)
    requires Next(d, s, step, s') && (step.Accept? ==> !AnotherFile(step.idx, s.saved))
    requires s.saved.offer.Some? ==> SameFile(s.saved.offer.value, o)
    requires s.saved.ready.Some? ==> s.saved.ready.value.sha256 == o.sha256
    ensures s'.saved.offer.Some? ==> SameFile(s'.saved.offer.value, o)
    ensures s'.saved.ready.Some? ==> s'.saved.ready.value.sha256 == o.sha256
  {
  }

  // From an offer on, what is ready has its hash.
  lemma {:induction false} ReadyStays(d: Digests, trace: seq<Snap>, steps: seq<Step>, i: nat, j: nat, o: Offer)
    requires Chain(d, trace, steps) && i <= j < |trace| && NoOtherFile(trace, steps, i, j)
    requires Integrity(d, trace[i]) && trace[i].saved.offer == Some(o)
    ensures trace[j].saved.offer.Some? ==> SameFile(trace[j].saved.offer.value, o)
    ensures trace[j].saved.ready.Some? ==> trace[j].saved.ready.value.sha256 == o.sha256
  {
    if i == j {
    } else {
      ReadyStays(d, trace, steps, i, j - 1, o);
      assert Linked(d, trace, steps, j - 1);
      ReadyStep(d, trace[j - 1], steps[j - 1], trace[j], o);
    }
  }

  function Earlier(a: nat, b: nat): nat {
    if a < b then a else b
  }

  function Later(a: nat, b: nat): nat {
    if a < b then b else a
  }

  // If no index that offers another file was accepted between the surviving save and the surviving
  // promotion, whichever came first, integrity survives.
  lemma OnlyRepublishingBreaksIt(d: Digests, trace: seq<Snap>, steps: seq<Step>, i: nat, left: Snap)
    requires Chain(d, trace, steps) && Fresh(trace[0]) && Scattered(trace, i, left)
    requires forall p: nat :: LeftBy(d, trace, steps, p, left) ==> NoOtherFile(trace, steps, Earlier(i, p), Later(i, p))
    ensures Integrity(d, left)
  {
    forall p: nat | LeftBy(d, trace, steps, p, left)
      ensures trace[p].saved.offer.value.sha256 == left.saved.ready.value.sha256
      ensures left.saved.offer.Some? ==> left.saved.offer.value.bundle == left.saved.ready.value.bundle
    {
      IntegrityThroughout(d, trace, steps, i);
      IntegrityThroughout(d, trace, steps, p);
      if i <= p {
        OfferStays(d, trace, steps, i, p);
      } else {
        ReadyStays(d, trace, steps, p, i, trace[p].saved.offer.value);
      }
    }
    ScatteredCutIff(d, trace, steps, i, left);
  }

  // And it does break it: a bundle republished with other bytes, its rename survives and no save after
  // the one that had the old bytes ready.
  lemma RepublishedBytesUnderOldReady(d: Digests, trace: seq<Snap>, steps: seq<Step>, i: nat, p: nat, left: Snap)
    requires Chain(d, trace, steps) && i <= p < |steps| && left.saved.ready.Some?
    requires Promotes(trace, steps, p, left.saved.ready.value.bundle)
    requires left == trace[i].(files := trace[p + 1].files)
    requires trace[p].saved.offer.value.sha256 != trace[i].saved.ready.value.sha256
    ensures !Integrity(d, left)
  {
    assert Linked(d, trace, steps, p);
  }
}
