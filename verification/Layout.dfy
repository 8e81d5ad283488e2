// The partition-layout generator: GPT numbering as a fold over implicit and explicit ids, and the
// insertion of SWAP and DATA that must not move any number.
module Layout {
  import opened Basics

  const TABLE_TYPES := {"GP1", "protective_master_boot_record", "primary_gpt", "GPT", "secondary_gpt"}

  datatype Partition = Partition(name: string, kind: string, id: Option<int>, alloc: int, filename: Option<string>)

  // A child of the <device> element: a partition, or anything else.
  datatype Child = Part(partition: Partition) | Other

  type Numbers = map<string, int>

  // alloc & 0x800
  predicate FillsToEnd(alloc: int) {
    (alloc / 0x800) % 2 == 1
  }

  function NewPartition(name: string, number: int, alloc: int, filename: Option<string>): Partition {
    Partition(name, "data", Some(number), alloc, filename)
  }

  // --- gpt_numbers ---

  datatype Count = Count(numbers: Numbers, next: int)

  function CountOne(c: Count, p: Partition): Result<Count> {
    if p.kind in TABLE_TYPES then Success(c)
    else
      var num := match p.id case Some(i) => i case None => c.next;
      if num in c.numbers.Values then Failure("partition number used twice")
      else Success(Count(c.numbers[p.name := num], num + 1))
  }

  function CountAll(parts: seq<Partition>): Result<Count> {
    if parts == [] then Success(Count(map[], 1))
    else
      match CountAll(parts[..|parts| - 1])
      case Failure(why) => Failure(why)
      case Success(c) => CountOne(c, parts[|parts| - 1])
  }

  method GptNumbers(partitions: seq<Partition>) returns (r: Result<Numbers>)
    ensures match CountAll(partitions)
            case Success(c) => r == Success(c.numbers)
            case Failure(why) => r == Failure(why)
  {
    var numbers: Numbers, nextpart := map[], 1;
    for i := 0 to |partitions|
      invariant CountAll(partitions[..i]) == Success(Count(numbers, nextpart))
    {
      var p := partitions[i];
      assert partitions[..i + 1][..i] == partitions[..i];
      if p.kind !in TABLE_TYPES {
        var num := match p.id case Some(id) => id case None => nextpart;
        if num in numbers.Values {
          CountFailsOnward(partitions, i + 1);
          return Failure("partition number used twice");
        }
        numbers := numbers[p.name := num];
        nextpart := num + 1;
      }
    }
    assert partitions[..|partitions|] == partitions;
    r := Success(numbers);
  }

  lemma {:induction false} CountFailsOnward(parts: seq<Partition>, n: nat)
    requires n <= |parts| && CountAll(parts[..n]).Failure?
    ensures CountAll(parts) == CountAll(parts[..n])
    decreases |parts| - n
  {
    if n == |parts| {
      assert parts[..n] == parts;
    } else {
      assert parts[..n + 1][..n] == parts[..n];
      CountFailsOnward(parts, n + 1);
    }
  }

  // --- the reference: the number of each position, as the flash helper assigns them ---

  function NextAfter(parts: seq<Partition>): int {
    if parts == [] then 1
    else
      var p, front := parts[|parts| - 1], parts[..|parts| - 1];
      if p.kind in TABLE_TYPES then NextAfter(front)
      else (match p.id case Some(id) => id case None => NextAfter(front)) + 1
  }

  // The explicit id, or one more than the partition before.
  function NumberAt(parts: seq<Partition>, i: nat): int
    requires i < |parts|
  {
    match parts[i].id case Some(id) => id case None => NextAfter(parts[..i])
  }

  predicate HasNumber(parts: seq<Partition>, i: int) {
    0 <= i < |parts| && parts[i].kind !in TABLE_TYPES
  }

  ghost predicate DistinctNames(parts: seq<Partition>) {
    forall i, j :: HasNumber(parts, i) && HasNumber(parts, j) && i != j ==> parts[i].name != parts[j].name
  }

  ghost predicate DistinctNumbers(parts: seq<Partition>) {
    forall i, j :: HasNumber(parts, i) && HasNumber(parts, j) && i != j ==> NumberAt(parts, i) != NumberAt(parts, j)
  }

  ghost predicate Agrees(parts: seq<Partition>, numbers: Numbers) {
    && (forall i :: HasNumber(parts, i) ==> parts[i].name in numbers && numbers[parts[i].name] == NumberAt(parts, i))
    && (forall n :: n in numbers ==> exists i :: HasNumber(parts, i) && parts[i].name == n)
  }

  lemma PrefixKeepsNumbers(parts: seq<Partition>, n: nat)
    requires n <= |parts|
    ensures forall i :: 0 <= i < n ==> NumberAt(parts[..n], i) == NumberAt(parts, i)
    ensures forall i :: 0 <= i < n ==> (HasNumber(parts[..n], i) <==> HasNumber(parts, i))
  {
    forall i | 0 <= i < n ensures NumberAt(parts[..n], i) == NumberAt(parts, i) {
      assert parts[..n][..i] == parts[..i];
    }
  }

  // A later partition of the same name, before k, has taken i's place in the map.
  ghost predicate Hidden(parts: seq<Partition>, i: int, k: int) {
    exists j :: i < j < k && HasNumber(parts, j) && 0 <= i < |parts| && parts[j].name == parts[i].name
  }

  // No number is used again while the partition that used it is still in the map.
  ghost predicate NoneSeenTwice(parts: seq<Partition>) {
    forall i, k :: HasNumber(parts, i) && HasNumber(parts, k) && i < k && NumberAt(parts, i) == NumberAt(parts, k) ==>
      Hidden(parts, i, k)
  }

  // The map holds the last partition of each name.
  ghost predicate HoldsLast(parts: seq<Partition>, numbers: Numbers) {
    && (forall i :: HasNumber(parts, i) && !Hidden(parts, i, |parts|) ==>
          parts[i].name in numbers && numbers[parts[i].name] == NumberAt(parts, i))
    && (forall n :: n in numbers ==>
          exists i :: HasNumber(parts, i) && parts[i].name == n && !Hidden(parts, i, |parts|))
  }

  lemma PrefixHides(parts: seq<Partition>, n: nat, i: int, k: int)
    requires n <= |parts| && 0 <= i < n && k <= n
    ensures Hidden(parts[..n], i, k) <==> Hidden(parts, i, k)
  {
    PrefixKeepsNumbers(parts, n);
    if Hidden(parts, i, k) {
      var j :| i < j < k && HasNumber(parts, j) && parts[j].name == parts[i].name;
      assert HasNumber(parts[..n], j);
    }
    if Hidden(parts[..n], i, k) {
      var j :| i < j < k && HasNumber(parts[..n], j) && parts[..n][j].name == parts[..n][i].name;
      assert HasNumber(parts, j);
    }
  }

  lemma LastHides(parts: seq<Partition>, i: int)
    requires parts != [] && 0 <= i < |parts| - 1
    ensures Hidden(parts, i, |parts|) <==>
              Hidden(parts[..|parts| - 1], i, |parts| - 1)
              || (HasNumber(parts, |parts| - 1) && parts[|parts| - 1].name == parts[i].name)
  {
    PrefixHides(parts, |parts| - 1, i, |parts| - 1);
  }

  // The numbering is accepted exactly when that is so, for every template: a number used twice is missed
  // if and only if a partition of the first one's name lies between, with or without repeated names.
  lemma {:induction false} NumberingAcceptsIff(parts: seq<Partition>)
    ensures CountAll(parts).Success? <==> NoneSeenTwice(parts)
    ensures CountAll(parts).Success? ==>
              CountAll(parts).value.next == NextAfter(parts) && HoldsLast(parts, CountAll(parts).value.numbers)
  {
    if parts == [] {
    } else {
      var front := parts[..|parts| - 1];
      NumberingAcceptsIff(front);
      SeenTwiceBefore(parts);
      if CountAll(front).Success? {
        OneMore(parts, CountAll(front).value);
      }
    }
  }

  lemma SeenTwiceBefore(parts: seq<Partition>)
    requires parts != []
    ensures NoneSeenTwice(parts) ==> NoneSeenTwice(parts[..|parts| - 1])
  {
    var n := |parts| - 1;
    var front := parts[..n];
    PrefixKeepsNumbers(parts, n);
    if NoneSeenTwice(parts) {
      forall i, k | HasNumber(front, i) && HasNumber(front, k) && i < k && NumberAt(front, i) == NumberAt(front, k)
        ensures Hidden(front, i, k)
      {
        assert HasNumber(parts, i) && HasNumber(parts, k);
        PrefixHides(parts, n, i, k);
      }
    }
  }

  lemma OneMore(parts: seq<Partition>, c: Count)
    requires parts != []
    requires var front := parts[..|parts| - 1];
             HoldsLast(front, c.numbers) && c.next == NextAfter(front) && NoneSeenTwice(front)
    ensures var r := CountOne(c, parts[|parts| - 1]);
            && (r.Success? <==> NoneSeenTwice(parts))
            && (r.Success? ==> r.value.next == NextAfter(parts) && HoldsLast(parts, r.value.numbers))
  {
    var n := |parts| - 1;
    var p, front := parts[n], parts[..n];
    PrefixKeepsNumbers(parts, n);
    if p.kind in TABLE_TYPES {
      TableHidesNothing(parts, c.numbers);
    } else if NumberAt(parts, n) in c.numbers.Values {
      var name :| name in c.numbers && c.numbers[name] == NumberAt(parts, n);
      var i :| HasNumber(front, i) && front[i].name == name && !Hidden(front, i, n);
      PrefixHides(parts, n, i, n);
      assert HasNumber(parts, i) && HasNumber(parts, n);
    } else {
      NewNumber(parts, c.numbers);
    }
  }

  lemma TableHidesNothing(parts: seq<Partition>, numbers: Numbers)
    requires parts != [] && parts[|parts| - 1].kind in TABLE_TYPES
    requires HoldsLast(parts[..|parts| - 1], numbers) && NoneSeenTwice(parts[..|parts| - 1])
    ensures NoneSeenTwice(parts) && HoldsLast(parts, numbers)
  {
    var n := |parts| - 1;
    var front := parts[..n];
    PrefixKeepsNumbers(parts, n);
    forall i, k | HasNumber(parts, i) && HasNumber(parts, k) && i < k && NumberAt(parts, i) == NumberAt(parts, k)
      ensures Hidden(parts, i, k)
    {
      assert HasNumber(front, i) && HasNumber(front, k);
      PrefixHides(parts, n, i, k);
    }
    forall i | HasNumber(parts, i) ensures HasNumber(front, i) && (Hidden(parts, i, n + 1) <==> Hidden(front, i, n)) {
      LastHides(parts, i);
    }
    forall name | name in numbers
      ensures exists i :: HasNumber(parts, i) && parts[i].name == name && !Hidden(parts, i, |parts|)
    {
      var i :| HasNumber(front, i) && front[i].name == name && !Hidden(front, i, n);
      assert HasNumber(parts, i);
    }
  }

  lemma HeldIsUsed(parts: seq<Partition>, numbers: Numbers, i: int)
    requires HoldsLast(parts, numbers) && HasNumber(parts, i)
    ensures !Hidden(parts, i, |parts|) ==> NumberAt(parts, i) in numbers.Values
  {
    if !Hidden(parts, i, |parts|) {
      assert numbers[parts[i].name] in numbers.Values;
    }
  }

  lemma NewNumber(parts: seq<Partition>, numbers: Numbers)
    requires parts != [] && HasNumber(parts, |parts| - 1) && NumberAt(parts, |parts| - 1) !in numbers.Values
    requires HoldsLast(parts[..|parts| - 1], numbers) && NoneSeenTwice(parts[..|parts| - 1])
    ensures NoneSeenTwice(parts)
    ensures HoldsLast(parts, numbers[parts[|parts| - 1].name := NumberAt(parts, |parts| - 1)])
  {
    var n := |parts| - 1;
    var front := parts[..n];
    PrefixKeepsNumbers(parts, n);
    forall i, k | HasNumber(parts, i) && HasNumber(parts, k) && i < k && NumberAt(parts, i) == NumberAt(parts, k)
      ensures Hidden(parts, i, k)
    {
      assert HasNumber(front, i);
      PrefixHides(parts, n, i, k);
      if k < n {
        assert HasNumber(front, k);
      } else {
        HeldIsUsed(front, numbers, i);
      }
    }
    NewestIsHeld(parts, numbers, NumberAt(parts, n));
  }

  lemma NewestIsHeld(parts: seq<Partition>, numbers: Numbers, num: int)
    requires parts != [] && HasNumber(parts, |parts| - 1) && num == NumberAt(parts, |parts| - 1)
    requires HoldsLast(parts[..|parts| - 1], numbers)
    ensures HoldsLast(parts, numbers[parts[|parts| - 1].name := num])
  {
    var n := |parts| - 1;
    var p, front := parts[n], parts[..n];
    PrefixKeepsNumbers(parts, n);
    var after := numbers[p.name := num];
    forall i | HasNumber(parts, i) && !Hidden(parts, i, n + 1)
      ensures parts[i].name in after && after[parts[i].name] == NumberAt(parts, i)
    {
      if i < n {
        LastHides(parts, i);
        assert HasNumber(front, i);
      }
    }
    forall name | name in after
      ensures exists i :: HasNumber(parts, i) && parts[i].name == name && !Hidden(parts, i, n + 1)
    {
      if name == p.name {
        assert !Hidden(parts, n, n + 1);
      } else {
        var i :| HasNumber(front, i) && front[i].name == name && !Hidden(front, i, n);
        LastHides(parts, i);
        assert HasNumber(parts, i);
      }
    }
  }

  // With distinct names nothing is hidden: no two positions share a number, and the map is the reference's.
  lemma NumberingIsPositional(parts: seq<Partition>)
    requires DistinctNames(parts)
    ensures CountAll(parts).Success? <==> DistinctNumbers(parts)
    ensures CountAll(parts).Success? ==>
              CountAll(parts).value.next == NextAfter(parts) && Agrees(parts, CountAll(parts).value.numbers)
  {
    NumberingAcceptsIff(parts);
    forall i, k | HasNumber(parts, i) ensures !Hidden(parts, i, k) { }
    if NoneSeenTwice(parts) {
      forall i, j | HasNumber(parts, i) && HasNumber(parts, j) && i != j
        ensures NumberAt(parts, i) != NumberAt(parts, j)
      {
        assert !Hidden(parts, i, j) && !Hidden(parts, j, i);
      }
    }
  }

  // For instance: the second X hides the first, whose number Y then takes.
  lemma RepeatedNameHidesACollision()
    ensures var parts := [Partition("X", "data", Some(1), 8, None), Partition("X", "data", Some(2), 8, None),
                          Partition("Y", "data", Some(1), 8, None)];
            CountAll(parts).Success? && NumberAt(parts, 0) == NumberAt(parts, 2)
  {
    var parts := [Partition("X", "data", Some(1), 8, None), Partition("X", "data", Some(2), 8, None),
                  Partition("Y", "data", Some(1), 8, None)];
    NumberingAcceptsIff(parts);
    assert HasNumber(parts, 1);
    assert Hidden(parts, 0, 2);
  }

  // --- main ---

  predicate HasName(parts: seq<Partition>, name: string) {
    exists i :: 0 <= i < |parts| && parts[i].name == name
  }

  ghost predicate SameButFilenames(a: seq<Partition>, b: seq<Partition>) {
    |a| == |b| && forall i :: 0 <= i < |a| ==> a[i].(filename := None) == b[i].(filename := None)
  }

  // The last partition of that name, without its filename.
  function DropFilename(parts: seq<Partition>, name: string): (r: seq<Partition>)
    ensures SameButFilenames(r, parts)
  {
    if parts == [] then []
    else
      var n := |parts| - 1;
      if parts[n].name == name then parts[..n] + [parts[n].(filename := None)]
      else DropFilename(parts[..n], name) + [parts[n]]
  }

  const REQUIRED := {"APP", "APP_b", "esp", "SWAP", "DATA"}

  // The shape main insists on before it changes anything.
  predicate Acceptable(parts: seq<Partition>, want: Numbers) {
    && REQUIRED <= want.Keys
    && HasName(parts, "APP") && HasName(parts, "APP_b") && HasName(parts, "esp")
    && !HasName(parts, "SWAP") && !HasName(parts, "DATA")
    && parts[|parts| - 1].kind == "secondary_gpt"
    && (forall i :: 0 <= i < |parts| ==> !FillsToEnd(parts[i].alloc))
  }

  function WithSwapAndData(parts: seq<Partition>, want: Numbers): seq<Partition>
    requires parts != [] && REQUIRED <= want.Keys
  {
    var n := |parts| - 1;
    parts[..n] + [NewPartition("SWAP", want["SWAP"], 8, None),
                  NewPartition("DATA", want["DATA"], 0x808, Some("DATAFILE"))]
    + [parts[n]]
  }

  predicate Pins(numbers: Numbers, want: Numbers) {
    forall name :: name in want ==> name in numbers && numbers[name] == want[name]
  }

  // The checks and the insertion once the shape is right.
  function Completed(base: seq<Partition>, want: Numbers): Option<seq<Partition>>
    requires base != [] && REQUIRED <= want.Keys
  {
    var out := WithSwapAndData(base, want);
    if CountAll(base).Failure?
       || want["SWAP"] in CountAll(base).value.numbers.Values
       || want["DATA"] in CountAll(base).value.numbers.Values
       || CountAll(out).Failure?
       || !Pins(CountAll(out).value.numbers, want)
    then None else Some(out)
  }

  // What main writes, or that it stops.
  function Generated(parts: seq<Partition>, want: Numbers): Option<seq<Partition>> {
    if Acceptable(parts, want) then Completed(DropFilename(parts, "APP_b"), want) else None
  }

  // Numbers depend only on kinds and ids.
  lemma {:induction false} SameIdsSameNumbers(a: seq<Partition>, b: seq<Partition>)
    requires SameButFilenames(a, b)
    ensures NextAfter(a) == NextAfter(b)
    ensures forall i :: 0 <= i < |a| ==> NumberAt(a, i) == NumberAt(b, i)
  {
    if a == [] {
    } else {
      var n := |a| - 1;
      assert a[n].(filename := None) == b[n].(filename := None);
      SameIdsSameNumbers(a[..n], b[..n]);
      PrefixKeepsNumbers(a, n);
      PrefixKeepsNumbers(b, n);
      assert a[n].id == b[n].id;
    }
  }

  // The layout keeps every address: for an accepted template with distinct names, each existing
  // partition keeps its number, all numbers differ, every pinned name sits at its number, and DATA is
  // the only partition that fills the disk.
  lemma LayoutKeepsAddresses(parts: seq<Partition>, want: Numbers)
    requires DistinctNames(parts) && Generated(parts, want).Some?
    ensures var out := Generated(parts, want).value;
            && |out| == |parts| + 2
            && (forall i :: 0 <= i < |parts| - 1 ==> NumberAt(out, i) == NumberAt(parts, i))
            && DistinctNumbers(out)
            && (forall name :: name in want ==>
                  exists i :: HasNumber(out, i) && out[i].name == name && NumberAt(out, i) == want[name])
            && (forall i :: 0 <= i < |out| ==> (FillsToEnd(out[i].alloc) <==> i == |parts|))
            && out[|parts|].name == "DATA"
  {
    var base := DropFilename(parts, "APP_b");
    OnlyDataFills(parts, base, want);
    NumbersStay(parts, base, want);
    OutputNamesDistinct(parts, base, want);
    PinnedNumbers(WithSwapAndData(base, want), want);
  }

  lemma NumbersStay(parts: seq<Partition>, base: seq<Partition>, want: Numbers)
    requires SameButFilenames(base, parts) && parts != [] && REQUIRED <= want.Keys
    ensures forall i :: 0 <= i < |parts| - 1 ==> NumberAt(WithSwapAndData(base, want), i) == NumberAt(parts, i)
  {
    var out := WithSwapAndData(base, want);
    var n := |parts| - 1;
    SameIdsSameNumbers(base, parts);
    assert out[..n] == base[..n];
    PrefixKeepsNumbers(out, n);
    PrefixKeepsNumbers(base, n);
  }

  lemma OnlyDataFills(parts: seq<Partition>, base: seq<Partition>, want: Numbers)
    requires SameButFilenames(base, parts) && Acceptable(parts, want)
    ensures var out := WithSwapAndData(base, want);
            && |out| == |parts| + 2 && out[|parts|].name == "DATA"
            && forall i :: 0 <= i < |out| ==> (FillsToEnd(out[i].alloc) <==> i == |parts|)
  {
    var out := WithSwapAndData(base, want);
    var n := |parts| - 1;
    forall i | 0 <= i < |parts| ensures !FillsToEnd(base[i].alloc) {
      assert base[i].(filename := None) == parts[i].(filename := None);
      assert base[i].alloc == parts[i].alloc;
    }
    assert !FillsToEnd(8) && FillsToEnd(0x808);
    assert forall i :: 0 <= i < n ==> out[i] == base[i];
    assert out[n].alloc == 8 && out[n + 1].alloc == 0x808 && out[n + 2] == base[n];
  }

  lemma PinnedNumbers(out: seq<Partition>, want: Numbers)
    requires DistinctNames(out) && CountAll(out).Success?
    requires Pins(CountAll(out).value.numbers, want)
    ensures DistinctNumbers(out)
    ensures forall name :: name in want ==>
              exists i :: HasNumber(out, i) && out[i].name == name && NumberAt(out, i) == want[name]
  {
    NumberingIsPositional(out);
    var final := CountAll(out).value.numbers;
    forall name | name in want
      ensures exists i :: HasNumber(out, i) && out[i].name == name && NumberAt(out, i) == want[name]
    {
      var i :| HasNumber(out, i) && out[i].name == name;
      assert final[out[i].name] == NumberAt(out, i);
    }
  }

  lemma OutputNamesDistinct(parts: seq<Partition>, base: seq<Partition>, want: Numbers)
    requires DistinctNames(parts) && Acceptable(parts, want) && SameButFilenames(base, parts)
    ensures DistinctNames(WithSwapAndData(base, want))
  {
    forall i | 0 <= i < |parts| ensures base[i].name == parts[i].name && base[i].kind == parts[i].kind {
      assert base[i].(filename := None) == parts[i].(filename := None);
    }
    var out := WithSwapAndData(base, want);
    var n := |parts| - 1;
    assert forall i :: 0 <= i < |parts| ==> parts[i].name != "SWAP" && parts[i].name != "DATA";
    forall i, j | HasNumber(out, i) && HasNumber(out, j) && i < j ensures out[i].name != out[j].name {
      assert out[n + 2].kind in TABLE_TYPES;
      assert i < n ==> out[i] == base[i] && HasNumber(parts, i);
      assert j < n ==> out[j] == base[j] && HasNumber(parts, j);
    }
  }

  // --- the device tree, changed in place ---

  function PartitionOf(child: Child): seq<Partition> {
    match child case Part(p) => [p] case Other => []
  }

  // device.findall("partition")
  function Partitions(children: seq<Child>): seq<Partition> {
    if children == [] then [] else PartitionOf(children[0]) + Partitions(children[1..])
  }

  lemma {:induction false} PartitionsConcat(a: seq<Child>, b: seq<Child>)
    ensures Partitions(a + b) == Partitions(a) + Partitions(b)
  {
    if a == [] {
      assert a + b == b;
    } else {
      var ab, rest := a + b, a[1..];
      assert ab[0] == a[0] && ab[1..] == rest + b;
      calc {
        Partitions(ab);
        PartitionOf(a[0]) + Partitions(rest + b);
        { PartitionsConcat(rest, b); }
        PartitionOf(a[0]) + (Partitions(rest) + Partitions(b));
        { Associative(PartitionOf(a[0]), Partitions(rest), Partitions(b)); }
        Partitions(a) + Partitions(b);
      }
    }
  }

  lemma Associative<T>(a: seq<T>, b: seq<T>, c: seq<T>)
    ensures a + (b + c) == (a + b) + c
  {
  }

  lemma PartitionsSnoc(front: seq<Child>, last: Child)
    ensures Partitions(front + [last]) == Partitions(front) + PartitionOf(last)
  {
    PartitionsConcat(front, [last]);
    assert [last][1..] == [];
    assert Partitions([last]) == PartitionOf(last);
  }

  // The child index of the last partition.
  function LastPartition(children: seq<Child>): (k: nat)
    requires exists k :: 0 <= k < |children| && children[k].Part?
    ensures k < |children| && children[k].Part?
    ensures forall j :: k < j < |children| ==> children[j].Other?
  {
    var n := |children| - 1;
    if children[n].Part? then n else LastPartition(children[..n])
  }

  lemma {:induction false} NoPartitions(children: seq<Child>)
    requires forall j :: 0 <= j < |children| ==> children[j].Other?
    ensures Partitions(children) == []
  {
    if children == [] {
    } else {
      NoPartitions(children[1..]);
    }
  }

  lemma LastPartitionSplits(children: seq<Child>, k: nat)
    requires k < |children| && children[k].Part? && forall j :: k < j < |children| ==> children[j].Other?
    ensures var parts := Partitions(children);
            && parts != []
            && Partitions(children[..k]) == parts[..|parts| - 1]
            && Partitions(children[k..]) == [parts[|parts| - 1]]
  {
    var front, back := children[..k], children[k..];
    NoPartitions(children[k + 1..]);
    assert back[0] == children[k] && back[1..] == children[k + 1..];
    assert Partitions(back) == [children[k].partition];
    assert children == front + back;
    PartitionsConcat(front, back);
  }

  lemma {:induction false} SomePartition(children: seq<Child>)
    requires Partitions(children) != []
    ensures exists k :: 0 <= k < |children| && children[k].Part?
  {
    if forall j :: 0 <= j < |children| ==> children[j].Other? {
      NoPartitions(children);
    }
  }

  function Inserted(children: seq<Child>, index: nat, swap: Partition, data: Partition): seq<Child>
    requires index <= |children|
  {
    children[..index] + [Part(swap), Part(data)] + children[index..]
  }

  lemma TwoPartitions(a: Partition, b: Partition)
    ensures Partitions([Part(a), Part(b)]) == [a, b]
  {
    var two := [Part(a), Part(b)];
    assert two[0] == Part(a) && two[1..] == [Part(b)] && [Part(b)][1..] == [];
    assert Partitions([Part(b)]) == [b];
  }

  lemma ThreeParts(a: seq<Child>, b: seq<Child>, c: seq<Child>)
    ensures Partitions(a + b + c) == Partitions(a) + Partitions(b) + Partitions(c)
  {
    PartitionsConcat(a + b, c);
    PartitionsConcat(a, b);
  }

  lemma InsertedPartitions(children: seq<Child>, swap: Partition, data: Partition)
    requires Partitions(children) != []
    ensures exists k :: 0 <= k < |children| && children[k].Part?
    ensures var parts := Partitions(children);
            Partitions(Inserted(children, LastPartition(children), swap, data))
            == parts[..|parts| - 1] + [swap, data] + [parts[|parts| - 1]]
  {
    SomePartition(children);
    var k := LastPartition(children);
    LastPartitionSplits(children, k);
    TwoPartitions(swap, data);
    ThreeParts(children[..k], [Part(swap), Part(data)], children[k..]);
  }

  // The last partition of that name loses its filename; everything else stays.
  function DropChildFilename(children: seq<Child>, name: string): (r: seq<Child>)
    ensures |r| == |children|
    ensures forall k :: 0 <= k < |r| ==> (r[k].Part? <==> children[k].Part?)
  {
    if children == [] then []
    else
      var front, last := children[..|children| - 1], children[|children| - 1];
      if last.Part? && last.partition.name == name then front + [Part(last.partition.(filename := None))]
      else DropChildFilename(front, name) + [last]
  }

  lemma {:induction false} DropsThePartitionsFilename(children: seq<Child>, name: string)
    ensures Partitions(DropChildFilename(children, name)) == DropFilename(Partitions(children), name)
  {
    if children == [] {
    } else {
      var front, last := children[..|children| - 1], children[|children| - 1];
      assert children == front + [last];
      PartitionsSnoc(front, last);
      DropsThePartitionsFilename(front, name);
      var parts := Partitions(children);
      match last {
        case Part(p) =>
          assert parts == Partitions(front) + [p];
          assert parts[..|parts| - 1] == Partitions(front);
          PartitionsSnoc(front, Part(p.(filename := None)));
          PartitionsSnoc(DropChildFilename(front, name), last);
        case Other =>
          assert parts == Partitions(front);
          PartitionsSnoc(DropChildFilename(front, name), last);
      }
    }
  }

  // The <device> element, whose children main removes from and inserts into.
  class Device {
    var children: seq<Child>

    constructor (children: seq<Child>)
      ensures this.children == children
    {
      this.children := children;
    }

    method Insert(index: nat, p: Partition)
      requires index <= |children|
      modifies this
      ensures children == old(children[..index]) + [Part(p)] + old(children[index..])
    {
      children := children[..index] + [Part(p)] + children[index..];
    }

    method RemoveFilename(name: string)
      modifies this
      ensures Partitions(children) == DropFilename(old(Partitions(children)), name)
      ensures |children| == |old(children)|
      ensures forall k :: 0 <= k < |children| ==> (children[k].Part? <==> old(children)[k].Part?)
    {
      DropsThePartitionsFilename(children, name);
      children := DropChildFilename(children, name);
    }

    // Both new partitions go in front of the last one; the other children keep their order.
    method InsertBeforeLast(swap: Partition, data: Partition)
      requires exists k :: 0 <= k < |children| && children[k].Part?
      modifies this
      ensures children == Inserted(old(children), LastPartition(old(children)), swap, data)
    {
      var index := LastPartition(children);
      Insert(index, swap);
      Insert(index + 1, data);
    }
  }

  // main, from the parsed template to the tree it writes.
  method Generate(device: Device, want: Numbers) returns (r: Result<Numbers>)
    modifies device
    ensures r.Success? <==> Generated(old(Partitions(device.children)), want).Some?
    ensures r.Success? ==> Partitions(device.children) == Generated(old(Partitions(device.children)), want).value
    ensures r.Success? ==> r.value == CountAll(Partitions(device.children)).value.numbers
  {
    var parts := Partitions(device.children);
    if !Acceptable(parts, want) {
      return Failure("not the template this expects");
    }
    device.RemoveFilename("APP_b");
    r := Complete(device, want);
  }

  method Complete(device: Device, want: Numbers) returns (r: Result<Numbers>)
    requires Partitions(device.children) != [] && REQUIRED <= want.Keys
    modifies device
    ensures r.Success? <==> Completed(old(Partitions(device.children)), want).Some?
    ensures r.Success? ==> Partitions(device.children) == Completed(old(Partitions(device.children)), want).value
    ensures r.Success? ==> r.value == CountAll(Partitions(device.children)).value.numbers
  {
    var used := GptNumbers(Partitions(device.children));
    if used.Failure? {
      return used;
    }
    if want["SWAP"] in used.value.Values || want["DATA"] in used.value.Values {
      return Failure("the number is already taken");
    }
    InsertedPartitions(device.children, NewPartition("SWAP", want["SWAP"], 8, None),
                       NewPartition("DATA", want["DATA"], 0x808, Some("DATAFILE")));
    device.InsertBeforeLast(NewPartition("SWAP", want["SWAP"], 8, None),
                            NewPartition("DATA", want["DATA"], 0x808, Some("DATAFILE")));
    var final := GptNumbers(Partitions(device.children));
    if final.Failure? {
      return final;
    }
    if !Pins(final.value, want) {
      return Failure("a pinned partition would move");
    }
    r := final;
  }
}
