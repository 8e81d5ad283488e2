// What a power cut leaves of a directory: names bound to inodes, directory changes not yet on disk, and
// contents not yet synced - and the update client's durable writes on it.
module Durability {
  import opened Basics
  import opened Trial

  // What a power cut may do to an inode's content: nothing, take it back to before one of the appends since
  // the last sync, or anything.
  datatype Fate<C> = Synced | Appended(befores: seq<C>) | Torn

  datatype Node<C> = Node(now: C, fate: Fate<C>)

  datatype DirOp = Bind(name: string, ino: nat) | Move(src: string, dst: string, ino: nat) | Unbind(name: string)

  // ext4 writes directory entries at an fsync of the directory, vfat at an fsync of the file itself.
  datatype Kind = Ext4 | Vfat

  datatype Fs<C> = Fs(kind: Kind, dir: map<string, nat>, disk: map<string, nat>, pending: seq<DirOp>,
                      nodes: map<nat, Node<C>>, next: nat)

  function Apply(dir: map<string, nat>, op: DirOp): map<string, nat> {
    match op
    case Bind(name, ino) => dir[name := ino]
    case Move(src, dst, ino) => (dir - {src})[dst := ino]
    case Unbind(name) => dir - {name}
  }

  // The operations that survive, in their order.
  function Survive(disk: map<string, nat>, pending: seq<DirOp>, keep: seq<bool>): map<string, nat>
    requires |pending| == |keep|
  {
    if pending == [] then disk
    else
      var n := |pending| - 1;
      var front := Survive(disk, pending[..n], keep[..n]);
      if keep[n] then Apply(front, pending[n]) else front
  }

  function Lookup(dir: map<string, nat>, name: string): Option<nat> {
    if name in dir then Some(dir[name]) else None
  }

  predicate Affects(op: DirOp, name: string) {
    match op
    case Bind(n, _) => n == name
    case Move(src, dst, _) => src == name || dst == name
    case Unbind(n) => n == name
  }

  function Effect(op: DirOp, name: string): Option<nat>
    requires Affects(op, name)
  {
    match op
    case Bind(_, ino) => Some(ino)
    case Move(_, dst, ino) => if dst == name then Some(ino) else None
    case Unbind(_) => None
  }

  // After a power cut the name may be bound to `who`.
  ghost predicate CanBe<C>(fs: Fs<C>, name: string, who: Option<nat>) {
    || Lookup(fs.disk, name) == who
    || exists k :: 0 <= k < |fs.pending| && Affects(fs.pending[k], name) && Effect(fs.pending[k], name) == who
  }

  // A power cut: any subset of the pending directory operations survives, and every inode that was not
  // synced meets its fate. What is left is what is on disk.
  ghost predicate AfterPowerCut<C>(fs: Fs<C>, left: Fs<C>) {
    && left.kind == fs.kind && left.next == fs.next && left.pending == [] && left.disk == left.dir
    && (exists keep: seq<bool> :: |keep| == |fs.pending| && left.dir == Survive(fs.disk, fs.pending, keep))
    && left.nodes.Keys == fs.nodes.Keys
    && forall i :: i in fs.nodes ==> left.nodes[i].fate.Synced? && Fated(fs.nodes[i], left.nodes[i].now)
  }

  ghost predicate Fated<C>(node: Node<C>, now: C) {
    match node.fate
    case Synced => now == node.now
    case Appended(befores) => now == node.now || now in befores
    case Torn => true
  }

  function Content<C>(fs: Fs<C>, name: string): Option<C> {
    if name in fs.dir && fs.dir[name] in fs.nodes then Some(fs.nodes[fs.dir[name]].now) else None
  }

  // Whatever a power cut leaves under the name is one of these, wholly.
  ghost predicate Safe<C(!new)>(fs: Fs<C>, name: string, allowed: set<Option<C>>) {
    forall who :: CanBe(fs, name, who) ==>
      match who
      case None => None in allowed
      case Some(i) => i in fs.nodes && forall now :: Fated(fs.nodes[i], now) ==> Some(now) in allowed
  }

  lemma {:induction false} SurvivorIsPossible(disk: map<string, nat>, pending: seq<DirOp>, keep: seq<bool>,
                                              name: string)
    requires |pending| == |keep|
    ensures var who := Lookup(Survive(disk, pending, keep), name);
            || who == Lookup(disk, name)
            || exists k :: 0 <= k < |pending| && Affects(pending[k], name) && Effect(pending[k], name) == who
  {
    if pending == [] {
    } else {
      var n := |pending| - 1;
      SurvivorIsPossible(disk, pending[..n], keep[..n], name);
      var front := Survive(disk, pending[..n], keep[..n]);
      if keep[n] && Affects(pending[n], name) {
        assert Lookup(Apply(front, pending[n]), name) == Effect(pending[n], name);
      } else {
        assert Lookup(Survive(disk, pending, keep), name) == Lookup(front, name);
      }
    }
  }

  lemma SafeMeansSafe<C(!new)>(fs: Fs<C>, left: Fs<C>, name: string, allowed: set<Option<C>>)
    requires Safe(fs, name, allowed) && AfterPowerCut(fs, left)
    ensures Content(left, name) in allowed
  {
    var keep: seq<bool> :| |keep| == |fs.pending| && left.dir == Survive(fs.disk, fs.pending, keep);
    SurvivorIsPossible(fs.disk, fs.pending, keep, name);
    assert CanBe(fs, name, Lookup(left.dir, name));
  }

  function Only(k: nat, n: nat): seq<bool> {
    seq(n, i => i == k)
  }

  lemma {:induction false} OneSurvives(disk: map<string, nat>, pending: seq<DirOp>, k: nat)
    ensures Survive(disk, pending, Only(k, |pending|)) == if k < |pending| then Apply(disk, pending[k]) else disk
  {
    if pending == [] {
    } else {
      var n := |pending| - 1;
      assert Only(k, |pending|)[..n] == Only(k, n);
      OneSurvives(disk, pending[..n], k);
    }
  }

  // Nothing in CanBe is too much: what a name can be bound to, it comes out bound to after some cut.
  lemma PossibleSurvives<C>(fs: Fs<C>, name: string, who: Option<nat>) returns (keep: seq<bool>)
    requires CanBe(fs, name, who)
    ensures |keep| == |fs.pending| && Lookup(Survive(fs.disk, fs.pending, keep), name) == who
  {
    var k := |fs.pending|;
    if Lookup(fs.disk, name) != who {
      k :| 0 <= k < |fs.pending| && Affects(fs.pending[k], name) && Effect(fs.pending[k], name) == who;
    }
    keep := Only(k, |fs.pending|);
    OneSurvives(fs.disk, fs.pending, k);
  }

  // What an inode can come out as, and all others as they are.
  function CutNodes<C>(nodes: map<nat, Node<C>>, ino: nat, now: C): map<nat, Node<C>> {
    map i | i in nodes :: Node(if i == ino then now else nodes[i].now, Synced)
  }

  lemma CutHappens<C>(fs: Fs<C>, keep: seq<bool>, ino: nat, now: C) returns (left: Fs<C>)
    requires |keep| == |fs.pending| && (ino in fs.nodes ==> Fated(fs.nodes[ino], now))
    ensures AfterPowerCut(fs, left) && left.dir == Survive(fs.disk, fs.pending, keep)
    ensures left.nodes == CutNodes(fs.nodes, ino, now)
  {
    var dir := Survive(fs.disk, fs.pending, keep);
    left := Fs(fs.kind, dir, dir, [], CutNodes(fs.nodes, ino, now), fs.next);
    assert left.nodes.Keys == fs.nodes.Keys;
  }

  lemma PossibleHappens<C>(fs: Fs<C>, name: string, ino: nat, now: C) returns (left: Fs<C>)
    requires CanBe(fs, name, Some(ino)) && ino in fs.nodes && Fated(fs.nodes[ino], now)
    ensures AfterPowerCut(fs, left) && Content(left, name) == Some(now)
  {
    var keep := PossibleSurvives(fs, name, Some(ino));
    left := CutHappens(fs, keep, ino, now);
  }

  // So Safe says exactly what the power cuts leave.
  lemma SafeIff<C(!new)>(fs: Fs<C>, name: string, allowed: set<Option<C>>)
    requires forall i :: CanBe(fs, name, Some(i)) ==> i in fs.nodes
    ensures Safe(fs, name, allowed) <==> forall left :: AfterPowerCut(fs, left) ==> Content(left, name) in allowed
  {
    if Safe(fs, name, allowed) {
      forall left | AfterPowerCut(fs, left) ensures Content(left, name) in allowed {
        SafeMeansSafe(fs, left, name, allowed);
      }
    } else {
      var left := UnsafeHappens(fs, name, allowed);
    }
  }

  lemma UnsafeHappens<C(!new)>(fs: Fs<C>, name: string, allowed: set<Option<C>>) returns (left: Fs<C>)
    requires !Safe(fs, name, allowed) && forall i :: CanBe(fs, name, Some(i)) ==> i in fs.nodes
    ensures AfterPowerCut(fs, left) && Content(left, name) !in allowed
  {
    if CanBe(fs, name, None) && None !in allowed {
      left := UnboundHappens(fs, name);
    } else {
      var i, now :| CanBe(fs, name, Some(i)) && i in fs.nodes && Fated(fs.nodes[i], now) && Some(now) !in allowed;
      left := PossibleHappens(fs, name, i, now);
    }
  }

  lemma UnboundHappens<C>(fs: Fs<C>, name: string) returns (left: Fs<C>)
    requires CanBe(fs, name, None)
    ensures AfterPowerCut(fs, left) && Content(left, name) == None
  {
    var keep := PossibleSurvives(fs, name, None);
    var dir := Survive(fs.disk, fs.pending, keep);
    left := Fs(fs.kind, dir, dir, [], map i | i in fs.nodes :: Node(fs.nodes[i].now, Synced), fs.next);
    assert left.nodes.Keys == fs.nodes.Keys;
  }

  // --- the operations ---

  // open(name, "w"): a file nothing else names. (An old temporary file truncated in place is as good.)
  function Create<C>(fs: Fs<C>, name: string, empty: C): Fs<C> {
    fs.(dir := fs.dir[name := fs.next], pending := fs.pending + [Bind(name, fs.next)],
        nodes := fs.nodes[fs.next := Node(empty, Torn)], next := fs.next + 1)
  }

  // A new file with nothing in it yet: its content has nothing to lose.
  function CreateEmpty<C>(fs: Fs<C>, name: string, empty: C): Fs<C> {
    var created := Create(fs, name, empty);
    created.(nodes := created.nodes[fs.next := Node(empty, Synced)])
  }

  function Write<C>(fs: Fs<C>, ino: nat, content: C): Fs<C> {
    fs.(nodes := fs.nodes[ino := Node(content, Torn)])
  }

  function AfterAppend<C>(node: Node<C>): Fate<C> {
    match node.fate
    case Synced => Appended([node.now])
    case Appended(befores) => Appended(befores + [node.now])
    case Torn => Torn
  }

  function Append<C>(fs: Fs<C>, ino: nat, content: C): Fs<C>
    requires ino in fs.nodes
  {
    fs.(nodes := fs.nodes[ino := Node(content, AfterAppend(fs.nodes[ino]))])
  }

  function Rename<C>(fs: Fs<C>, src: string, dst: string): Fs<C>
    requires src in fs.dir
  {
    var op := Move(src, dst, fs.dir[src]);
    fs.(dir := Apply(fs.dir, op), pending := fs.pending + [op])
  }

  function Unlink<C>(fs: Fs<C>, name: string): Fs<C> {
    fs.(dir := fs.dir - {name}, pending := fs.pending + [Unbind(name)])
  }

  predicate Concerns(op: DirOp, ino: nat) {
    !op.Unbind? && op.ino == ino
  }

  // The pending operations on an inode, and the rest, each in order.
  function Picked(pending: seq<DirOp>, ino: nat, mine: bool): seq<DirOp> {
    if pending == [] then []
    else
      var n := |pending| - 1;
      Picked(pending[..n], ino, mine) + (if Concerns(pending[n], ino) == mine then [pending[n]] else [])
  }

  function ApplyAll(disk: map<string, nat>, ops: seq<DirOp>): map<string, nat> {
    if ops == [] then disk else Apply(ApplyAll(disk, ops[..|ops| - 1]), ops[|ops| - 1])
  }

  function SyncFile<C>(fs: Fs<C>, ino: nat): Fs<C>
    requires ino in fs.nodes
  {
    var synced := fs.(nodes := fs.nodes[ino := fs.nodes[ino].(fate := Synced)]);
    if fs.kind == Ext4 then synced
    else synced.(disk := ApplyAll(fs.disk, Picked(fs.pending, ino, true)), pending := Picked(fs.pending, ino, false))
  }

  function SyncDir<C>(fs: Fs<C>): Fs<C> {
    if fs.kind == Vfat then fs else fs.(disk := ApplyAll(fs.disk, fs.pending), pending := [])
  }

  // --- what each operation keeps ---

  lemma {:induction false} AppliedIsPossible(disk: map<string, nat>, ops: seq<DirOp>, name: string)
    ensures var who := Lookup(ApplyAll(disk, ops), name);
            || who == Lookup(disk, name)
            || exists k :: 0 <= k < |ops| && Affects(ops[k], name) && Effect(ops[k], name) == who
  {
    if ops == [] {
    } else {
      var n := |ops| - 1;
      AppliedIsPossible(disk, ops[..n], name);
      var front := ApplyAll(disk, ops[..n]);
      if Affects(ops[n], name) {
        assert Lookup(Apply(front, ops[n]), name) == Effect(ops[n], name);
      }
    }
  }

  lemma {:induction false} PickedAreThere(pending: seq<DirOp>, ino: nat, mine: bool)
    ensures forall op :: op in Picked(pending, ino, mine) ==> op in pending && Concerns(op, ino) == mine
  {
    if pending == [] {
    } else {
      PickedAreThere(pending[..|pending| - 1], ino, mine);
      assert forall op :: op in pending[..|pending| - 1] ==> op in pending;
    }
  }

  lemma {:induction false} OthersAreNotPicked(pending: seq<DirOp>, ino: nat, op: DirOp)
    requires op in pending && !Concerns(op, ino)
    ensures op in Picked(pending, ino, false)
  {
    var n := |pending| - 1;
    if op == pending[n] {
    } else {
      assert op in pending[..n];
      OthersAreNotPicked(pending[..n], ino, op);
    }
  }

  lemma SyncsOnlyNarrow<C(!new)>(fs: Fs<C>, ino: nat, name: string, who: Option<nat>)
    requires ino in fs.nodes
    ensures CanBe(SyncFile(fs, ino), name, who) ==> CanBe(fs, name, who)
    ensures CanBe(SyncDir(fs), name, who) ==> CanBe(fs, name, who)
  {
    AppliedIsPossible(fs.disk, fs.pending, name);
    AppliedIsPossible(fs.disk, Picked(fs.pending, ino, true), name);
    PickedAreThere(fs.pending, ino, true);
    PickedAreThere(fs.pending, ino, false);
    if fs.kind == Vfat && CanBe(SyncFile(fs, ino), name, who) {
      var ops, rest := Picked(fs.pending, ino, true), Picked(fs.pending, ino, false);
      if k :| 0 <= k < |rest| && Affects(rest[k], name) && Effect(rest[k], name) == who {
        assert rest[k] in fs.pending;
      } else if k :| 0 <= k < |ops| && Affects(ops[k], name) && Effect(ops[k], name) == who {
        assert ops[k] in fs.pending;
      }
    }
  }

  // Every inode has a number below the next one.
  ghost predicate Numbered<C>(fs: Fs<C>) {
    forall i :: i in fs.nodes ==> i < fs.next
  }

  // The name can never come out bound to that inode.
  ghost predicate Apart<C>(fs: Fs<C>, name: string, ino: nat) {
    !CanBe(fs, name, Some(ino))
  }

  lemma CreateKeeps<C(!new)>(fs: Fs<C>, name: string, empty: C, other: string, allowed: set<Option<C>>)
    requires Numbered(fs) && other != name && Safe(fs, other, allowed)
    ensures Safe(Create(fs, name, empty), other, allowed) && Safe(CreateEmpty(fs, name, empty), other, allowed)
    ensures Apart(Create(fs, name, empty), other, fs.next) && Apart(CreateEmpty(fs, name, empty), other, fs.next)
  {
    forall who ensures CanBe(CreateEmpty(fs, name, empty), other, who) == CanBe(Create(fs, name, empty), other, who) { }
    var fs' := Create(fs, name, empty);
    forall who | CanBe(fs', other, who) ensures CanBe(fs, other, who) {
      PendingSnoc(fs, fs', Bind(name, fs.next), other, who);
    }
  }

  // One more pending operation adds at most its own effect.
  lemma PendingSnoc<C>(fs: Fs<C>, fs': Fs<C>, op: DirOp, name: string, who: Option<nat>)
    requires fs'.disk == fs.disk && fs'.pending == fs.pending + [op]
    ensures CanBe(fs', name, who) <==> CanBe(fs, name, who) || (Affects(op, name) && Effect(op, name) == who)
  {
    var n := |fs.pending|;
    assert fs'.pending[n] == op;
    if CanBe(fs, name, who) && Lookup(fs.disk, name) != who {
      var k :| 0 <= k < n && Affects(fs.pending[k], name) && Effect(fs.pending[k], name) == who;
      assert fs'.pending[k] == fs.pending[k];
    }
  }

  lemma WriteKeeps<C(!new)>(fs: Fs<C>, ino: nat, content: C, other: string, allowed: set<Option<C>>)
    requires Safe(fs, other, allowed) && Apart(fs, other, ino)
    ensures Safe(Write(fs, ino, content), other, allowed) && Apart(Write(fs, ino, content), other, ino)
    ensures ino in fs.nodes ==>
              Safe(Append(fs, ino, content), other, allowed) && Apart(Append(fs, ino, content), other, ino)
  {
    var w := Write(fs, ino, content);
    forall who ensures CanBe(w, other, who) == CanBe(fs, other, who) { }
    if ino in fs.nodes {
      var a := Append(fs, ino, content);
      forall who ensures CanBe(a, other, who) == CanBe(fs, other, who) { }
    }
  }

  lemma SyncKeeps<C(!new)>(fs: Fs<C>, ino: nat, other: string, allowed: set<Option<C>>)
    requires ino in fs.nodes && Safe(fs, other, allowed)
    ensures Safe(SyncFile(fs, ino), other, allowed) && Safe(SyncDir(fs), other, allowed)
  {
    forall who { SyncsOnlyNarrow(fs, ino, other, who); }
  }

  lemma RenameKeeps<C(!new)>(fs: Fs<C>, src: string, dst: string, other: string, allowed: set<Option<C>>)
    requires src in fs.dir && other != src && other != dst && Safe(fs, other, allowed)
    ensures Safe(Rename(fs, src, dst), other, allowed)
  {
    var fs' := Rename(fs, src, dst);
    forall who | CanBe(fs', other, who) ensures CanBe(fs, other, who) {
      PendingSnoc(fs, fs', Move(src, dst, fs.dir[src]), other, who);
    }
  }

  lemma UnlinkKeeps<C(!new)>(fs: Fs<C>, name: string, other: string, allowed: set<Option<C>>)
    requires other != name && Safe(fs, other, allowed)
    ensures Safe(Unlink(fs, name), other, allowed)
  {
    var fs' := Unlink(fs, name);
    forall who | CanBe(fs', other, who) ensures CanBe(fs, other, who) {
      PendingSnoc(fs, fs', Unbind(name), other, who);
    }
  }

  // Renaming a synced file over a name adds its content to what the name may hold.
  lemma RenameLands<C(!new)>(fs: Fs<C>, src: string, dst: string, allowed: set<Option<C>>)
    requires src in fs.dir && src != dst && fs.dir[src] in fs.nodes && fs.nodes[fs.dir[src]].fate.Synced?
    requires Safe(fs, dst, allowed)
    ensures Safe(Rename(fs, src, dst), dst, allowed + {Some(fs.nodes[fs.dir[src]].now)})
  {
    var fs' := Rename(fs, src, dst);
    forall who | CanBe(fs', dst, who) ensures CanBe(fs, dst, who) || who == Some(fs.dir[src]) {
      PendingSnoc(fs, fs', Move(src, dst, fs.dir[src]), dst, who);
    }
  }

  // --- the fsyncs after a rename make it final, on either file system ---

  lemma {:induction false} LastEffectApplies(disk: map<string, nat>, ops: seq<DirOp>, op: DirOp, name: string)
    requires Affects(op, name)
    ensures Lookup(ApplyAll(disk, ops + [op]), name) == Effect(op, name)
  {
    assert (ops + [op])[..|ops|] == ops;
  }

  lemma PickedLast(pending: seq<DirOp>, op: DirOp, ino: nat)
    requires Concerns(op, ino)
    ensures Picked(pending + [op], ino, true) == Picked(pending, ino, true) + [op]
    ensures Picked(pending + [op], ino, false) == Picked(pending, ino, false)
  {
    assert (pending + [op])[..|pending|] == pending;
  }

  ghost predicate Quiet<C>(fs: Fs<C>, name: string) {
    forall k :: 0 <= k < |fs.pending| ==> !Affects(fs.pending[k], name)
  }

  // After the operation on an inode, its fsync and the directory's, the name is bound to it for good.
  lemma SyncedOpIsFinal<C(!new)>(fs: Fs<C>, before: seq<DirOp>, op: DirOp, ino: nat, name: string)
    requires fs.pending == before + [op] && ino in fs.nodes
    requires Affects(op, name) && Concerns(op, ino) && Effect(op, name) == Some(ino)
    requires fs.kind == Ext4 || forall k :: 0 <= k < |before| ==> !Affects(before[k], name)
    ensures var done := SyncDir(SyncFile(fs, ino));
            Quiet(done, name) && Lookup(done.disk, name) == Some(ino)
  {
    LastEffectApplies(fs.disk, before, op, name);
    if fs.kind == Vfat {
      PickedLast(before, op, ino);
      LastEffectApplies(fs.disk, Picked(before, ino, true), op, name);
      PickedAreThere(before, ino, false);
      var rest := Picked(before, ino, false);
      forall k | 0 <= k < |rest| ensures !Affects(rest[k], name) {
        assert rest[k] in before;
      }
    }
  }

  // On ext4 the directory's fsync writes every pending change, on vfat a file's only its own.
  ghost predicate Calm<C>(fs: Fs<C>, name: string) {
    fs.kind == Ext4 || Quiet(fs, name)
  }

  lemma CalmKeeps<C>(fs: Fs<C>, ino: nat, op: DirOp, name: string)
    requires Calm(fs, name)
    ensures !Affects(op, name) ==> Calm(fs.(pending := fs.pending + [op]), name)
    ensures ino in fs.nodes ==> Calm(SyncFile(fs, ino), name)
    ensures Calm(SyncDir(fs), name)
  {
    if fs.kind == Vfat {
      QuietKeeps(fs, ino, op, name);
    }
  }

  lemma QuietKeeps<C>(fs: Fs<C>, ino: nat, op: DirOp, name: string)
    requires Quiet(fs, name)
    ensures !Affects(op, name) ==> Quiet(fs.(pending := fs.pending + [op]), name)
    ensures ino in fs.nodes ==> Quiet(SyncFile(fs, ino), name)
    ensures Quiet(SyncDir(fs), name)
  {
    PickedAreThere(fs.pending, ino, false);
    var rest := Picked(fs.pending, ino, false);
    forall k | 0 <= k < |rest| ensures !Affects(rest[k], name) {
      assert rest[k] in fs.pending;
    }
  }
}
