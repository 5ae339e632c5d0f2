/** Whole runs of the buffer cache against a plain map from blocks to data. */
module BufferRuns {
  import opened RbShape
  import opened RbRotate
  import RbWalk
  import opened BufferState
  import opened BufferTable
  import opened BufferCache
  import opened Addresses

  // ---------------------------------------------------------------- shutting down

  /** Forgets a buffer, whatever its state. */
  lemma Forgotten(bufs: Buffers, free: seq<Ref>, free': seq<Ref>, r: Ref)
    requires Listed(bufs, free, []) && r in bufs && Deleted(free, r, free')
    ensures Listed(bufs - {r}, free', [])
  {
  }

  /** Frees all buffers, in the order of their blocks. */
  method FreeAll(cache: Cache)
    requires cache.Valid() && cache.table.dirty == []
    modifies cache.root, cache.table`bufs, cache.table`free, cache.table`nrFree
    ensures cache.table.bufs == map[] && cache.root.shape == Nil && cache.table.free == [] && cache.table.nrFree == 0
  {
    while cache.root.node != NULL
      invariant cache.root.Valid(cache.key) && Indexed(cache.table.bufs, cache.key, cache.root.shape)
      invariant Listed(cache.table.bufs, cache.table.free, []) && cache.table.nrFree == |cache.table.free|
      decreases |cache.table.bufs|
    {
      FreeFirst(cache.root, cache.table, cache.key);
    }
    LinksRoot(cache.root.m, cache.root.shape, NULL, NULL);
    NoneListed(cache.table.bufs, cache.table.free);
  }

  /** Frees the buffer with the lowest block, whatever its state. */
  method FreeFirst(root: RbRoot, t: Table, ghost key: Ref -> int)
    requires root.Valid(key) && Indexed(t.bufs, key, root.shape) && root.node != NULL
    requires Listed(t.bufs, t.free, []) && t.nrFree == |t.free|
    modifies root, t`bufs, t`free, t`nrFree
    ensures root.Valid(key) && Indexed(t.bufs, key, root.shape) && |t.bufs| < |old(t.bufs)|
    ensures Listed(t.bufs, t.free, []) && t.nrFree == |t.free|
  {
    var node := RbWalk.Extreme(root, Left, key);
    FirstThere(root.m, root.node, root.shape);
    Detach(t, node);
    UnlinkOld(root, node, key, t.bufs);
    Fewer(t.bufs, node);
    t.bufs := t.bufs - {node};
  }

  /** Takes a buffer off the free list, if it is there. */
  method Detach(t: Table, r: Ref)
    requires Listed(t.bufs, t.free, []) && t.nrFree == |t.free| && r in t.bufs
    modifies t`free, t`nrFree
    ensures Listed(t.bufs - {r}, t.free, []) && t.nrFree == |t.free|
  {
    var free' := Delete(t.free, r);
    Forgotten(t.bufs, t.free, free', r);
    t.nrFree := if r in t.free then t.nrFree - 1 else t.nrFree;
    t.free := free';
  }

  lemma Fewer(bufs: Buffers, r: Ref)
    requires r in bufs
    ensures |bufs - {r}| < |bufs|
  {
    assert (bufs - {r}).Keys == bufs.Keys - {r};
    assert |bufs.Keys - {r}| < |bufs.Keys|;
  }

  lemma FirstThere(m: Mem, root: Ref, t: Tree)
    requires InMem(m, root, t) && root != NULL
    ensures First(Inorder(t)) in Nodes(t)
  {
    InorderNodes(t);
    assert Inorder(t)[0] in Inorder(t);
  }

  lemma NoneListed(bufs: Buffers, free: seq<Ref>)
    requires bufs.Keys == {} && Listed(bufs, free, [])
    ensures bufs == map[] && free == []
  {
    FirstIn(free);
  }

  lemma FirstIn(s: seq<Ref>)
    ensures s != [] ==> exists r :: r in s
  {
    if s != [] {
      assert s[0] in s;
    }
  }

  /** A dirty buffer that somebody still holds, with data that the device does not have. */
  ghost predicate LostAtExit(device: Device, b: Buffer) {
    b.dirty && b.count > 0 && b.blocknr in device && b.data != device[b.blocknr]
  }

  /** The block has a dirty buffer that somebody still holds. */
  ghost predicate HeldDirty(bufs: Buffers, b: int) {
    exists r :: r in bufs && bufs[r].dirty && bufs[r].count > 0 && bufs[r].blocknr == b
  }

  /**
   Shuts the cache down: what nobody holds is written back, then all buffers are freed.  The device
   is left with the data the cache stood for, but for the blocks of held dirty buffers, which keep
   their old data: it equals the map exactly when no held dirty buffer differs from it.
   */
  method Shutdown(cache: Cache)
    requires cache.Valid()
    modifies cache.root, cache.table
    ensures cache.table.bufs == map[] && cache.root.shape == Nil && cache.table.nrFree == 0 && cache.table.dirtyCount == 0
    ensures LeftAtExit(old(cache.table.device), cache.table.device, old(cache.table.bufs), old(cache.table.view))
    ensures cache.table.device == old(cache.table.view) <==>
            forall r :: r in old(cache.table.bufs) ==> !LostAtExit(old(cache.table.device), old(cache.table.bufs)[r])
  {
    ghost var device, bufs, view := cache.table.device, cache.table.bufs, cache.table.view;
    cache.TryToSync();
    ExitData(device, cache.table.device, bufs, cache.table.bufs, view);
    ExitExact(device, cache.table.device, bufs, view);
    FreeAll(cache);
  }

  /** What the device holds in each block after the shutdown. */
  ghost predicate LeftAtExit(device: Device, device': Device, bufs: Buffers, view: Device) {
    && device'.Keys == device.Keys == view.Keys
    && forall b :: b in device' ==> device'[b] == if HeldDirty(bufs, b) then device[b] else view[b]
  }

  lemma ExitData(device: Device, device': Device, bufs: Buffers, bufs': Buffers, view: Device)
    requires StandsFor(device, bufs, view) && StandsFor(device', bufs', view) && Synced(device, device', bufs, bufs')
    requires OnePerBlock(bufs) && forall r :: r in bufs' ==> !bufs'[r].Waiting()
    ensures LeftAtExit(device, device', bufs, view)
  {
    forall b | b in device'
      ensures device'[b] == if HeldDirty(bufs, b) then device[b] else view[b]
    {
      if HasDirty(bufs', b) {
        var r :| r in bufs' && bufs'[r].dirty && bufs'[r].blocknr == b;
        assert GoodBuffer(device', bufs'[r], view) && bufs'[r] == bufs[r];
        assert HeldDirty(bufs, b);
      } else if HeldDirty(bufs, b) {
        var r :| r in bufs && bufs[r].dirty && bufs[r].count > 0 && bufs[r].blocknr == b;
        assert bufs'[r] == bufs[r];
      }
    }
  }

  lemma ExitExact(device: Device, device': Device, bufs: Buffers, view: Device)
    requires StandsFor(device, bufs, view) && OnePerBlock(bufs) && LeftAtExit(device, device', bufs, view)
    ensures device' == view <==> forall r :: r in bufs ==> !LostAtExit(device, bufs[r])
  {
    forall r | r in bufs && LostAtExit(device, bufs[r])
      ensures device'[bufs[r].blocknr] != view[bufs[r].blocknr]
    {
      assert GoodBuffer(device, bufs[r], view) && HeldDirty(bufs, bufs[r].blocknr);
    }
    if forall r :: r in bufs ==> !LostAtExit(device, bufs[r]) {
      forall b | b in device'
        ensures device'[b] == view[b]
      {
        if HeldDirty(bufs, b) {
          var r :| r in bufs && bufs[r].dirty && bufs[r].count > 0 && bufs[r].blocknr == b;
          assert GoodBuffer(device, bufs[r], view) && !LostAtExit(device, bufs[r]);
        }
      }
    }
  }

  /** Reads a block and changes it, without releasing it. */
  method Change(cache: Cache, block: int, data: Bytes)
    requires cache.Valid() && block in cache.table.device && 0 <= block < KEY_BOUND
    modifies cache`key, cache.root, cache.table
    ensures cache.Valid() && cache.table.view == old(cache.table.view)[block := data] && HeldDirty(cache.table.bufs, block)
    ensures cache.table.device == old(cache.table.device)
  {
    var r := cache.Bread(block);
    cache.Store(r, data);
    HeldHere(cache.table.bufs, r);
  }

  lemma HeldHere(bufs: Buffers, r: Ref)
    requires r in bufs && bufs[r].dirty && bufs[r].count > 0
    ensures HeldDirty(bufs, bufs[r].blocknr)
  {
  }

  /** The cache stands for the new data of a block, the device has the old. */
  method ChangeOnly() returns (cache: Cache)
    ensures fresh(cache) && fresh(cache.root) && fresh(cache.table) && cache.Valid()
    ensures cache.table.view == map[7 := [1]] && cache.table.device == map[7 := [0]] && HeldDirty(cache.table.bufs, 7)
  {
    cache := new Cache(map[7 := [0]]);
    Change(cache, 7, [1]);
  }

  /** When the cache is shut down then, the device keeps the old data. */
  method LostExample() returns (cache: Cache)
    ensures cache.table.device == map[7 := [0]]
  {
    cache := ChangeOnly();
    Shutdown(cache);
  }

  // ---------------------------------------------------------------- the plain map

  /** The calls, and the step that the writeback thread takes between them: it writes one waiting buffer. */
  datatype Call = Bread(block: int) | Bwrite(block: int) | Store(block: int, data: Bytes) | Brelse(block: int) | Writeback

  /**
   A map from blocks to data, and how often each block is held; and behind it a device, the blocks
   that changed since they were written there, and those of them that wait to be written, in order.
   */
  datatype Plain = Plain(mem: Device, held: map<int, int>, device: Device, dirty: set<int>, queue: seq<int>)

  ghost function HeldIn(p: Plain, b: int): int {
    if b in p.held then p.held[b] else 0
  }

  ghost function Hold(p: Plain, b: int, d: int): Plain {
    p.(held := p.held[b := HeldIn(p, b) + d])
  }

  /** A block that is held does not wait to be written. */
  ghost function Occupy(p: Plain, b: int): Plain {
    Hold(p, b, 1).(queue := Without(p.queue, b))
  }

  /** A changed block that nobody holds any more waits, behind all that wait already. */
  ghost function Vacate(p: Plain, b: int): Plain {
    Hold(p, b, -1).(queue := if HeldIn(p, b) == 1 && b in p.dirty then p.queue + [b] else p.queue)
  }

  ghost function Drain(p: Plain): Plain {
    if p.queue != [] && p.queue[0] in p.mem then
      var b := p.queue[0];
      p.(device := p.device[b := p.mem[b]], dirty := p.dirty - {b}, queue := p.queue[1..])
    else p
  }

  /** What a call means on the map; storing and releasing are for holders only. */
  ghost function After(p: Plain, c: Call): Plain {
    match c
    case Bread(b) => if b in p.mem then Occupy(p, b) else p
    case Bwrite(b) => if b in p.mem then Occupy(p, b) else p
    case Store(b, data) => if HeldIn(p, b) > 0 then p.(mem := p.mem[b := data], dirty := p.dirty + {b}) else p
    case Brelse(b) => if HeldIn(p, b) > 0 then Vacate(p, b) else p
    case Writeback => Drain(p)
  }

  /** What a read finds in the map. */
  ghost function Answer(p: Plain, c: Call): Bytes {
    if c.Bread? && c.block in p.mem then p.mem[c.block] else []
  }

  ghost function AfterAll(p: Plain, calls: seq<Call>): Plain {
    if calls == [] then p else After(AfterAll(p, calls[..|calls| - 1]), calls[|calls| - 1])
  }

  ghost function Answers(p: Plain, calls: seq<Call>): seq<Bytes> {
    if calls == [] then []
    else Answers(p, calls[..|calls| - 1]) + [Answer(AfterAll(p, calls[..|calls| - 1]), calls[|calls| - 1])]
  }

  /** The cache stands for the map, and its buffers have the users that the map records. */
  ghost predicate HoldsAs(view: Device, bufs: Buffers, p: Plain) {
    view == p.mem && forall b {:trigger Users(bufs, b)} {:trigger HeldIn(p, b)} :: Users(bufs, b) == HeldIn(p, b)
  }

  /** The listed buffers are dirty, and the blocks they stand for are `queue`, in order. */
  ghost predicate Queued(bufs: Buffers, list: seq<Ref>, queue: seq<int>) {
    |list| == |queue| && forall i :: 0 <= i < |list| ==> list[i] in bufs && bufs[list[i]].dirty && bufs[list[i]].blocknr == queue[i]
  }

  /** The device is the one of the machine, and the same blocks have changed or wait to be written. */
  ghost predicate WaitsAs(device: Device, bufs: Buffers, list: seq<Ref>, p: Plain) {
    && device == p.device
    && (forall b {:trigger HasDirty(bufs, b)} :: HasDirty(bufs, b) <==> b in p.dirty)
    && Queued(bufs, list, p.queue)
  }

  ghost predicate Refines(t: Table, p: Plain)
    reads t
  {
    HoldsAs(t.view, t.bufs, p) && WaitsAs(t.device, t.bufs, t.dirty, p)
  }

  lemma HoldRefines(view: Device, bufs: Buffers, bufs': Buffers, p: Plain, b: int, d: int)
    requires HoldsAs(view, bufs, p) && Holding(bufs, bufs', b, d)
    ensures HoldsAs(view, bufs', Hold(p, b, d))
  {
    var p' := Hold(p, b, d);
    forall k
      ensures Users(bufs', k) == HeldIn(p', k)
    {
      assert Users(bufs, k) == HeldIn(p, k);
    }
  }

  // ---------------------------------------------------------------- what waits

  lemma DirtyKept(bufs: Buffers, bufs': Buffers)
    requires KeepsDirty(bufs, bufs')
    ensures forall b :: HasDirty(bufs, b) <==> HasDirty(bufs', b)
  {
    forall b
      ensures HasDirty(bufs, b) <==> HasDirty(bufs', b)
    {
      if HasDirty(bufs, b) {
        var q :| q in bufs && bufs[q].dirty && bufs[q].blocknr == b;
        assert q in bufs' && bufs'[q].dirty && bufs'[q].blocknr == b;
      }
      if HasDirty(bufs', b) {
        var q :| q in bufs' && bufs'[q].dirty && bufs'[q].blocknr == b;
        assert q in bufs && bufs[q].dirty && bufs[q].blocknr == b;
      }
    }
  }

  /** Taking a buffer off the list takes its block out of the queue. */
  lemma {:induction false} QueueWithout(bufs: Buffers, list: seq<Ref>, queue: seq<int>, r: Ref)
    requires OnePerBlock(bufs) && Queued(bufs, list, queue) && r in bufs
    ensures Queued(bufs, Without(list, r), Without(queue, bufs[r].blocknr))
  {
    if list != [] && list[0] != r {
      assert bufs[list[0]].blocknr != bufs[r].blocknr;
      QueueWithout(bufs, list[1..], queue[1..], r);
    }
  }

  /** A buffer was taken. */
  lemma OccupyWaits(device: Device, bufs: Buffers, bufs': Buffers, list: seq<Ref>, p: Plain, r: Ref)
    requires WaitsAs(device, bufs, list, p) && KeepsDirty(bufs, bufs') && OnePerBlock(bufs') && r in bufs'
    ensures WaitsAs(device, bufs', Without(list, r), Occupy(p, bufs'[r].blocknr))
  {
    DirtyKept(bufs, bufs');
    QueueWithout(bufs', list, p.queue, r);
  }

  /** A buffer was given back. */
  lemma VacateWaits(device: Device, bufs: Buffers, bufs': Buffers, list: seq<Ref>, p: Plain, r: Ref)
    requires WaitsAs(device, bufs, list, p) && LetGo(bufs, bufs', r) && bufs[r].count == HeldIn(p, bufs[r].blocknr)
    requires OnePerBlock(bufs)
    ensures WaitsAs(device, bufs', if bufs'[r].Waiting() then list + [r] else list, Vacate(p, bufs[r].blocknr))
  {
    DirtyKept(bufs, bufs');
    DirtyOne(bufs, r);
    assert Queued(bufs', list, p.queue);
  }

  lemma VacateRefines(view: Device, device: Device, bufs: Buffers, bufs': Buffers, list: seq<Ref>, p: Plain, r: Ref)
    requires HoldsAs(view, bufs, p) && WaitsAs(device, bufs, list, p) && LetGo(bufs, bufs', r)
    requires OnePerBlock(bufs) && OnePerBlock(bufs')
    ensures HeldIn(p, bufs[r].blocknr) == bufs[r].count && HoldsAs(view, bufs', Vacate(p, bufs[r].blocknr))
    ensures WaitsAs(device, bufs', if bufs'[r].Waiting() then list + [r] else list, Vacate(p, bufs[r].blocknr))
  {
    UsersOf(bufs, r);
    LetGoHolds(bufs, bufs', r);
    HoldRefines(view, bufs, bufs', p, bufs[r].blocknr, -1);
    VacateWaits(device, bufs, bufs', list, p, r);
  }

  lemma DirtyOne(bufs: Buffers, r: Ref)
    requires OnePerBlock(bufs) && r in bufs
    ensures HasDirty(bufs, bufs[r].blocknr) <==> bufs[r].dirty
  {
  }

  /** A holder stored something. */
  lemma StoreWaits(device: Device, bufs: Buffers, bufs': Buffers, list: seq<Ref>, p: Plain, r: Ref, data: Bytes)
    requires WaitsAs(device, bufs, list, p) && OnePerBlock(bufs) && r in bufs
    requires bufs' == bufs[r := bufs[r].(data := data, uptodate := true, dirty := true)]
    ensures WaitsAs(device, bufs', list, p.(mem := p.mem[bufs[r].blocknr := data], dirty := p.dirty + {bufs[r].blocknr}))
  {
    assert bufs'[r].dirty && bufs'[r].blocknr == bufs[r].blocknr;
    forall b
      ensures HasDirty(bufs', b) <==> HasDirty(bufs, b) || b == bufs[r].blocknr
    {
      DirtyElsewhere(bufs, bufs', r, b);
      DirtyElsewhere(bufs', bufs, r, b);
    }
  }

  /** The first waiting buffer was written. */
  lemma DrainWaits(device: Device, bufs: Buffers, bufs': Buffers, list: seq<Ref>, view: Device, p: Plain)
    requires WaitsAs(device, bufs, list, p) && OnePerBlock(bufs) && StandsFor(device, bufs, view) && view == p.mem
    requires list != [] && NoDup(list) && bufs' == bufs[list[0] := bufs[list[0]].(dirty := false, uptodate := true)]
    ensures WaitsAs(device[bufs[list[0]].blocknr := bufs[list[0]].data], bufs', list[1..], Drain(p))
  {
    var r := list[0];
    assert GoodBuffer(device, bufs[r], view) && bufs[r].blocknr == p.queue[0];
    DirtyOne(bufs', r);
    forall b
      ensures HasDirty(bufs', b) <==> HasDirty(bufs, b) && b != bufs[r].blocknr
    {
      DirtyElsewhere(bufs, bufs', r, b);
      DirtyElsewhere(bufs', bufs, r, b);
    }
    forall i | 0 <= i < |list[1..]|
      ensures list[1..][i] != r
    {
      assert list[1..][i] == list[i + 1];
    }
  }

  // ---------------------------------------------------------------- runs

  /** The buffer of a block that is held. */
  method HeldBuffer(cache: Cache, block: int) returns (r: Ref)
    requires cache.Valid() && 0 <= block < KEY_BOUND
    ensures r != NULL <==> Users(cache.table.bufs, block) > 0
    ensures r != NULL ==> r in cache.table.bufs && cache.table.bufs[r].blocknr == block && cache.table.bufs[r].count > 0
  {
    r := RbWalk.Search(cache.root, cache.key, block);
    FoundOrNot(cache.table.bufs, cache.key, cache.root.shape, block);
    if r != NULL {
      UsersOf(cache.table.bufs, r);
      if cache.table.bufs[r].count <= 0 {
        r := NULL;
      }
    }
  }

  /** One call on the cache has the answer and the effect that it has on the plain map and the device behind it. */
  method DoCall(cache: Cache, c: Call, ghost p: Plain) returns (answer: Bytes)
    requires cache.Valid() && Refines(cache.table, p)
    requires !c.Writeback? ==> 0 <= c.block < KEY_BOUND
    modifies cache`key, cache.root, cache.table
    ensures cache.Valid() && Refines(cache.table, After(p, c))
    ensures answer == Answer(p, c)
    ensures c.Bread? && c.block in old(cache.table.view) ==> answer == old(cache.table.view)[c.block]
    ensures (c.Bread? || c.Bwrite?) && c.block in old(cache.table.view) ==>
              Users(cache.table.bufs, c.block) == old(Users(cache.table.bufs, c.block)) + 1
    ensures c.Brelse? && old(Users(cache.table.bufs, c.block)) > 0 ==>
              Users(cache.table.bufs, c.block) == old(Users(cache.table.bufs, c.block)) - 1
    ensures cache.table.view == if c.Store? && old(Users(cache.table.bufs, c.block)) > 0 then old(cache.table.view)[c.block := c.data]
                                else old(cache.table.view)
    ensures c.Writeback? && old(cache.table.dirty) != [] ==>
              var r := old(cache.table.dirty)[0];
              && r in old(cache.table.bufs) && cache.table.dirty == old(cache.table.dirty)[1..]
              && cache.table.device == old(cache.table.device)[old(cache.table.bufs)[r].blocknr := old(cache.table.bufs)[r].data]
    ensures !c.Writeback? ==> cache.table.device == old(cache.table.device)
  {
    answer := [];
    match c
    case Bread(b) =>
      answer := DoBread(cache, b, p);
    case Bwrite(b) =>
      DoBwrite(cache, b, p);
    case Store(b, data) =>
      DoStore(cache, b, data, p);
    case Brelse(b) =>
      DoBrelse(cache, b, p);
    case Writeback =>
      DoWriteback(cache, p);
  }

  method DoBread(cache: Cache, b: int, ghost p: Plain) returns (answer: Bytes)
    requires cache.Valid() && Refines(cache.table, p) && 0 <= b < KEY_BOUND
    modifies cache`key, cache.root, cache.table`bufs, cache.table`free, cache.table`nrFree, cache.table`dirty, cache.table`dirtyCount
    ensures cache.Valid() && Refines(cache.table, After(p, Bread(b))) && answer == Answer(p, Bread(b))
    ensures b in cache.table.view ==>
              answer == cache.table.view[b] && Users(cache.table.bufs, b) == old(Users(cache.table.bufs, b)) + 1
  {
    answer := [];
    if b in cache.table.device {
      ghost var bufs, list := cache.table.bufs, cache.table.dirty;
      var r := cache.Bread(b);
      answer := cache.table.bufs[r].data;
      HoldRefines(cache.table.view, bufs, cache.table.bufs, p, b, 1);
      OccupyWaits(cache.table.device, bufs, cache.table.bufs, list, p, r);
    }
  }

  method DoBwrite(cache: Cache, b: int, ghost p: Plain)
    requires cache.Valid() && Refines(cache.table, p) && 0 <= b < KEY_BOUND
    modifies cache`key, cache.root, cache.table`bufs, cache.table`free, cache.table`nrFree, cache.table`dirty, cache.table`dirtyCount
    ensures cache.Valid() && Refines(cache.table, After(p, Bwrite(b)))
    ensures b in cache.table.view ==> Users(cache.table.bufs, b) == old(Users(cache.table.bufs, b)) + 1
  {
    if b in cache.table.device {
      ghost var bufs, list := cache.table.bufs, cache.table.dirty;
      var r := cache.Bwrite(b);
      HoldRefines(cache.table.view, bufs, cache.table.bufs, p, b, 1);
      OccupyWaits(cache.table.device, bufs, cache.table.bufs, list, p, r);
    }
  }

  method DoStore(cache: Cache, b: int, data: Bytes, ghost p: Plain)
    requires cache.Valid() && Refines(cache.table, p) && 0 <= b < KEY_BOUND
    modifies cache.table`bufs, cache.table`view
    ensures cache.Valid() && Refines(cache.table, After(p, Store(b, data)))
    ensures cache.table.view == if old(Users(cache.table.bufs, b)) > 0 then old(cache.table.view)[b := data] else old(cache.table.view)
  {
    var r := HeldBuffer(cache, b);
    if r != NULL {
      ghost var bufs := cache.table.bufs;
      cache.Store(r, data);
      HoldOne(bufs, cache.table.bufs, r, 0);
      StoreWaits(cache.table.device, bufs, cache.table.bufs, cache.table.dirty, p, r, data);
    }
  }

  method DoBrelse(cache: Cache, b: int, ghost p: Plain)
    requires cache.Valid() && Refines(cache.table, p) && 0 <= b < KEY_BOUND
    modifies cache.root, cache.table`bufs, cache.table`free, cache.table`nrFree, cache.table`dirty, cache.table`dirtyCount
    ensures cache.Valid() && Refines(cache.table, After(p, Brelse(b)))
    ensures old(Users(cache.table.bufs, b)) > 0 ==> Users(cache.table.bufs, b) == old(Users(cache.table.bufs, b)) - 1
  {
    var r := HeldBuffer(cache, b);
    if r != NULL {
      ghost var bufs, list := cache.table.bufs, cache.table.dirty;
      cache.Brelse(r);
      VacateRefines(cache.table.view, cache.table.device, bufs, cache.table.bufs, list, p, r);
    }
  }

  /** One turn of the writeback thread. */
  method DoWriteback(cache: Cache, ghost p: Plain)
    requires cache.Valid() && Refines(cache.table, p)
    modifies cache.table`device, cache.table`bufs, cache.table`free, cache.table`nrFree, cache.table`dirty, cache.table`dirtyCount
    ensures cache.Valid() && Refines(cache.table, After(p, Writeback))
    ensures old(cache.table.dirty) != [] ==>
              var r := old(cache.table.dirty)[0];
              && r in old(cache.table.bufs) && cache.table.dirty == old(cache.table.dirty)[1..]
              && cache.table.device == old(cache.table.device)[old(cache.table.bufs)[r].blocknr := old(cache.table.bufs)[r].data]
  {
    ghost var device, bufs, list := cache.table.device, cache.table.bufs, cache.table.dirty;
    if list != [] {
      DrainWaits(device, bufs, bufs[list[0] := bufs[list[0]].(dirty := false, uptodate := true)], list, cache.table.view, p);
    }
    cache.SyncOne();
    SyncUsers(device, cache.table.device, bufs, cache.table.bufs);
  }

  lemma RunStep(p: Plain, calls: seq<Call>, n: nat)
    requires n < |calls|
    ensures AfterAll(p, calls[..n + 1]) == After(AfterAll(p, calls[..n]), calls[n])
    ensures Answers(p, calls[..n + 1]) == Answers(p, calls[..n]) + [Answer(AfterAll(p, calls[..n]), calls[n])]
  {
    assert calls[..n + 1][..n] == calls[..n];
  }

  /**
   Any sequence of calls on the cache gives the answers that a plain map from blocks to data gives,
   and leaves the cache standing for that map, and the device as the machine has it.
   */
  method RunCalls(cache: Cache, calls: seq<Call>, ghost p: Plain) returns (answers: seq<Bytes>)
    requires cache.Valid() && Refines(cache.table, p)
    requires forall i :: 0 <= i < |calls| && !calls[i].Writeback? ==> 0 <= calls[i].block < KEY_BOUND
    modifies cache`key, cache.root, cache.table
    ensures cache.Valid() && Refines(cache.table, AfterAll(p, calls))
    ensures answers == Answers(p, calls)
  {
    answers := [];
    for n := 0 to |calls|
      invariant cache.Valid() && Refines(cache.table, AfterAll(p, calls[..n]))
      invariant answers == Answers(p, calls[..n])
    {
      var answer := DoCall(cache, calls[n], AfterAll(p, calls[..n]));
      RunStep(p, calls, n);
      answers := answers + [answer];
    }
    assert calls[..|calls|] == calls;
  }

  // ---------------------------------------------------------------- what reaches the device

  /**
   The waiting blocks are the changed ones that nobody holds, each once; all other blocks are on the
   device as they are in the map.
   */
  ghost predicate Orderly(p: Plain) {
    && p.device.Keys == p.mem.Keys && p.dirty <= p.mem.Keys
    && NoDup(p.queue)
    && (forall b {:trigger b in p.queue} :: b in p.queue <==> b in p.dirty && HeldIn(p, b) == 0)
    && (forall b {:trigger HeldIn(p, b)} :: HeldIn(p, b) >= 0 && (HeldIn(p, b) > 0 ==> b in p.mem))
    && (forall b :: b in p.mem && b !in p.dirty ==> p.device[b] == p.mem[b])
  }

  /** Nothing has been read or changed. */
  function Fresh(device: Device): Plain {
    Plain(device, map[], device, {}, [])
  }

  lemma {:induction false} WithoutMembers(s: seq<int>, x: int)
    requires NoDup(s)
    ensures NoDup(Without(s, x)) && forall b {:trigger b in Without(s, x)} :: b in Without(s, x) <==> b in s && b != x
  {
    if s != [] {
      TailMembers(s);
      if s[0] != x {
        WithoutMembers(s[1..], x);
        HeadMembers(s[0], Without(s[1..], x));
      }
    }
  }

  lemma HeadMembers(h: int, t: seq<int>)
    requires NoDup(t) && h !in t
    ensures NoDup([h] + t) && forall b {:trigger b in [h] + t} {:trigger b in t} :: b in [h] + t <==> b == h || b in t
  {
  }

  lemma TailMembers(s: seq<int>)
    requires NoDup(s) && s != []
    ensures NoDup(s[1..]) && s[0] !in s[1..] && forall b {:trigger b in s} {:trigger b in s[1..]} :: b in s <==> b == s[0] || b in s[1..]
  {
    assert s == [s[0]] + s[1..];
  }

  lemma OrderlyAfter(p: Plain, c: Call)
    requires Orderly(p)
    ensures Orderly(After(p, c))
  {
    match c
    case Bread(b) =>
      OrderlyOccupy(p, b);
    case Bwrite(b) =>
      OrderlyOccupy(p, b);
    case Store(b, data) =>
      OrderlyStore(p, b, data);
    case Brelse(b) =>
      OrderlyVacate(p, b);
    case Writeback =>
      OrderlyDrain(p);
  }

  lemma OrderlyOccupy(p: Plain, b: int)
    requires Orderly(p)
    ensures b in p.mem ==> Orderly(Occupy(p, b))
  {
    WithoutMembers(p.queue, b);
    forall k
      ensures HeldIn(Occupy(p, b), k) == HeldIn(p, k) + if k == b then 1 else 0
    {
    }
  }

  lemma OrderlyStore(p: Plain, b: int, data: Bytes)
    requires Orderly(p)
    ensures Orderly(After(p, Store(b, data)))
  {
    var q := After(p, Store(b, data));
    forall k
      ensures HeldIn(q, k) == HeldIn(p, k)
    {
    }
  }

  lemma OrderlyVacate(p: Plain, b: int)
    requires Orderly(p)
    ensures HeldIn(p, b) > 0 ==> Orderly(Vacate(p, b))
  {
    assert b in p.queue <==> b in p.dirty && HeldIn(p, b) == 0;
    forall k
      ensures HeldIn(Vacate(p, b), k) == HeldIn(p, k) - if k == b then 1 else 0
    {
    }
  }

  lemma OrderlyDrain(p: Plain)
    requires Orderly(p)
    ensures Orderly(Drain(p)) && |Drain(p).queue| == if p.queue == [] then 0 else |p.queue| - 1
  {
    if p.queue != [] {
      TailMembers(p.queue);
      var first, q := p.queue[0], Drain(p);
      assert first in p.queue;
      assert HeldIn(p, first) == 0 && first in p.dirty;
      forall k
        ensures HeldIn(q, k) == HeldIn(p, k)
      {
      }
      forall b
        ensures b in q.queue <==> b in q.dirty && HeldIn(q, b) == 0
      {
        assert b in p.queue <==> b in p.dirty && HeldIn(p, b) == 0;
      }
    }
  }

  lemma {:induction false} OrderlyRun(device: Device, calls: seq<Call>)
    ensures Orderly(AfterAll(Fresh(device), calls))
  {
    if calls != [] {
      OrderlyRun(device, calls[..|calls| - 1]);
      OrderlyAfter(AfterAll(Fresh(device), calls[..|calls| - 1]), calls[|calls| - 1]);
    }
  }

  /** The state after `n` turns of the writeback thread. */
  ghost function Drained(p: Plain, n: nat): Plain
    decreases n
  {
    if n == 0 then p else Drained(After(p, Writeback), n - 1)
  }

  /** What the device has in a block once nothing waits. */
  ghost predicate Settled(p: Plain, p': Plain) {
    && p'.mem == p.mem && p'.held == p.held && p'.queue == [] && p'.device.Keys == p.device.Keys == p.mem.Keys
    && forall b :: b in p.mem ==> p'.device[b] == if b in p.dirty && HeldIn(p, b) > 0 then p.device[b] else p.mem[b]
  }

  /**
   After as many turns of the writeback thread as there are waiting blocks, the device has what the map
   has, except that held blocks which changed are as they were; so it equals the map if there are none.
   */
  lemma {:induction false} DrainAll(p: Plain, n: nat)
    requires Orderly(p) && n >= |p.queue|
    ensures Settled(p, Drained(p, n))
    ensures (forall b :: b in p.dirty ==> HeldIn(p, b) == 0) ==> Drained(p, n).device == p.mem
    decreases n
  {
    if n > 0 {
      OrderlyDrain(p);
      DrainAll(Drain(p), n - 1);
      SettledBefore(p, Drained(p, n));
    } else {
      SettledNow(p);
    }
    if forall b :: b in p.dirty ==> HeldIn(p, b) == 0 {
      SettledAll(p, Drained(p, n));
    }
  }

  lemma SettledAll(p: Plain, p': Plain)
    requires Settled(p, p') && forall b :: b in p.dirty ==> HeldIn(p, b) == 0
    ensures p'.device == p.mem
  {
    assert forall b :: b in p.mem ==> b in p'.device && p'.device[b] == p.mem[b];
  }

  lemma SettledNow(p: Plain)
    requires Orderly(p) && p.queue == []
    ensures Settled(p, p)
  {
    forall b | b in p.dirty
      ensures HeldIn(p, b) > 0
    {
      assert b !in p.queue;
    }
  }

  lemma SettledBefore(p: Plain, p': Plain)
    requires Orderly(p) && Settled(Drain(p), p')
    ensures Settled(p, p')
  {
    var q := Drain(p);
    if p.queue != [] {
      assert p.queue[0] in p.queue;
      assert HeldIn(q, p.queue[0]) == HeldIn(p, p.queue[0]) == 0;
      forall b | b in p.mem
        ensures HeldIn(q, b) == HeldIn(p, b) && (b != p.queue[0] ==> q.device[b] == p.device[b])
      {
      }
    }
  }

  lemma {:induction false} DrainedLast(p: Plain, n: nat)
    requires n > 0
    ensures Drained(p, n) == After(Drained(p, n - 1), Writeback)
    decreases n
  {
    if n > 1 {
      DrainedLast(After(p, Writeback), n - 1);
    }
  }

  /** `n` turns of the writeback thread. */
  function Writebacks(n: nat): seq<Call> {
    seq(n, _ => Writeback)
  }

  lemma {:induction false} DrainedRun(p: Plain, calls: seq<Call>, n: nat)
    ensures AfterAll(p, calls + Writebacks(n)) == Drained(AfterAll(p, calls), n)
  {
    var all := calls + Writebacks(n);
    if n == 0 {
      assert all == calls;
    } else {
      assert all[..|all| - 1] == calls + Writebacks(n - 1);
      assert all[|all| - 1] == Writeback;
      DrainedRun(p, calls, n - 1);
      DrainedLast(AfterAll(p, calls), n);
    }
  }

  /** The machine of a cache that was just made. */
  lemma FreshRefines(t: Table)
    requires t.Valid() && t.bufs == map[] && t.view == t.device
    ensures Refines(t, Fresh(t.device))
  {
    FirstIn(t.dirty);
  }

  /**
   Whatever was called since the cache was made: once the writeback thread took as many turns as blocks
   wait, the device has every change of the blocks that nobody holds.
   */
  lemma WrittenBack(device: Device, calls: seq<Call>, n: nat)
    requires n >= |AfterAll(Fresh(device), calls).queue|
    ensures var p, p' := AfterAll(Fresh(device), calls), AfterAll(Fresh(device), calls + Writebacks(n));
            && Settled(p, p')
            && ((forall b :: b in p.dirty ==> HeldIn(p, b) == 0) ==> p'.device == p.mem)
  {
    OrderlyRun(device, calls);
    DrainedRun(Fresh(device), calls, n);
    DrainAll(AfterAll(Fresh(device), calls), n);
  }
}
