/** The write-back buffer cache over a block device, indexed by a red-black tree. */
module BufferCache {
  import opened RbShape
  import opened RbRotate
  import RbInsert
  import RbWalk
  import RbUnlink
  import opened BufferState
  import opened BufferTable
  import opened Addresses

  /* More free buffers than this are dropped. */
  const FREE_THRESHOLD: nat := 90000

  /** The tree has a node for every buffer, under the number of its block. */
  ghost predicate Indexed(bufs: Buffers, key: Ref -> int, t: Tree) {
    && Nodes(t) == bufs.Keys
    && (forall r :: r in bufs ==> key(r) == bufs[r].blocknr)
  }

  /** Changing a buffer without its block number changes nothing of that. */
  lemma StillIndexed(bufs: Buffers, bufs': Buffers, key: Ref -> int, t: Tree, r: Ref)
    requires Indexed(bufs, key, t) && OnlyAt(bufs, bufs', r)
    ensures Indexed(bufs', key, t)
  {
  }

  /** Since the tree is sorted by block number, no block has two buffers. */
  lemma IndexedUnique(bufs: Buffers, key: Ref -> int, t: Tree, h: nat)
    requires Indexed(bufs, key, t) && SearchTree(key, t, h)
    ensures OnePerBlock(bufs)
    ensures forall r :: r in bufs ==> 0 <= bufs[r].blocknr < KEY_BOUND
  {
    var s := Inorder(t);
    InorderNodes(t);
    forall r | r in bufs
      ensures 0 <= bufs[r].blocknr < KEY_BOUND && r in s
    {
      assert r in s;
    }
    forall r, q | r in bufs && q in bufs && r != q
      ensures bufs[r].blocknr != bufs[q].blocknr
    {
      var i :| 0 <= i < |s| && s[i] == r;
      var j :| 0 <= j < |s| && s[j] == q;
      assert i < j ==> key(s[i]) < key(s[j]);
      assert j < i ==> key(s[j]) < key(s[i]);
    }
  }

  /** Only the keys of the nodes of a tree matter. */
  lemma Rekey(key: Ref -> int, key': Ref -> int, t: Tree, h: nat)
    requires SearchTree(key, t, h) && forall x :: x in Nodes(t) ==> key'(x) == key(x)
    ensures SearchTree(key', t, h)
  {
    InorderNodes(t);
    var s := Inorder(t);
    forall i | 0 <= i < |s|
      ensures key'(s[i]) == key(s[i])
    {
      assert s[i] in s;
    }
  }

  /** Links the node of a new buffer into the tree under its block number. */
  method LinkNew(root: RbRoot, key: Ref -> int, r: Ref, block: int, ghost bufs: Buffers) returns (key': Ref -> int)
    requires root.Valid(key) && Indexed(bufs, key, root.shape) && NoBuffer(bufs, block)
    requires r != NULL && r !in bufs && 0 <= block < KEY_BOUND
    modifies root
    ensures root.Valid(key') && Nodes(root.shape) == bufs.Keys + {r}
    ensures key'(r) == block && forall q :: q in bufs ==> key'(q) == bufs[q].blocknr
  {
    key' := (x: Ref) => if x == r then block else key(x);
    Rekey(key, key', root.shape, root.height);
    ghost var m0 := root.m;
    root.m := root.m[r := Cell(NULL, NULL, NULL, true)];
    KeepLinks(m0, root.m, root.shape, root.node, NULL);
    NoKey(bufs, key', root.shape, block);
    RbInsert.Insert(root, key', r);
  }

  lemma NoKey(bufs: Buffers, key: Ref -> int, t: Tree, block: int)
    requires Indexed(bufs, key, t) && NoBuffer(bufs, block)
    ensures !RbInsert.HasKey(key, t, block)
  {
  }

  /** Unlinks the node of a dropped buffer. */
  method UnlinkOld(root: RbRoot, r: Ref, ghost key: Ref -> int, ghost bufs: Buffers)
    requires root.Valid(key) && Indexed(bufs, key, root.shape) && r in bufs
    modifies root
    ensures root.Valid(key) && Indexed(bufs - {r}, key, root.shape)
  {
    RbUnlink.Erase(root, r, key);
  }

  class Cache {
    const root: RbRoot
    const table: Table
    var key: Ref -> int

    ghost predicate Valid()
      reads this, root, table
    {
      root.Valid(key) && Indexed(table.bufs, key, root.shape) && table.Valid()
    }

    constructor (device: Device)
      ensures Valid() && fresh(root) && fresh(table) && table.view == device && table.device == device && table.bufs == map[]
    {
      root := new RbRoot(map[]);
      table := new Table(device);
      key := _ => 0;
    }

    /** Finds the buffer of a block, or makes one, and takes it. */
    method GetBlk(block: int) returns (r: Ref)
      requires Valid() && block in table.device && 0 <= block < KEY_BOUND
      modifies this`key, root, table`bufs, table`free, table`nrFree, table`dirty, table`dirtyCount
      ensures Valid() && r in table.bufs && table.bufs[r].blocknr == block && table.bufs[r].count > 0
      ensures Got(old(table.bufs), table.bufs, r, block) && table.dirty == Without(old(table.dirty), r)
    {
      r := RbWalk.Search(root, key, block);
      FoundOrNot(table.bufs, key, root.shape, block);
      if r != NULL {
        StillIndexed(table.bufs, Counted(table.bufs, r, 1), key, root.shape, r);
        table.Take(r);
      } else {
        ghost var bufs := table.bufs;
        r := AddNew(block);
        NotListed(bufs, table.free, table.dirty, r);
      }
    }

    /** Makes a buffer for a block that has none. */
    method AddNew(block: int) returns (r: Ref)
      requires Valid() && block in table.device && 0 <= block < KEY_BOUND && NoBuffer(table.bufs, block)
      modifies this`key, root, table`bufs
      ensures Valid() && r !in old(table.bufs) && table.bufs == old(table.bufs)[r := Buffer(block, [], 1, false, false)]
    {
      r := Malloc(table.bufs.Keys);
      key := LinkNew(root, key, r, block, table.bufs);
      table.Add(r, block);
    }

    /** Reads a block: its buffer, held, with the data the map has there. */
    method Bread(block: int) returns (r: Ref)
      requires Valid() && block in table.device && 0 <= block < KEY_BOUND
      modifies this`key, root, table`bufs, table`free, table`nrFree, table`dirty, table`dirtyCount
      ensures Valid() && r in table.bufs && table.bufs[r].blocknr == block && table.bufs[r].count > 0
      ensures block in table.view && table.bufs[r].data == table.view[block]
      ensures Holding(old(table.bufs), table.bufs, block, 1)
      ensures KeepsDirty(old(table.bufs), table.bufs) && table.dirty == Without(old(table.dirty), r)
    {
      ghost var bufs := table.bufs;
      r := GetBlk(block);
      ghost var bufs1 := table.bufs;
      table.SubmitRead(r);
      StillIndexed(bufs1, table.bufs, key, root.shape, r);
      GotHolds(bufs, bufs1, table.bufs, r, block);
    }

    /** Takes the buffer of a block that is to be overwritten, without reading it. */
    method Bwrite(block: int) returns (r: Ref)
      requires Valid() && block in table.device && 0 <= block < KEY_BOUND
      modifies this`key, root, table`bufs, table`free, table`nrFree, table`dirty, table`dirtyCount
      ensures Valid() && r in table.bufs && table.bufs[r].blocknr == block && table.bufs[r].count > 0
      ensures Holding(old(table.bufs), table.bufs, block, 1)
      ensures KeepsDirty(old(table.bufs), table.bufs) && table.dirty == Without(old(table.dirty), r)
    {
      ghost var bufs := table.bufs;
      r := GetBlk(block);
      GotHolds(bufs, table.bufs, table.bufs, r, block);
    }

    /** A holder stores data in a buffer and marks it dirty. */
    method Store(r: Ref, data: Bytes)
      requires Valid() && r in table.bufs && table.bufs[r].count > 0
      modifies table`bufs, table`view
      ensures Valid() && table.bufs == old(table.bufs)[r := old(table.bufs)[r].(data := data, uptodate := true, dirty := true)]
      ensures table.view == old(table.view)[old(table.bufs)[r].blocknr := data]
    {
      ghost var bufs := table.bufs;
      table.Store(r, data);
      StillIndexed(bufs, table.bufs, key, root.shape, r);
    }

    /** Drops free buffers while there are too many. */
    method TryToDrop()
      requires Valid()
      modifies root, table`bufs, table`free, table`nrFree
      ensures Valid() && DroppedFree(old(table.bufs), table.bufs) && table.nrFree <= FREE_THRESHOLD
      ensures var n: nat := if old(table.nrFree) > 90000 then old(table.nrFree) - 90000 else 0;
              n <= |old(table.free)| && table.free == old(table.free)[n..]
    {
      ghost var n: nat := 0;
      while table.nrFree > FREE_THRESHOLD
        invariant Valid() && DroppedFree(old(table.bufs), table.bufs)
        invariant n <= |old(table.free)| && table.free == old(table.free)[n..]
        invariant table.nrFree == old(table.nrFree) - n && (n > 0 ==> table.nrFree >= FREE_THRESHOLD)
        decreases table.nrFree
      {
        ghost var bufs := table.bufs;
        DropOne(n, old(table.free));
        DropTwice(old(table.bufs), bufs, table.bufs);
        n := n + 1;
      }
    }

    /** Drops the first free buffer: `n` were dropped before, of those in `free`. */
    method DropOne(ghost n: nat, ghost free: seq<Ref>)
      requires Valid() && table.free != [] && n <= |free| && table.free == free[n..]
      modifies root, table`bufs, table`free, table`nrFree
      ensures Valid() && DroppedFree(old(table.bufs), table.bufs)
      ensures n < |free| && table.free == free[n + 1..] && table.nrFree == old(table.nrFree) - 1
    {
      ghost var bufs := table.bufs;
      var r := table.DropFirst();
      UnlinkOld(root, r, key, bufs);
    }

    /**
     Releases a held buffer; the last user of a clean one may drop free buffers first.  All other
     buffers that are held or dirty stay as they are.
     */
    method Brelse(r: Ref)
      requires Valid() && r in table.bufs && table.bufs[r].count > 0
      modifies root, table`bufs, table`free, table`nrFree, table`dirty, table`dirtyCount
      ensures Valid() && LetGo(old(table.bufs), table.bufs, r)
      ensures table.dirty == if table.bufs[r].Waiting() then old(table.dirty) + [r] else old(table.dirty)
      ensures var n: nat := if old(table.nrFree) > 90000 then old(table.nrFree) - 90000 else 0;
              n <= |old(table.free)| && table.free == if table.bufs[r].Free() then old(table.free)[n..] + [r] else old(table.free)
    {
      ghost var bufs := table.bufs;
      if table.bufs[r].count == 1 && !table.bufs[r].dirty {
        TryToDrop();
      }
      LetOneGo(bufs, table.bufs, r);
      StillIndexed(table.bufs, Counted(table.bufs, r, -1), key, root.shape, r);
      table.Release(r);
    }

    /** Writes back one buffer that nobody uses, if there is one to write. */
    method SyncOne()
      requires Valid()
      modifies table`device, table`bufs, table`free, table`nrFree, table`dirty, table`dirtyCount
      ensures Valid() && Synced(old(table.device), table.device, old(table.bufs), table.bufs)
      ensures if old(table.dirty) == [] then table.device == old(table.device) && table.bufs == old(table.bufs) && table.dirty == []
              else
                var r := old(table.dirty)[0];
                && r in old(table.bufs) && table.dirty == old(table.dirty)[1..]
                && table.bufs == old(table.bufs)[r := old(table.bufs)[r].(dirty := false, uptodate := true)]
                && table.device == old(table.device)[old(table.bufs)[r].blocknr := old(table.bufs)[r].data]
    {
      if table.dirty != [] {
        ghost var device, bufs := table.device, table.bufs;
        ghost var r := table.SyncFirst();
        SyncStep(device, table.device, bufs, table.bufs, r);
      }
    }

    /** Writes back every buffer that nobody uses. */
    method TryToSync()
      requires Valid()
      modifies table`device, table`bufs, table`free, table`nrFree, table`dirty, table`dirtyCount
      ensures Valid() && table.dirty == [] && Synced(old(table.device), table.device, old(table.bufs), table.bufs)
    {
      while table.dirty != []
        invariant Valid() && Synced(old(table.device), table.device, old(table.bufs), table.bufs)
        decreases |table.dirty|
      {
        ghost var device, bufs := table.device, table.bufs;
        SyncOne();
        SyncTwice(old(table.device), device, table.device, old(table.bufs), bufs, table.bufs);
      }
    }
  }

  lemma FoundOrNot(bufs: Buffers, key: Ref -> int, t: Tree, block: int)
    requires Indexed(bufs, key, t)
    ensures RbInsert.HasKey(key, t, block) <==> !NoBuffer(bufs, block)
  {
    if !NoBuffer(bufs, block) {
      var r :| r in bufs && bufs[r].blocknr == block;
      assert r in Nodes(t) && key(r) == block;
    }
  }

  // ---------------------------------------------------------------- who holds what

  /** How many users the buffer of a block has. */
  ghost function Users(bufs: Buffers, b: int): int {
    if exists r :: r in bufs && bufs[r].blocknr == b then var r :| r in bufs && bufs[r].blocknr == b; bufs[r].count else 0
  }

  lemma UsersOf(bufs: Buffers, r: Ref)
    requires OnePerBlock(bufs) && r in bufs
    ensures Users(bufs, bufs[r].blocknr) == bufs[r].count
  {
  }

  /** The users of `block` changed by `d`, those of the other blocks did not. */
  ghost predicate Holding(bufs: Buffers, bufs': Buffers, block: int, d: int) {
    forall b {:trigger Users(bufs', b)} :: Users(bufs', b) == Users(bufs, b) + if b == block then d else 0
  }

  /** One buffer changed its users, or came new with them. */
  lemma HoldOne(bufs: Buffers, bufs': Buffers, r: Ref, d: int)
    requires OnePerBlock(bufs) && OnePerBlock(bufs') && r in bufs' && bufs'.Keys == bufs.Keys + {r}
    requires forall q :: q in bufs && q != r ==> bufs'[q] == bufs[q]
    requires if r in bufs then bufs'[r].blocknr == bufs[r].blocknr && bufs'[r].count == bufs[r].count + d
             else NoBuffer(bufs, bufs'[r].blocknr) && bufs'[r].count == d
    ensures Holding(bufs, bufs', bufs'[r].blocknr, d)
  {
    var block := bufs'[r].blocknr;
    UsersOf(bufs', r);
    if r in bufs {
      UsersOf(bufs, r);
    }
    forall b | b != block
      ensures Users(bufs', b) == Users(bufs, b)
    {
      UsersSame(bufs, bufs', b);
    }
  }

  /** A buffer was taken, or a new one was made for the block. */
  ghost predicate Got(bufs: Buffers, bufs': Buffers, r: Ref, block: int) {
    if NoBuffer(bufs, block) then r !in bufs && bufs' == bufs[r := Buffer(block, [], 1, false, false)]
    else r in bufs && bufs[r].blocknr == block && bufs' == Counted(bufs, r, 1)
  }

  /** The same blocks have a dirty buffer, the same one. */
  ghost predicate KeepsDirty(bufs: Buffers, bufs': Buffers) {
    && (forall q :: q in bufs && bufs[q].dirty ==> q in bufs' && bufs'[q].dirty && bufs'[q].blocknr == bufs[q].blocknr)
    && (forall q :: q in bufs' && bufs'[q].dirty ==> q in bufs && bufs[q].dirty && bufs'[q].blocknr == bufs[q].blocknr)
  }

  lemma GotHolds(bufs: Buffers, bufs1: Buffers, bufs': Buffers, r: Ref, block: int)
    requires OnePerBlock(bufs) && OnePerBlock(bufs') && Got(bufs, bufs1, r, block)
    requires OnlyAt(bufs1, bufs', r) && bufs'[r].count == bufs1[r].count && bufs'[r].dirty == bufs1[r].dirty
    ensures Holding(bufs, bufs', block, 1) && KeepsDirty(bufs, bufs')
  {
    HoldOne(bufs, bufs', r, 1);
  }

  lemma UsersSame(bufs: Buffers, bufs': Buffers, b: int)
    requires OnePerBlock(bufs) && OnePerBlock(bufs')
    requires forall q :: q in bufs && bufs[q].blocknr == b ==> (q in bufs' && bufs'[q] == bufs[q]) || bufs[q].count == 0
    requires forall q :: q in bufs' && bufs'[q].blocknr == b ==> q in bufs && bufs[q] == bufs'[q]
    ensures Users(bufs', b) == Users(bufs, b)
  {
    if q :| q in bufs' && bufs'[q].blocknr == b {
      UsersOf(bufs', q);
      UsersOf(bufs, q);
    } else if q :| q in bufs && bufs[q].blocknr == b {
      UsersOf(bufs, q);
    }
  }

  /** Only unused clean buffers are gone, the others are as they were. */
  ghost predicate DroppedFree(bufs: Buffers, bufs': Buffers) {
    && (forall r :: r in bufs' ==> r in bufs && bufs'[r] == bufs[r])
    && (forall r :: r in bufs && r !in bufs' ==> bufs[r].Free())
  }

  lemma DropTwice(bufs0: Buffers, bufs: Buffers, bufs': Buffers)
    requires DroppedFree(bufs0, bufs) && DroppedFree(bufs, bufs')
    ensures DroppedFree(bufs0, bufs')
  {
  }

  /** The buffer lost one user; of the others at most unused clean ones are gone. */
  ghost predicate LetGo(bufs: Buffers, bufs': Buffers, r: Ref) {
    && r in bufs && r in bufs' && bufs'[r] == bufs[r].(count := bufs[r].count - 1)
    && (forall q :: q in bufs' && q != r ==> q in bufs && bufs'[q] == bufs[q])
    && (forall q :: q in bufs && q !in bufs' ==> bufs[q].Free())
  }

  lemma LetOneGo(bufs: Buffers, bufs1: Buffers, r: Ref)
    requires DroppedFree(bufs, bufs1) && r in bufs && bufs[r].count > 0
    ensures r in bufs1 && bufs1[r] == bufs[r] && LetGo(bufs, Counted(bufs1, r, -1), r)
  {
  }

  lemma LetGoHolds(bufs: Buffers, bufs': Buffers, r: Ref)
    requires OnePerBlock(bufs) && OnePerBlock(bufs') && LetGo(bufs, bufs', r)
    ensures Holding(bufs, bufs', bufs[r].blocknr, -1)
  {
    var block := bufs[r].blocknr;
    UsersOf(bufs, r);
    UsersOf(bufs', r);
    forall b | b != block
      ensures Users(bufs', b) == Users(bufs, b)
    {
      UsersSame(bufs, bufs', b);
    }
  }

  // ---------------------------------------------------------------- writing back

  /** Unused dirty buffers may have been written; the others and their blocks are as they were. */
  ghost predicate Synced(device: Device, device': Device, bufs: Buffers, bufs': Buffers) {
    && device'.Keys == device.Keys && bufs'.Keys == bufs.Keys
    && (forall r :: r in bufs ==>
          bufs'[r] == bufs[r] || (bufs[r].Waiting() && bufs'[r] == bufs[r].(dirty := false, uptodate := true)))
    && (forall r :: r in bufs && !bufs[r].Waiting() && bufs[r].blocknr in device ==>
          device'[bufs[r].blocknr] == device[bufs[r].blocknr])
  }

  /** One waiting buffer was written. */
  lemma SyncStep(device: Device, device': Device, bufs: Buffers, bufs': Buffers, r: Ref)
    requires OnePerBlock(bufs) && r in bufs && bufs[r].Waiting() && bufs[r].blocknr in device
    requires bufs' == bufs[r := bufs[r].(dirty := false, uptodate := true)]
    requires device' == device[bufs[r].blocknr := bufs[r].data]
    ensures Synced(device, device', bufs, bufs')
  {
  }

  lemma SyncTwice(device0: Device, device: Device, device': Device, bufs0: Buffers, bufs: Buffers, bufs': Buffers)
    requires Synced(device0, device, bufs0, bufs) && Synced(device, device', bufs, bufs')
    ensures Synced(device0, device', bufs0, bufs')
  {
    forall r | r in bufs0
      ensures bufs'[r] == bufs0[r] || (bufs0[r].Waiting() && bufs'[r] == bufs0[r].(dirty := false, uptodate := true))
    {
      assert bufs[r] == bufs0[r] || !bufs[r].Waiting();
    }
  }

  lemma SyncUsers(device: Device, device': Device, bufs: Buffers, bufs': Buffers)
    requires OnePerBlock(bufs) && OnePerBlock(bufs') && Synced(device, device', bufs, bufs')
    ensures forall b :: Users(bufs', b) == Users(bufs, b)
  {
    forall b
      ensures Users(bufs', b) == Users(bufs, b)
    {
      if q :| q in bufs && bufs[q].blocknr == b {
        UsersOf(bufs, q);
        UsersOf(bufs', q);
      }
    }
  }
}
