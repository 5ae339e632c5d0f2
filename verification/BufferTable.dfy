/** The buffers of a block device with their free and dirty lists. */
module BufferTable {
  import opened RbShape
  import opened BufferState
  import opened Addresses

  class Table {
    var device: Device
    var bufs: Buffers
    var free: seq<Ref>
    var nrFree: int
    var dirty: seq<Ref>
    var dirtyCount: int
    /* the map from blocks to data that device and buffers stand for */
    ghost var view: Device

    ghost predicate Valid()
      reads this
    {
      Sound(device, bufs, view, free, nrFree, dirty, dirtyCount)
    }

    constructor (device: Device)
      ensures Valid() && view == device && this.device == device && bufs == map[]
    {
      this.device, bufs, free, nrFree, dirty, dirtyCount := device, map[], [], 0, [], 0;
      view := device;
    }

    /** Adds a buffer for a block that has none; it has no data yet and is held once. */
    method Add(r: Ref, block: int)
      requires Valid() && r !in bufs && block in device && NoBuffer(bufs, block)
      modifies this`bufs
      ensures Valid() && bufs == old(bufs)[r := Buffer(block, [], 1, false, false)]
    {
      Added(device, bufs, view, free, nrFree, dirty, dirtyCount, r, Buffer(block, [], 1, false, false));
      bufs := bufs[r := Buffer(block, [], 1, false, false)];
    }

    /** Takes a buffer off the lists and holds it. */
    method Take(r: Ref)
      requires Valid() && r in bufs
      modifies this`bufs, this`free, this`nrFree, this`dirty, this`dirtyCount
      ensures Valid()
      ensures bufs == Counted(old(bufs), r, 1) && bufs[r].count > 0
      ensures free == Without(old(free), r) && dirty == Without(old(dirty), r)
    {
      var free' := Delete(free, r);
      var dirty' := Delete(dirty, r);
      bufs := Counted(bufs, r, 1);
      nrFree := if r in free then nrFree - 1 else nrFree;
      dirtyCount := if r in dirty then dirtyCount - 1 else dirtyCount;
      free, dirty := free', dirty';
      Taken(device, old(bufs), view, old(free), old(nrFree), old(dirty), old(dirtyCount), r, free', dirty');
    }

    /** Fills a held buffer from the device, unless it has valid data. */
    method SubmitRead(r: Ref)
      requires Valid() && r in bufs && bufs[r].count > 0
      modifies this`bufs
      ensures Valid() && OnlyAt(old(bufs), bufs, r)
      ensures bufs[r].blocknr in view && bufs[r].data == view[bufs[r].blocknr] && bufs[r].uptodate
      ensures bufs[r].count == old(bufs)[r].count && bufs[r].dirty == old(bufs)[r].dirty
    {
      assert GoodBuffer(device, bufs[r], view);
      if bufs[r].uptodate {
        return;
      }
      BufferState.Filled(device, bufs, view, free, nrFree, dirty, dirtyCount, r);
      var b := bufs[r];
      bufs := bufs[r := b.(data := device[b.blocknr], uptodate := true, dirty := false)];
    }

    /** A holder stores data in a buffer and marks it dirty. */
    method Store(r: Ref, data: Bytes)
      requires Valid() && r in bufs && bufs[r].count > 0
      modifies this`bufs, this`view
      ensures Valid() && bufs == old(bufs)[r := old(bufs)[r].(data := data, uptodate := true, dirty := true)]
      ensures view == old(view)[bufs[r].blocknr := data]
    {
      Stored(device, bufs, view, free, nrFree, dirty, dirtyCount, r, data);
      var b := bufs[r];
      bufs := bufs[r := b.(data := data, uptodate := true, dirty := true)];
      view := view[b.blocknr := data];
    }

    /** Gives back a buffer; the last user puts it on the list it belongs to. */
    method Release(r: Ref)
      requires Valid() && r in bufs && bufs[r].count > 0
      modifies this`bufs, this`free, this`nrFree, this`dirty, this`dirtyCount
      ensures Valid() && bufs == Counted(old(bufs), r, -1)
      ensures free == if bufs[r].Free() then old(free) + [r] else old(free)
      ensures dirty == if bufs[r].Waiting() then old(dirty) + [r] else old(dirty)
    {
      Released(device, bufs, view, free, nrFree, dirty, dirtyCount, r);
      bufs := Counted(bufs, r, -1);
      if bufs[r].count >= 1 {
        return;
      }
      if !bufs[r].dirty {
        free, nrFree := free + [r], nrFree + 1;
      } else {
        dirty, dirtyCount := dirty + [r], dirtyCount + 1;
      }
    }

    /** Takes the first buffer off the dirty list and writes it to the device. */
    method SyncFirst() returns (ghost r: Ref)
      requires Valid() && dirty != []
      modifies this`device, this`bufs, this`free, this`nrFree, this`dirty, this`dirtyCount
      ensures Valid() && r in old(bufs) && old(bufs)[r].Waiting()
      ensures bufs == old(bufs)[r := old(bufs)[r].(dirty := false, uptodate := true)]
      ensures device == old(device)[old(bufs)[r].blocknr := old(bufs)[r].data]
      ensures r == old(dirty)[0] && dirty == old(dirty)[1..] && free == old(free) + [r]
    {
      var cur := dirty[0];
      r := cur;
      DeleteFirst(dirty);
      Written(device, bufs, view, free, nrFree, dirty, dirtyCount, cur, dirty[1..]);
      var b := bufs[cur];
      dirty, dirtyCount := dirty[1..], dirtyCount - 1;
      // the buffer is unused and dirty, so it is written and becomes free
      device := device[b.blocknr := b.data];
      bufs := bufs[cur := b.(dirty := false, uptodate := true)];
      free, nrFree := free + [cur], nrFree + 1;
    }

    /** Takes the first buffer off the free list and forgets it. */
    method DropFirst() returns (r: Ref)
      requires Valid() && free != []
      modifies this`bufs, this`free, this`nrFree
      ensures Valid() && r in old(bufs) && old(bufs)[r].Free() && bufs == old(bufs) - {r}
      ensures r == old(free)[0] && free == old(free)[1..]
    {
      r := free[0];
      DeleteFirst(free);
      Dropped(device, bufs, view, free, nrFree, dirty, dirtyCount, r, free[1..]);
      bufs := bufs - {r};
      free, nrFree := free[1..], nrFree - 1;
    }
  }

  lemma DeleteFirst(s: seq<Ref>)
    requires NoDup(s) && s != []
    ensures Deleted(s, s[0], s[1..])
  {
    assert s == [s[0]] + s[1..];
  }

  /** Only the buffer `r` may differ, and it stands for the same block. */
  ghost predicate OnlyAt(bufs: Buffers, bufs': Buffers, r: Ref) {
    && r in bufs && r in bufs' && bufs' == bufs[r := bufs'[r]] && bufs'[r].blocknr == bufs[r].blocknr
  }
}
