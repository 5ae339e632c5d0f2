/**
 The state of the write-back buffer cache: buffers, the list of free buffers, the list of dirty
 ones, and the map from block numbers to data that the cache stands for.
 */
module BufferState {
  import opened RbShape
  import opened Addresses

  newtype Byte = x: int | 0 <= x < 256
  type Bytes = seq<Byte>

  /** A buffer head: the block it stands for, its data, its users and its state bits. */
  datatype Buffer = Buffer(blocknr: int, data: Bytes, count: int, uptodate: bool, dirty: bool) {
    predicate Free() {
      count == 0 && !dirty
    }

    predicate Waiting() {
      count == 0 && dirty
    }
  }

  type Buffers = map<Ref, Buffer>
  type Device = map<int, Bytes>

  /** The free list holds the unused clean buffers, the dirty list the unused dirty ones. */
  ghost predicate Listed(bufs: Buffers, free: seq<Ref>, dirty: seq<Ref>) {
    && NoDup(free) && NoDup(dirty)
    && (forall r {:trigger r in free} :: r in free ==> r in bufs && bufs[r].Free())
    && (forall r {:trigger bufs[r].Free()} :: r in bufs && bufs[r].Free() ==> r in free)
    && (forall r {:trigger r in dirty} :: r in dirty ==> r in bufs && bufs[r].Waiting())
    && (forall r {:trigger bufs[r].Waiting()} :: r in bufs && bufs[r].Waiting() ==> r in dirty)
  }

  /** No two buffers stand for the same block. */
  ghost predicate OnePerBlock(bufs: Buffers) {
    forall r, q {:trigger bufs[r].blocknr, bufs[q].blocknr} :: r in bufs && q in bufs && r != q ==> bufs[r].blocknr != bufs[q].blocknr
  }

  /** The block has no buffer. */
  ghost predicate NoBuffer(bufs: Buffers, b: int) {
    forall r :: r in bufs ==> bufs[r].blocknr != b
  }

  ghost predicate HasDirty(bufs: Buffers, b: int) {
    exists r :: r in bufs && bufs[r].dirty && bufs[r].blocknr == b
  }

  ghost predicate GoodBuffer(device: Device, b: Buffer, view: Device)
    requires view.Keys == device.Keys
  {
    && b.count >= 0 && b.blocknr in device
    && (b.dirty ==> b.uptodate)
    && (b.uptodate ==> b.data == view[b.blocknr])
    && (!b.dirty ==> view[b.blocknr] == device[b.blocknr])
  }

  /** The cache over the device stands for the map `view`. */
  ghost predicate StandsFor(device: Device, bufs: Buffers, view: Device) {
    && view.Keys == device.Keys
    && (forall r {:trigger bufs[r]} :: r in bufs ==> GoodBuffer(device, bufs[r], view))
    && (forall b {:trigger HasDirty(bufs, b)} :: b in device && !HasDirty(bufs, b) ==> view[b] == device[b])
  }

  /** Everything the cache keeps about its buffers, besides the tree. */
  ghost predicate Sound(device: Device, bufs: Buffers, view: Device, free: seq<Ref>, nrFree: int, dirty: seq<Ref>, dirtyCount: int) {
    && OnePerBlock(bufs) && Listed(bufs, free, dirty) && StandsFor(device, bufs, view)
    && nrFree == |free| && dirtyCount == |dirty|
  }

  /** What the cache stands for is determined by the device and the buffers. */
  lemma OneView(device: Device, bufs: Buffers, v: Device, w: Device)
    requires StandsFor(device, bufs, v) && StandsFor(device, bufs, w)
    ensures v == w
  {
    forall b | b in device
      ensures v[b] == w[b]
    {
      if HasDirty(bufs, b) {
        var r :| r in bufs && bufs[r].dirty && bufs[r].blocknr == b;
        assert GoodBuffer(device, bufs[r], v) && GoodBuffer(device, bufs[r], w);
      }
    }
  }

  // ---------------------------------------------------------------- lists

  /** `t` is the list `s` with `x` taken out, if it is there. */
  ghost predicate Deleted(s: seq<Ref>, x: Ref, t: seq<Ref>) {
    && NoDup(t)
    && |t| == (if x in s then |s| - 1 else |s|)
    && (forall r {:trigger r in t} :: r in t ==> r in s && r != x)
    && (forall r {:trigger r in s} :: r in s && r != x ==> r in t)
  }

  /** The list without its first entry `x`, the others in order. */
  function Without<T(==)>(s: seq<T>, x: T): seq<T> {
    if s == [] then [] else if s[0] == x then s[1..] else [s[0]] + Without(s[1..], x)
  }

  lemma {:induction false} WithoutAt<T>(s: seq<T>, x: T, i: nat)
    requires i <= |s| && (forall k :: 0 <= k < i ==> s[k] != x) && (i < |s| ==> s[i] == x)
    ensures Without(s, x) == if i < |s| then s[..i] + s[i + 1..] else s
  {
    if i > 0 {
      var t := s[1..];
      WithoutAt(t, x, i - 1);
      assert s[..i] == [s[0]] + t[..i - 1];
      if i < |s| {
        assert s[i + 1..] == t[i..];
      } else {
        assert s == [s[0]] + t;
      }
    }
  }

  lemma NotListed(bufs: Buffers, free: seq<Ref>, dirty: seq<Ref>, r: Ref)
    requires Listed(bufs, free, dirty) && r !in bufs
    ensures Without(dirty, r) == dirty
  {
    assert r !in dirty;
    WithoutAt(dirty, r, |dirty|);
  }

  /** Takes an entry out of a list. */
  method Delete(s: seq<Ref>, x: Ref) returns (t: seq<Ref>)
    requires NoDup(s)
    ensures Deleted(s, x, t) && t == Without(s, x)
  {
    var i := 0;
    while i < |s| && s[i] != x
      invariant 0 <= i <= |s| && x !in s[..i]
    {
      i := i + 1;
    }
    WithoutAt(s, x, i);
    if i == |s| {
      assert s[..i] == s;
      t := s;
    } else {
      t := s[..i] + s[i + 1..];
      assert s == s[..i] + [x] + s[i + 1..];
    }
  }

  lemma AddLast(s: seq<Ref>, x: Ref)
    requires NoDup(s) && x !in s
    ensures NoDup(s + [x]) && forall r :: r in s + [x] <==> r in s || r == x
  {
  }

  // ---------------------------------------------------------------- one buffer changes

  /** The buffers with `n` more users of `r`. */
  function Counted(bufs: Buffers, r: Ref, n: int): Buffers
    requires r in bufs
  {
    bufs[r := bufs[r].(count := bufs[r].count + n)]
  }

  /** A buffer is taken: it leaves both lists. */
  lemma Taken(device: Device, bufs: Buffers, view: Device, free: seq<Ref>, nf: int, dirty: seq<Ref>, nd: int, r: Ref,
              free': seq<Ref>, dirty': seq<Ref>)
    requires Sound(device, bufs, view, free, nf, dirty, nd) && r in bufs
    requires Deleted(free, r, free') && Deleted(dirty, r, dirty')
    ensures var bufs' := Counted(bufs, r, 1);
            Sound(device, bufs', view, free', if r in free then nf - 1 else nf,
                  dirty', if r in dirty then nd - 1 else nd)
    ensures bufs[r].count >= 0
  {
    var bufs' := Counted(bufs, r, 1);
    SameDirty(bufs, bufs', r);
    assert GoodBuffer(device, bufs[r], view);
  }

  lemma SameDirty(bufs: Buffers, bufs': Buffers, r: Ref)
    requires r in bufs && r in bufs' && bufs' == bufs[r := bufs'[r]]
    requires bufs'[r].dirty == bufs[r].dirty && bufs'[r].blocknr == bufs[r].blocknr
    ensures forall b :: HasDirty(bufs, b) <==> HasDirty(bufs', b)
  {
    forall b
      ensures HasDirty(bufs, b) <==> HasDirty(bufs', b)
    {
      if HasDirty(bufs, b) {
        var q :| q in bufs && bufs[q].dirty && bufs[q].blocknr == b;
        assert q in bufs' && bufs'[q].dirty && bufs'[q].blocknr == b;
      }
      if HasDirty(bufs', b) {
        var q :| q in bufs' && bufs'[q].dirty && bufs'[q].blocknr == b;
        assert q in bufs && bufs[q].dirty && bufs[q].blocknr == b;
      }
    }
  }

  /** Changing the buffer of another block leaves a dirty block dirty. */
  lemma DirtyElsewhere(bufs: Buffers, bufs': Buffers, r: Ref, b: int)
    requires forall q :: q in bufs && q != r ==> q in bufs' && bufs'[q] == bufs[q]
    ensures HasDirty(bufs, b) && (r in bufs ==> bufs[r].blocknr != b) ==> HasDirty(bufs', b)
  {
    if HasDirty(bufs, b) && (r in bufs ==> bufs[r].blocknr != b) {
      var q :| q in bufs && bufs[q].dirty && bufs[q].blocknr == b;
      assert q in bufs' && bufs'[q].dirty && bufs'[q].blocknr == b;
    }
  }

  /** A buffer is given back by its last user, or by one of several. */
  lemma Released(device: Device, bufs: Buffers, view: Device, free: seq<Ref>, nf: int, dirty: seq<Ref>, nd: int, r: Ref)
    requires Sound(device, bufs, view, free, nf, dirty, nd) && r in bufs && bufs[r].count > 0
    ensures var bufs' := Counted(bufs, r, -1);
            Sound(device, bufs', view, if bufs'[r].Free() then free + [r] else free, if bufs'[r].Free() then nf + 1 else nf,
                  if bufs'[r].Waiting() then dirty + [r] else dirty, if bufs'[r].Waiting() then nd + 1 else nd)
  {
    var bufs' := Counted(bufs, r, -1);
    SameDirty(bufs, bufs', r);
    assert GoodBuffer(device, bufs[r], view);
    AddLast(free, r);
    AddLast(dirty, r);
  }

  /** A new buffer for a block that has none. */
  lemma Added(device: Device, bufs: Buffers, view: Device, free: seq<Ref>, nf: int, dirty: seq<Ref>, nd: int, r: Ref, b: Buffer)
    requires Sound(device, bufs, view, free, nf, dirty, nd) && r !in bufs
    requires forall q :: q in bufs ==> bufs[q].blocknr != b.blocknr
    requires b.blocknr in device && b.count > 0 && !b.uptodate && !b.dirty
    ensures Sound(device, bufs[r := b], view, free, nf, dirty, nd)
  {
    var bufs' := bufs[r := b];
    assert !HasDirty(bufs, b.blocknr);
    forall k
      ensures HasDirty(bufs, k) <==> HasDirty(bufs', k)
    {
      if HasDirty(bufs, k) {
        var q :| q in bufs && bufs[q].dirty && bufs[q].blocknr == k;
        assert q in bufs' && bufs'[q].dirty && bufs'[q].blocknr == k;
      }
    }
  }

  /** A buffer that needs it is filled from the device. */
  lemma Filled(device: Device, bufs: Buffers, view: Device, free: seq<Ref>, nf: int, dirty: seq<Ref>, nd: int, r: Ref)
    requires Sound(device, bufs, view, free, nf, dirty, nd)
    requires r in bufs && bufs[r].count > 0 && !bufs[r].uptodate && bufs[r].blocknr in device
    ensures var b' := bufs[r].(data := device[bufs[r].blocknr], uptodate := true, dirty := false);
            var bufs' := bufs[r := b'];
            && Sound(device, bufs', view, free, nf, dirty, nd)
            && b'.data == view[b'.blocknr] && bufs[r].blocknr in view
  {
    assert GoodBuffer(device, bufs[r], view);
    var bufs' := bufs[r := bufs[r].(data := device[bufs[r].blocknr], uptodate := true, dirty := false)];
    SameDirty(bufs, bufs', r);
  }

  /** A user stores data in a buffer and marks it dirty: the map changes at its block. */
  lemma Stored(device: Device, bufs: Buffers, view: Device, free: seq<Ref>, nf: int, dirty: seq<Ref>, nd: int, r: Ref, data: Bytes)
    requires Sound(device, bufs, view, free, nf, dirty, nd)
    requires r in bufs && bufs[r].count > 0
    ensures var bufs' := bufs[r := bufs[r].(data := data, uptodate := true, dirty := true)];
            Sound(device, bufs', view[bufs[r].blocknr := data], free, nf, dirty, nd)
  {
    var k := bufs[r].blocknr;
    var bufs', view' := bufs[r := bufs[r].(data := data, uptodate := true, dirty := true)], view[k := data];
    assert GoodBuffer(device, bufs[r], view);
    assert bufs'[r].dirty && bufs'[r].blocknr == k && HasDirty(bufs', k);
    forall b | b in device && !HasDirty(bufs', b)
      ensures view'[b] == device[b]
    {
      DirtyElsewhere(bufs, bufs', r, b);
    }
    forall q | q in bufs'
      ensures GoodBuffer(device, bufs'[q], view')
    {
      assert GoodBuffer(device, bufs[q], view);
    }
  }

  /** An unused dirty buffer is written to the device: it becomes free, and the map stays. */
  lemma Written(device: Device, bufs: Buffers, view: Device, free: seq<Ref>, nf: int, dirty: seq<Ref>, nd: int, r: Ref,
                dirty': seq<Ref>)
    requires Sound(device, bufs, view, free, nf, dirty, nd)
    requires r in dirty && Deleted(dirty, r, dirty')
    ensures r in bufs && r !in free
    ensures var device' := device[bufs[r].blocknr := bufs[r].data];
            var bufs' := bufs[r := bufs[r].(dirty := false, uptodate := true)];
            Sound(device', bufs', view, free + [r], nf + 1, dirty', nd - 1)
  {
    var k := bufs[r].blocknr;
    var device', bufs' := device[k := bufs[r].data], bufs[r := bufs[r].(dirty := false, uptodate := true)];
    AddLast(free, r);
    assert GoodBuffer(device, bufs[r], view);
    forall q | q in bufs'
      ensures GoodBuffer(device', bufs'[q], view)
    {
      assert GoodBuffer(device, bufs[q], view);
    }
    forall b | b in device' && !HasDirty(bufs', b)
      ensures view[b] == device'[b]
    {
      DirtyElsewhere(bufs, bufs', r, b);
    }
  }

  /** A clean buffer is dropped: the map stays. */
  lemma Dropped(device: Device, bufs: Buffers, view: Device, free: seq<Ref>, nf: int, dirty: seq<Ref>, nd: int, r: Ref,
                free': seq<Ref>)
    requires Sound(device, bufs, view, free, nf, dirty, nd)
    requires r in free && Deleted(free, r, free')
    ensures r in bufs && Sound(device, bufs - {r}, view, free', nf - 1, dirty, nd)
  {
    var bufs' := bufs - {r};
    forall b
      ensures HasDirty(bufs, b) <==> HasDirty(bufs', b)
    {
      if HasDirty(bufs, b) {
        var q :| q in bufs && bufs[q].dirty && bufs[q].blocknr == b;
        assert q in bufs' && bufs'[q].dirty && bufs'[q].blocknr == b;
      }
    }
  }
}
