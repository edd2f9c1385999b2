/** The write-back block cache: shared blocks in a bounded queue in front of a device. Handles are counted, as the
    reference counts of the blocks are; the queue itself is one more reference. */
module BlockCache {
  import opened Bytes

  const SECTOR: nat := 512
  const CAPACITY: nat := 10

  type Sector = s: seq<Byte> | |s| == 512 witness seq(512, i => 0)

  /** `data` with the bytes from `off` on replaced by `bytes`. */
  function Splice(data: Sector, off: nat, bytes: seq<Byte>): (r: Sector)
    requires off + |bytes| <= SECTOR
  {
    data[..off] + bytes + data[off + |bytes|..]
  }

  class Device {
    var blocks: seq<Sector>

    constructor (blocks: seq<Sector>)
      ensures this.blocks == blocks
    {
      this.blocks := blocks;
    }

    method ReadBlock(id: nat) returns (s: Sector)
      requires id < |blocks|
      ensures s == blocks[id]
    {
      s := blocks[id];
    }

    method WriteBlock(id: nat, s: Sector)
      requires id < |blocks|
      modifies this`blocks
      ensures blocks == old(blocks)[id := s]
    {
      blocks := blocks[id := s];
    }
  }

  class Cached {
    const id: nat
    const dev: Device
    var data: Sector
    var modified: bool
    var handles: nat

    constructor (id: nat, dev: Device)
      requires id < |dev.blocks|
      ensures this.id == id && this.dev == dev && data == dev.blocks[id] && !modified && handles == 0
    {
      var block := dev.ReadBlock(id);
      this.id, this.dev, data := id, dev, block;
      modified, handles := false, 0;
    }

    /** Write the block back if it was modified. */
    method Sync()
      requires id < |dev.blocks|
      modifies this`modified, dev`blocks
      ensures !modified
      ensures dev.blocks == if old(modified) then old(dev.blocks)[id := data] else old(dev.blocks)
    {
      if modified {
        modified := false;
        dev.WriteBlock(id, data);
      }
    }
  }

  ghost predicate Holds(queue: seq<Cached>, id: nat) {
    exists b :: b in queue && b.id == id
  }

  class BlockCacheManager {
    const dev: Device
    var queue: seq<Cached>
    /** The logical disk: the device overlaid by the cached blocks. */
    ghost var disk: seq<Sector>

    ghost predicate Valid()
      reads this, dev, queue
    {
      && |queue| <= CAPACITY
      && |disk| == |dev.blocks|
      && (forall i, j :: 0 <= i < j < |queue| ==> queue[i].id != queue[j].id)
      && (forall b :: b in queue ==> b.dev == dev && b.id < |disk| && disk[b.id] == b.data)
      && (forall b :: b in queue && !b.modified ==> dev.blocks[b.id] == b.data)
      && (forall id :: 0 <= id < |disk| && !Holds(queue, id) ==> disk[id] == dev.blocks[id])
    }

    constructor (dev: Device)
      ensures Valid() && this.dev == dev && queue == [] && disk == dev.blocks
    {
      this.dev, queue, disk := dev, [], dev.blocks;
    }

    /** The cached block with this id, if there is one. */
    method Find(id: nat) returns (h: Cached?)
      requires Valid()
      ensures h == null <==> !Holds(queue, id)
      ensures h != null ==> h in queue && h.id == id
    {
      var i := 0;
      while i < |queue|
        invariant 0 <= i <= |queue|
        invariant forall j :: 0 <= j < i ==> queue[j].id != id
      {
        if queue[i].id == id {
          return queue[i];
        }
        i := i + 1;
      }
      return null;
    }

    /** The first block nobody holds; `|queue|` if all are held. */
    method FirstUnheld() returns (i: nat)
      ensures i <= |queue| && forall j :: 0 <= j < i ==> queue[j].handles > 0
      ensures i < |queue| ==> queue[i].handles == 0
    {
      i := 0;
      while i < |queue| && queue[i].handles > 0
        invariant i <= |queue| && forall j :: 0 <= j < i ==> queue[j].handles > 0
      {
        i := i + 1;
      }
    }

    /** Drain block `i`, which nobody holds: its destructor writes it back. */
    method Drain(i: nat)
      requires Valid() && i < |queue| && queue[i].handles == 0
      modifies this`queue, dev`blocks, queue`modified
      ensures Valid() && disk == old(disk)
      ensures queue == old(queue)[..i] + old(queue)[i + 1..] && old(queue)[i].id < |disk|
      ensures dev.blocks == old(dev.blocks)[old(queue)[i].id := disk[old(queue)[i].id]]
      ensures forall b :: b in queue <==> b in old(queue) && b != old(queue)[i]
      ensures forall b :: b in queue ==> b.modified == old(b.modified)
    {
      hide Holds;
      var victim := queue[i];
      assert victim in queue;
      victim.Sync();
      RemoveMembers(queue, i);
      RemovedHolds(queue, i);
      queue := queue[..i] + queue[i + 1..];
    }

    /** Load a block that is not cached. */
    method Load(id: nat) returns (h: Cached)
      requires Valid() && id < |disk| && !Holds(queue, id) && |queue| < CAPACITY
      modifies this`queue
      ensures Valid() && disk == old(disk) && fresh(h)
      ensures queue == old(queue) + [h] && h.id == id && h.data == disk[id] && h.handles == 0
      ensures !h.modified
    {
      h := new Cached(id, dev);
      assert forall b :: b in queue ==> b.id != id;
      queue := queue + [h];
      assert Holds(queue, id) by { assert h in queue; }
      assert forall k :: 0 <= k < |disk| && !Holds(queue, k) ==> !Holds(old(queue), k) by {
        forall k | 0 <= k < |disk| && Holds(old(queue), k) ensures Holds(queue, k) {
          var b :| b in old(queue) && b.id == k;
          assert b in queue;
        }
      }
    }

    /** Make room where the queue is full: the first block nobody holds is drained; false if all are held. */
    method MakeRoom() returns (ok: bool)
      requires Valid()
      modifies this`queue, dev`blocks, queue`modified
      ensures Valid() && disk == old(disk)
      ensures ok <==> |old(queue)| < CAPACITY || exists b :: b in old(queue) && b.handles == 0
      ensures |old(queue)| < CAPACITY || !ok ==> queue == old(queue) && dev.blocks == old(dev.blocks)
      ensures ok ==> |queue| < CAPACITY
      ensures ok && |old(queue)| == CAPACITY ==> Evicted(old(queue), queue, disk, old(dev.blocks), dev.blocks)
      ensures forall b :: b in queue ==> b.modified == old(b.modified)
      ensures forall b :: b in queue ==> b in old(queue)
      ensures forall b :: b in old(queue) && b.handles > 0 ==> b in queue
    {
      if |queue| < CAPACITY {
        return true;
      }
      var i := FirstUnheld();
      if i == |queue| {
        return false;
      }
      ok := true;
      assert queue[i] in queue;
      Drain(i);
    }

    /** Load a block that is not cached, evicting another where the queue is full; `null` if that cannot be. */
    method Fetch(id: nat) returns (h: Cached?)
      requires Valid() && id < |disk| && !Holds(queue, id)
      modifies this`queue, dev`blocks, queue`modified
      ensures Valid() && disk == old(disk)
      ensures h == null <==> |old(queue)| == CAPACITY && forall b :: b in old(queue) ==> b.handles > 0
      ensures h == null ==> queue == old(queue) && dev.blocks == old(dev.blocks)
      ensures h != null ==> fresh(h) && h in queue && h.id == id && h.data == disk[id] && h.handles == 0 && !h.modified
      ensures h != null && |old(queue)| < CAPACITY ==> queue == old(queue) + [h] && dev.blocks == old(dev.blocks)
      ensures h != null && |old(queue)| == CAPACITY ==>
                exists q :: queue == q + [h] && Evicted(old(queue), q, disk, old(dev.blocks), dev.blocks)
      ensures forall b :: b in queue ==> b in old(queue) || b == h
      ensures forall b :: b in old(queue) && b.handles > 0 ==> b in queue
      ensures forall b :: b in queue && b in old(queue) ==> b.modified == old(b.modified)
    {
      hide Holds, Evicted;
      var ok := MakeRoom();
      if !ok {
        return null;
      }
      NotHeld(old(queue), queue, id);
      h := Load(id);
    }

    /** Look the block up, loading it and evicting another where needed. `null` stands for the panic that follows when
        the queue is full and every block in it is held. The logical disk never changes. */
    method Get(id: nat) returns (h: Cached?)
      requires Valid() && id < |disk|
      modifies this`queue, dev`blocks, queue`modified, queue`handles
      ensures Valid() && disk == old(disk)
      ensures h == null <==>
                !Holds(old(queue), id) && |old(queue)| == CAPACITY && forall b :: b in old(queue) ==> old(b.handles) > 0
      ensures h != null ==> h in queue && h.id == id && h.data == disk[id]
      ensures h != null ==> h.handles == 1 + (if h in old(queue) then old(h.handles) else 0)
      ensures |queue| <= 10 && (|old(queue)| < 10 ==> h != null)
      ensures Holds(old(queue), id) || h == null ==> queue == old(queue) && dev.blocks == old(dev.blocks)
      ensures !Holds(old(queue), id) && |old(queue)| < CAPACITY ==>
                queue == old(queue) + [h] && dev.blocks == old(dev.blocks)
      ensures !Holds(old(queue), id) && |old(queue)| == CAPACITY && h != null ==>
                exists q :: queue == q + [h] && Evicted(old(queue), q, disk, old(dev.blocks), dev.blocks)
      ensures forall b :: b in queue && b in old(queue) ==> b.modified == old(b.modified)
      ensures forall b :: b in old(queue) && b != h ==> b.handles == old(b.handles)
      ensures forall b :: b in old(queue) && old(b.handles) > 0 ==> b in queue
      ensures forall b :: b in queue ==> b in old(queue) || b == h
      ensures h != null && h !in old(queue) ==> fresh(h) && !h.modified
    {
      hide Holds, Evicted;
      h := Find(id);
      if h == null {
        h := Fetch(id);
        if h == null {
          return;
        }
      }
      h.handles := h.handles + 1;
    }

    /** A modified block with this id is cached: whatever the device has of it will be overwritten. */
    ghost predicate Shadowed(id: nat)
      reads this, queue
    {
      exists b :: b in queue && b.id == id && b.modified
    }

    /** Give a handle back. With the last handle of a block that has outlived the queue its destructor runs, and writes
        it back if it was modified. Cache and device still stand for the same logical disk exactly where that does not
        run, or writes what the logical disk holds anyway, or a modified block is cached in its place. */
    method Release(h: Cached)
      requires Valid() && h.handles > 0 && h.dev == dev && h.id < |disk|
      modifies h`handles, h`modified, dev`blocks
      ensures h.handles == old(h.handles) - 1
      ensures h in queue || h.handles > 0 ==> h.modified == old(h.modified) && dev.blocks == old(dev.blocks)
      ensures h !in queue && h.handles == 0 ==>
                dev.blocks == if old(h.modified) then old(dev.blocks)[h.id := h.data] else old(dev.blocks)
      ensures Valid() <==>
                h in queue || h.handles > 0 || !old(h.modified) || h.data == disk[h.id] || old(Shadowed(h.id))
    {
      h.handles := h.handles - 1;
      if h.handles == 0 && h !in queue {
        Surviving(queue, h, disk, dev.blocks);
        h.Sync();
      }
    }

    /** Read bytes through a handle: what the logical disk holds. */
    method Read(h: Cached, off: nat, n: nat) returns (bytes: seq<Byte>)
      requires Valid() && h in queue && h.handles > 0 && off + n <= SECTOR
      ensures bytes == disk[h.id][off..off + n]
    {
      bytes := h.data[off..off + n];
    }

    /** Write bytes through a handle: exactly one block of the logical disk changes, none if the block has outlived the
        queue. */
    method Modify(h: Cached, off: nat, bytes: seq<Byte>)
      requires Valid() && h.handles > 0 && off + |bytes| <= SECTOR
      modifies h`data, h`modified, this`disk
      ensures Valid() && h.modified && h.data == Splice(old(h.data), off, bytes)
      ensures h in queue ==> disk == old(disk)[h.id := Splice(old(disk)[h.id], off, bytes)]
      ensures h !in queue ==> disk == old(disk)
    {
      h.modified := true;
      h.data := Splice(h.data, off, bytes);
      if h in queue {
        ghost var k :| 0 <= k < |queue| && queue[k] == h;
        disk := disk[h.id := h.data];
        assert forall i :: 0 <= i < |queue| && i != k ==> queue[i] != h && queue[i].id != h.id;
      }
    }

    ghost predicate NoHandles()
      reads this, queue
    {
      forall b :: b in queue ==> b.handles == 0
    }

    /** Look a block up, modify it and let it go: how file data is written. It never fails, as nothing is held between
        such accesses, and changes exactly one block of the logical disk. */
    method Patch(id: nat, off: nat, bytes: seq<Byte>)
      requires Valid() && NoHandles() && id < |disk| && off + |bytes| <= SECTOR
      modifies this`queue, this`disk, dev`blocks, queue
      ensures Valid() && NoHandles() && disk == old(disk)[id := Splice(old(disk)[id], off, bytes)]
      ensures forall b :: b in queue ==> b in old(queue) || fresh(b)
    {
      assert |queue| > 0 ==> queue[0] in queue;
      var h := Get(id);
      Modify(h, off, bytes);
      Release(h);
    }

    /** The destructors that run when the queue is cleared: a block nobody holds is written back. */
    method WriteBack()
      requires forall i, j :: 0 <= i < j < |queue| ==> queue[i].id != queue[j].id
      requires forall j :: 0 <= j < |queue| ==> queue[j].dev == dev && queue[j].id < |dev.blocks|
      requires forall j :: 0 <= j < |queue| && !queue[j].modified ==> dev.blocks[queue[j].id] == queue[j].data
      modifies dev`blocks, queue`modified
      ensures |dev.blocks| == |old(dev.blocks)|
      ensures forall j :: 0 <= j < |queue| ==>
                dev.blocks[queue[j].id] == if queue[j].handles == 0 then queue[j].data else old(dev.blocks)[queue[j].id]
      ensures forall id :: 0 <= id < |dev.blocks| && !Holds(queue, id) ==> dev.blocks[id] == old(dev.blocks)[id]
      ensures forall j :: 0 <= j < |queue| && queue[j].handles > 0 ==> queue[j].modified == old(queue[j].modified)
    {
      hide Holds;
      var i := 0;
      while i < |queue|
        invariant 0 <= i <= |queue| && |dev.blocks| == |old(dev.blocks)|
        invariant forall j :: 0 <= j < |queue| && (j >= i || queue[j].handles > 0) ==>
                    queue[j].modified == old(queue[j].modified)
        invariant forall j :: 0 <= j < |queue| ==>
                    dev.blocks[queue[j].id] ==
                    if j < i && queue[j].handles == 0 then queue[j].data else old(dev.blocks)[queue[j].id]
        invariant forall id :: 0 <= id < |dev.blocks| && !Holds(queue, id) ==> dev.blocks[id] == old(dev.blocks)[id]
      {
        var b := queue[i];
        if b.handles == 0 {
          HoldsOne(queue, i);
          b.Sync();
        }
        i := i + 1;
      }
    }

    /** What clearing the queue leaves on the device, block by block. */
    method Sweep()
      requires Valid()
      modifies dev`blocks, queue`modified
      ensures |dev.blocks| == |disk| && forall b :: b in queue ==> b.id < |disk|
      ensures forall b :: b in queue ==>
                dev.blocks[b.id] == if b.handles > 0 then old(dev.blocks)[b.id] else b.data
      ensures forall id :: 0 <= id < |disk| && !Holds(queue, id) ==> dev.blocks[id] == old(dev.blocks)[id]
      ensures forall b :: b in queue && b.handles > 0 ==> b.modified == old(b.modified)
    {
      hide Holds;
      assert forall j :: 0 <= j < |queue| ==> queue[j] in queue;
      WriteBack();
    }

    /** Empty the queue; a held block is not written back, its handle keeps it alive. So the device becomes the logical
        disk exactly when no held block differs from what the device has of it. */
    method DropAll()
      requires Valid()
      modifies this`queue, this`disk, dev`blocks, queue`modified
      ensures Valid() && queue == [] && disk == dev.blocks && |disk| == |old(disk)|
      ensures forall b :: b in old(queue) ==> b.id < |disk|
      ensures forall b :: b in old(queue) ==>
                dev.blocks[b.id] == if b.handles > 0 then old(dev.blocks)[b.id] else b.data
      ensures forall id :: 0 <= id < |disk| && !Holds(old(queue), id) ==> dev.blocks[id] == old(dev.blocks)[id]
      ensures forall b :: b in old(queue) && b.handles > 0 ==> b.modified == old(b.modified)
      ensures disk == old(disk) <==>
                forall b :: b in old(queue) && b.handles > 0 ==> old(dev.blocks)[b.id] == b.data
      ensures (forall b :: b in old(queue) ==> b.handles == 0) ==> dev.blocks == old(disk)
    {
      hide Holds;
      ghost var before := dev.blocks;
      Sweep();
      Flushed(disk, before, dev.blocks, queue);
      queue := [];
      disk := dev.blocks;
    }

    /** Empty the queue, then give all handles back with nothing in between: then the late destructors complete the
        flush, and the device becomes the logical disk although blocks were held. */
    method DropAllAndRelease()
      requires Valid()
      modifies this`queue, this`disk, dev`blocks, queue
      ensures Valid() && queue == [] && dev.blocks == disk == old(disk)
    {
      var blocks := queue;
      ghost var want := disk;
      DropAll();
      assert forall j :: 0 <= j < |blocks| ==> blocks[j] in blocks;
      assert Owed(blocks, 0, want, dev);
      LetAllGo(blocks, want);
    }

    /** Give back all handles of the blocks of a queue that has been emptied. */
    method LetAllGo(blocks: seq<Cached>, ghost want: seq<Sector>)
      requires Valid() && queue == [] && disk == dev.blocks && Owed(blocks, 0, want, dev)
      modifies this`disk, dev`blocks, blocks`handles, blocks`modified
      ensures Valid() && disk == dev.blocks == want
    {
      hide Owed;
      var i := 0;
      while i < |blocks|
        invariant 0 <= i <= |blocks| && queue == [] && disk == dev.blocks && Valid() && Owed(blocks, i, want, dev)
      {
        LetGo(blocks[i], blocks, i, want);
        i := i + 1;
      }
      Settled(blocks, want, dev);
    }

    /** Give back all handles of one block that has outlived the queue. */
    method LetGo(b: Cached, ghost blocks: seq<Cached>, ghost i: nat, ghost want: seq<Sector>)
      requires Valid() && queue == [] && disk == dev.blocks && i < |blocks| && b == blocks[i]
      requires Owed(blocks, i, want, dev)
      modifies this`disk, dev`blocks, b`handles, b`modified
      ensures Valid() && disk == dev.blocks && Owed(blocks, i + 1, want, dev)
    {
      hide Owed;
      OwedOne(blocks, i, want, dev);
      while b.handles > 0
        invariant queue == [] && disk == dev.blocks && Valid() && Owed(blocks, i, want, dev)
        invariant b.dev == dev && b.id < |disk|
        decreases b.handles
      {
        LetOneGo(b, blocks, i, want);
      }
      OwedNext(blocks, i, want, dev);
    }

    /** Give back one of them. */
    method LetOneGo(b: Cached, ghost blocks: seq<Cached>, ghost i: nat, ghost want: seq<Sector>)
      requires Valid() && queue == [] && i < |blocks| && b == blocks[i] && b.handles > 0 && Owed(blocks, i, want, dev)
      modifies this`disk, dev`blocks, b`handles, b`modified
      ensures Valid() && disk == dev.blocks && Owed(blocks, i, want, dev) && b.handles == old(b.handles) - 1
      ensures |disk| == |old(disk)|
    {
      OwedOne(blocks, i, want, dev);
      Release(b);
      disk := dev.blocks;
    }
  }

  /** `q` without its first block nobody holds, which has been written to the device. */
  ghost predicate Evicted(q: seq<Cached>, r: seq<Cached>, disk: seq<Sector>, before: seq<Sector>, after: seq<Sector>)
    reads q
  {
    exists i ::
      && 0 <= i < |q| && q[i].handles == 0 && (forall j :: 0 <= j < i ==> q[j].handles > 0)
      && r == q[..i] + q[i + 1..]
      && q[i].id < |disk| == |before| && after == before[q[i].id := disk[q[i].id]]
  }

  /** The invariant with block `h`, which is not in the queue, written to the device. */
  lemma {:induction false} Surviving(queue: seq<Cached>, h: Cached, disk: seq<Sector>, blocks: seq<Sector>)
    requires h.id < |disk| == |blocks| && forall i, j :: 0 <= i < j < |queue| ==> queue[i].id != queue[j].id
    requires forall b :: b in queue ==> b.id < |disk| && disk[b.id] == b.data
    requires forall b :: b in queue && !b.modified ==> blocks[b.id] == b.data
    requires forall id :: 0 <= id < |disk| && !Holds(queue, id) ==> disk[id] == blocks[id]
    ensures var after := blocks[h.id := h.data];
            && (forall b :: b in queue && !b.modified ==> after[b.id] == b.data)
            && (forall id :: 0 <= id < |disk| && !Holds(queue, id) ==> disk[id] == after[id])
            <==> h.data == disk[h.id] || exists b :: b in queue && b.id == h.id && b.modified
  {
    var after := blocks[h.id := h.data];
    if Holds(queue, h.id) {
      var b :| b in queue && b.id == h.id;
      assert !b.modified ==> disk[h.id] == b.data;
      assert forall o :: o in queue && o != b ==> o.id != h.id;
    }
  }

  lemma {:induction false} NotHeld(q: seq<Cached>, r: seq<Cached>, id: nat)
    requires !Holds(q, id) && forall b :: b in r ==> b in q
    ensures !Holds(r, id)
  {
  }

  lemma {:induction false} RemoveMembers(q: seq<Cached>, i: nat)
    requires i < |q| && forall k, j :: 0 <= k < j < |q| ==> q[k].id != q[j].id
    ensures var r := q[..i] + q[i + 1..];
            forall b :: b in r <==> b in q && b != q[i]
    ensures var r := q[..i] + q[i + 1..];
            forall k, j :: 0 <= k < j < |r| ==> r[k].id != r[j].id
  {
    var r := q[..i] + q[i + 1..];
    assert forall k :: 0 <= k < |r| ==> r[k] == q[if k < i then k else k + 1];
    forall b | b in q && b != q[i] ensures b in r {
      var k :| 0 <= k < |q| && q[k] == b;
      assert r[if k < i then k else k - 1] == b;
    }
  }

  lemma {:induction false} HoldsOne(q: seq<Cached>, i: nat)
    requires i < |q|
    ensures Holds(q, q[i].id)
  {
  }

  lemma {:induction false} RemovedHolds(q: seq<Cached>, i: nat)
    requires i < |q|
    ensures forall id :: Holds(q, id) ==> Holds(q[..i] + q[i + 1..], id) || id == q[i].id
  {
    var r := q[..i] + q[i + 1..];
    forall id | Holds(q, id) && id != q[i].id ensures Holds(r, id) {
      var k :| 0 <= k < |q| && q[k].id == id;
      assert r[if k < i then k else k - 1] == q[k];
    }
  }

  /** The device after a flush, block by block, against the logical disk before it. */
  lemma {:induction false} Flushed(disk: seq<Sector>, before: seq<Sector>, after: seq<Sector>, q: seq<Cached>)
    requires |disk| == |before| == |after|
    requires forall b :: b in q ==> b.id < |disk| && disk[b.id] == b.data
    requires forall id :: 0 <= id < |disk| && !Holds(q, id) ==> disk[id] == before[id] == after[id]
    requires forall b :: b in q && b.handles == 0 ==> after[b.id] == b.data
    requires forall b :: b in q && b.handles > 0 ==> after[b.id] == before[b.id]
    ensures after == disk <==> forall b :: b in q && b.handles > 0 ==> before[b.id] == b.data
  {
    if forall b :: b in q && b.handles > 0 ==> before[b.id] == b.data {
      forall id | 0 <= id < |disk| ensures after[id] == disk[id] {
        if Holds(q, id) {
          var b :| b in q && b.id == id;
        }
      }
    }
  }

  // ---------- blocks that outlive the queue ----------

  /** What is left of a flush after which the first `i` of these blocks have been let go. */
  ghost predicate Owed(blocks: seq<Cached>, i: nat, want: seq<Sector>, dev: Device)
    reads blocks, dev
  {
    && |dev.blocks| == |want|
    && (forall j, k :: 0 <= j < k < |blocks| ==> blocks[j].id != blocks[k].id)
    && (forall j :: 0 <= j < |blocks| ==>
          && blocks[j].dev == dev && blocks[j].id < |want| && blocks[j].data == want[blocks[j].id]
          && (j < i || blocks[j].handles == 0 || !blocks[j].modified ==> dev.blocks[blocks[j].id] == blocks[j].data))
    && (forall id :: 0 <= id < |want| && !Holds(blocks, id) ==> dev.blocks[id] == want[id])
  }

  lemma {:induction false} OwedOne(blocks: seq<Cached>, i: nat, want: seq<Sector>, dev: Device)
    requires i < |blocks| && Owed(blocks, i, want, dev)
    ensures |dev.blocks| == |want| && blocks[i].dev == dev && blocks[i].id < |want|
  {
  }

  lemma {:induction false} OwedNext(blocks: seq<Cached>, i: nat, want: seq<Sector>, dev: Device)
    requires i < |blocks| && Owed(blocks, i, want, dev) && blocks[i].handles == 0
    ensures Owed(blocks, i + 1, want, dev)
  {
  }

  lemma {:induction false} Settled(blocks: seq<Cached>, want: seq<Sector>, dev: Device)
    requires Owed(blocks, |blocks|, want, dev)
    ensures dev.blocks == want
  {
    forall id | 0 <= id < |want| ensures dev.blocks[id] == want[id] {
      if Holds(blocks, id) {
        var b :| b in blocks && b.id == id;
      }
    }
  }

  /** A held block is not flushed: the device still lacks what was written through the handle. */
  method FlushWhileHeld(dev: Device, x: Byte) returns (cache: BlockCacheManager, a: Cached, ghost before: seq<Sector>)
    requires |dev.blocks| > 0 && dev.blocks[0][0] != x
    modifies dev`blocks
    ensures cache.Valid() && cache.queue == [] && cache.dev == dev && fresh(cache) && fresh(a)
    ensures |before| == |dev.blocks| > 0 && before[0][0] == x
    ensures a.id == 0 && a.dev == dev && a.handles == 1 && a.modified && a.data == before[0]
    ensures cache.disk == dev.blocks == old(dev.blocks) && cache.disk != before
  {
    cache := new BlockCacheManager(dev);
    a := cache.Get(0);
    cache.Modify(a, 0, [x]);
    before := cache.disk;
    cache.DropAll();
  }

  /** The handle kept across the flush is given back after newer data has been flushed, and the older data replaces it.
      */
  method LateWriteBack(dev: Device, x: Byte, y: Byte) returns (cache: BlockCacheManager, newer: seq<Sector>)
    requires |dev.blocks| > 0 && dev.blocks[0][0] != x && x != y
    modifies dev`blocks
    ensures |newer| == |dev.blocks| > 0 && newer[0][0] == y && dev.blocks[0][0] == x
    ensures cache.dev == dev && cache.queue == [] && cache.disk == newer && !cache.Valid()
  {
    var held, a, _ := FlushWhileHeld(dev, x);
    cache := held;
    var b := cache.Get(0);
    cache.Modify(b, 0, [y]);
    cache.Release(b);
    cache.DropAll();
    newer := dev.blocks;
    cache.Release(a);
  }
}
