/**
 The pool allocator of mempool.c: pools are found by handle, hold blocks of memory, and hand out
 ranges first fit.  Memory is freed only by destroying a whole pool, whose handle is reused.
 A range is named by its block and its offset in it; separate blocks are separate memory.
 */
module MemPool {

  class Block {
    const size: nat
    var pos: nat              // the bytes before it are handed out
    ghost const owner: Pool
    ghost const place: nat    // index in the owner's list of blocks

    constructor (size: nat, pos: nat, ghost owner: Pool, ghost place: nat)
      ensures this.size == size && this.pos == pos && this.owner == owner && this.place == place
    {
      this.size := size;
      this.pos := pos;
      this.owner := owner;
      this.place := place;
    }
  }

  class Pool {
    const blockSize: nat
    ghost const handle: nat
    var blocks: seq<Block>

    constructor (blockSize: nat, ghost handle: nat)
      ensures this.blockSize == blockSize && this.handle == handle && blocks == []
    {
      this.blockSize := blockSize;
      this.handle := handle;
      blocks := [];
    }
  }

  datatype Pointer = Pointer(block: Block, offset: nat)

  /** A range that is handed out: by which pool, where, and how many bytes were asked for. */
  datatype Grant = Grant(id: nat, ptr: Pointer, size: nat) {
    function End(): nat {
      ptr.offset + RoundUp(size)
    }
  }

  /** `(size + 7) & ~7` */
  function RoundUp(size: nat): (r: nat)
    ensures size <= r < size + 8 && r % 8 == 0
  {
    (size + 7) / 8 * 8
  }

  ghost predicate Disjoint(g: Grant, h: Grant) {
    g.ptr.block == h.ptr.block ==> g.End() <= h.ptr.offset || h.End() <= g.ptr.offset
  }

  ghost predicate PairwiseDisjoint(grants: seq<Grant>) {
    forall i, j :: 0 <= i < j < |grants| ==> Disjoint(grants[i], grants[j])
  }

  /** The grants of the pools other than `id`, in order. */
  ghost function Without(grants: seq<Grant>, id: nat): (r: seq<Grant>)
    ensures forall k :: 0 <= k < |r| ==> r[k] in grants && r[k].id != id
    ensures forall k :: 0 <= k < |grants| && grants[k].id != id ==> grants[k] in r
  {
    if grants == [] then []
    else Without(grants[..|grants| - 1], id) +
         (if grants[|grants| - 1].id == id then [] else [grants[|grants| - 1]])
  }

  class PoolSystem {
    var pools: seq<Pool?>
    ghost var grants: seq<Grant>   // what the live pools have handed out
    ghost var Repr: set<object>    // the pools and their blocks

    predicate Live(id: nat)
      reads this`pools
    {
      id < |pools| && pools[id] != null
    }

    /** The pool at `id` knows its handle, and its blocks know their place in it. */
    ghost predicate Own(id: nat)
      requires Live(id)
      reads this`pools, this`Repr, Repr
    {
      && pools[id] in Repr && pools[id].handle == id
      && forall m :: 0 <= m < |pools[id].blocks| ==> Placed(pools[id], m)
    }

    ghost predicate Placed(pool: Pool, m: nat)
      requires pool in Repr && m < |pool.blocks|
      reads this`Repr, Repr
    {
      var block := pool.blocks[m];
      && block in Repr && block.owner == pool && block.place == m
      && block.pos <= block.size && block.pos % 8 == 0
    }

    /** A range is aligned on eight bytes and inside a block of a live pool. */
    ghost predicate Sound(g: Grant)
      reads this`pools, this`Repr, Repr
    {
      && Live(g.id) && pools[g.id] in Repr
      && g.ptr.block in pools[g.id].blocks && g.ptr.block in Repr
      && g.ptr.offset % 8 == 0
      && g.End() <= g.ptr.block.pos
    }

    /** The handle zero is never live, every range is sound, and no two ranges overlap. */
    ghost predicate Valid()
      reads this, Repr
    {
      && |pools| > 0 && pools[0] == null && this !in Repr
      && (forall id :: Live(id) ==> Own(id))
      && (forall k :: 0 <= k < |grants| ==> Sound(grants[k]))
      && PairwiseDisjoint(grants)
    }

    constructor ()
      ensures Valid() && grants == [] && Repr == {}
      ensures forall id: nat :: !Live(id)
    {
      pools := [null];
      grants := [];
      Repr := {};
    }

    method Create(blockSize: nat) returns (id: nat)
      requires Valid()
      modifies this
      ensures Valid()
      ensures id > 0 && !old(Live(id)) && Live(id)
      ensures fresh(Repr - old(Repr)) && fresh(pools[id]) && pools[id].blockSize == blockSize && pools[id].blocks == []
      ensures forall i: nat :: i != id ==> Live(i) == old(Live(i)) && (Live(i) ==> pools[i] == old(pools[i]))
      ensures forall i: nat :: 0 < i < id ==> Live(i)
      ensures grants == old(grants)
    {
      id := 1;
      while id < |pools|
        invariant 1 <= id <= |pools|
        invariant forall i: nat :: 0 < i < id ==> Live(i)
      {
        if pools[id] == null {
          var pool := new Pool(blockSize, id);
          pools := pools[id := pool];
          Repr := Repr + {pool};
          Kept();
          return;
        }
        id := id + 1;
      }
      var pool := new Pool(blockSize, id);
      pools := pools + [null];
      pools := pools[id := pool];
      Repr := Repr + {pool};
      Kept();
    }

    /** What a pool or a block gains leaves the ranges handed out before as they were. */
    twostate lemma Kept()
      requires old(Valid()) && old(Repr) <= Repr && grants == old(grants)
      requires forall o: Block :: o in old(Repr) ==>
                 o.pos == old(o.pos) || (old(o.pos) <= o.pos <= o.size && o.pos % 8 == 0)
      requires forall o: Pool :: o in old(Repr) ==> old(o.blocks) <= o.blocks
      requires forall o: Pool, m :: o in old(Repr) && |old(o.blocks)| <= m < |o.blocks| ==> Placed(o, m)
      requires forall id: nat :: old(Live(id)) ==> Live(id) && pools[id] == old(pools[id])
      ensures forall id: nat :: old(Live(id)) ==> Own(id)
      ensures forall k :: 0 <= k < |grants| ==> Sound(grants[k])
    {
      forall id: nat | old(Live(id))
        ensures Own(id)
      {
        assert old(Own(id));
        forall m | 0 <= m < |pools[id].blocks|
          ensures Placed(pools[id], m)
        {
          assert m < |old(pools[id].blocks)| ==> old(Placed(pools[id], m));
        }
      }
      forall k | 0 <= k < |grants|
        ensures Sound(grants[k])
      {
        assert old(Sound(grants[k]));
      }
    }

    method Destroy(id: nat)
      requires Valid() && Live(id)
      modifies this
      ensures Valid()
      ensures !Live(id)
      ensures forall i: nat :: i != id ==> Live(i) == old(Live(i)) && (Live(i) ==> pools[i] == old(pools[i]))
      ensures grants == Without(old(grants), id)
    {
      WithoutKeeps(grants, id);
      assert forall other: nat :: Live(other) ==> Own(other);
      pools := pools[id := null];
      grants := Without(grants, id);
      assert forall other: nat :: Live(other) ==> old(Live(other)) && old(Own(other)) && Own(other);
      forall k | 0 <= k < |grants|
        ensures Sound(grants[k])
      {
        assert grants[k] in old(grants);
        var m :| 0 <= m < |old(grants)| && old(grants)[m] == grants[k];
        assert old(Sound(grants[m]));
      }
    }

    lemma {:induction false} WithoutKeeps(gs: seq<Grant>, id: nat)
      requires PairwiseDisjoint(gs)
      ensures PairwiseDisjoint(Without(gs, id))
    {
      if gs != [] {
        var n := |gs| - 1;
        WithoutKeeps(gs[..n], id);
        var r := Without(gs[..n], id);
        forall i | 0 <= i < |r|
          ensures Disjoint(r[i], gs[n])
        {
          var k :| 0 <= k < n && gs[..n][k] == r[i];
          assert Disjoint(gs[k], gs[n]);
        }
      }
    }

    /** Hands out the next bytes of a block that has room for them. */
    method GrantFrom(id: nat, i: nat, size: nat) returns (ptr: Pointer)
      requires Valid() && Live(id) && i < |pools[id].blocks|
      requires RoundUp(size) <= pools[id].blocks[i].size - pools[id].blocks[i].pos
      modifies this`grants, pools[id].blocks[i]
      ensures Valid()
      ensures grants == old(grants) + [Grant(id, ptr, size)]
      ensures ptr == Pointer(pools[id].blocks[i], old(pools[id].blocks[i].pos))
      ensures ptr.offset % 8 == 0 && ptr.offset + size <= ptr.block.size
      ensures ptr.offset + size <= ptr.block.pos < ptr.offset + size + 8
    {
      assert Own(id) && Placed(pools[id], i);
      var block := pools[id].blocks[i];
      ptr := Pointer(block, block.pos);
      block.pos := block.pos + RoundUp(size);
      Kept();
      grants := grants + [Grant(id, ptr, size)];
    }

    /** Hands out the first bytes of a new block, which is at least as large as the request. */
    method GrantNew(id: nat, size: nat) returns (ptr: Pointer)
      requires Valid() && Live(id)
      modifies this`grants, this`Repr, pools[id]
      ensures Valid() && fresh(Repr - old(Repr))
      ensures grants == old(grants) + [Grant(id, ptr, size)]
      ensures fresh(ptr.block) && ptr.offset == 0 && size <= ptr.block.size && pools[id].blockSize <= ptr.block.size
      ensures ptr.block.size == pools[id].blockSize || ptr.block.size < size + 8
      ensures size <= ptr.block.pos < size + 8
      ensures pools[id].blocks == old(pools[id].blocks) + [ptr.block] && pools[id].blockSize == old(pools[id].blockSize)
    {
      var pool := pools[id];
      assert Own(id);
      var rounded := RoundUp(size);
      var most := if pool.blockSize < rounded then rounded else pool.blockSize;
      var block := new Block(most, rounded, pool, |pool.blocks|);
      pool.blocks := pool.blocks + [block];
      Repr := Repr + {block};
      ptr := Pointer(block, 0);
      Kept();
      grants := grants + [Grant(id, ptr, size)];
    }

    /** First fit: hands out at least `size` bytes of the first block with room, or of a new one. */
    method Malloc(id: nat, size: nat) returns (ptr: Pointer)
      requires Valid() && Live(id)
      modifies this`grants, this`Repr, Repr
      ensures Valid() && fresh(Repr - old(Repr))
      ensures grants == old(grants) + [Grant(id, ptr, size)]
      ensures ptr.block in pools[id].blocks
      ensures ptr.offset % 8 == 0 && ptr.offset + size <= ptr.block.size
      ensures forall m :: 0 <= m < |old(pools[id].blocks)| && old(FirstWithRoom(pools[id], m, size)) ==>
                ptr == Pointer(old(pools[id].blocks[m]), old(pools[id].blocks[m].pos))
      ensures ptr.offset + size <= ptr.block.pos < ptr.offset + size + 8
      ensures (forall m :: 0 <= m < |old(pools[id].blocks)| ==> !old(Room(pools[id].blocks[m], size))) ==>
                && fresh(ptr.block) && ptr.offset == 0 && pools[id].blockSize <= ptr.block.size
                && (ptr.block.size == pools[id].blockSize || ptr.block.size < size + 8)
    {
      var pool := pools[id];
      assert Own(id);
      for i := 0 to |pool.blocks|
        invariant forall m :: 0 <= m < i ==> !Room(pool.blocks[m], size)
      {
        assert Placed(pool, i);
        if RoundUp(size) <= pool.blocks[i].size - pool.blocks[i].pos {
          ptr := GrantFrom(id, i, size);
          return;
        }
      }
      ptr := GrantNew(id, size);
    }

    ghost predicate FirstWithRoom(pool: Pool, m: nat, size: nat)
      requires m < |pool.blocks|
      reads pool, pool.blocks
    {
      Room(pool.blocks[m], size) && forall i :: 0 <= i < m ==> !Room(pool.blocks[i], size)
    }

    predicate Room(block: Block, size: nat)
      reads block
    {
      RoundUp(size) <= block.size - block.pos
    }
  }
}
