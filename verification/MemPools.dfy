/** The growing array and the pool allocator that tinyxml2 keeps its nodes in. */
module MemPools {
  /** DynArray<T, INITIAL_SIZE>: the contents are the first `size` cells; the cells double when they run out. */
  class DynArray<T(0)> {
    var mem: array<T>
    var size: nat

    ghost predicate Valid()
      reads this
    {
      size <= mem.Length
    }

    ghost function Contents(): (r: seq<T>)
      reads this, mem
      requires Valid()
      ensures |r| == size
    {
      mem[..size]
    }

    constructor (initialSize: nat)
      ensures Valid() && fresh(mem) && Contents() == []
    {
      mem := new T[initialSize];
      size := 0;
    }

    method Clear()
      requires Valid()
      modifies this`size
      ensures Valid() && Contents() == []
    {
      size := 0;
    }

    method EnsureCapacity(cap: nat)
      requires Valid() && cap > 0
      modifies this`mem
      ensures Valid() && cap <= mem.Length && Contents() == old(Contents()) && (mem == old(mem) || fresh(mem))
    {
      if cap > mem.Length {
        var newMem := new T[cap * 2];
        for i := 0 to size
          invariant mem == old(mem) && newMem[..i] == mem[..i]
        {
          newMem[i] := mem[i];
        }
        mem := newMem;
      }
    }

    method Push(t: T)
      requires Valid()
      modifies this, mem
      ensures Valid() && Contents() == old(Contents()) + [t] && (mem == old(mem) || fresh(mem))
    {
      EnsureCapacity(size + 1);
      mem[size] := t;
      size := size + 1;
    }

    /** Room for `count` more elements, which the caller fills in; the result is the index of the first. */
    method PushArr(count: nat) returns (at: nat)
      requires Valid() && size + count > 0
      modifies this
      ensures Valid() && at == old(size) && size == at + count && Contents()[..at] == old(Contents()) && (mem == old(mem) || fresh(mem))
    {
      EnsureCapacity(size + count);
      at := size;
      size := size + count;
    }

    method Pop() returns (t: T)
      requires Valid() && size > 0
      modifies this`size
      ensures Valid() && old(Contents()) == Contents() + [t]
    {
      size := size - 1;
      t := mem[size];
    }

    method PopArr(count: nat)
      requires Valid() && count <= size
      modifies this`size
      ensures Valid() && size == old(size) - count && Contents() == old(Contents())[..size]
    {
      size := size - count;
    }

    /** The last element takes the place of the removed one. */
    method SwapRemove(i: nat)
      requires Valid() && i < size
      modifies this`size, mem
      ensures Valid() && Contents() == WithoutAt(old(Contents()), i)
    {
      mem[i] := mem[size - 1];
      size := size - 1;
    }
  }

  function WithoutAt<T>(s: seq<T>, i: nat): seq<T>
    requires i < |s|
  {
    s[i := s[|s| - 1]][..|s| - 1]
  }

  /** SwapRemove takes out one occurrence, and nothing else. */
  lemma SwapRemoveIsRemoval<T>(s: seq<T>, i: nat)
    requires i < |s|
    ensures multiset(WithoutAt(s, i)) == multiset(s) - multiset{s[i]}
  {
    var last := |s| - 1;
    assert s == s[..last] + [s[last]];
    if i < last {
      assert s[..last] == s[..i] + [s[i]] + s[i + 1..last];
      assert WithoutAt(s, i) == s[..i] + [s[last]] + s[i + 1..last];
    } else {
      assert WithoutAt(s, i) == s[..last];
    }
  }

  // ---------- the pool ----------

  /** A cell of a block. The link and the user's data share their storage, so that the link of a cell in use is anything. */
  class Item {
    var next: Item?

    constructor ()
      ensures next == null
    {
      next := null;
    }

    /** The owner of a cell writes to it. */
    method Scribble(junk: Item?)
      modifies this
      ensures next == junk
    {
      next := junk;
    }
  }

  const BLOCK_SIZE: nat := 4 * 1024

  ghost function Cells(s: seq<Item>): set<Item> {
    set x | x in s
  }

  predicate AllDifferent(s: seq<Item>) {
    forall i, j :: 0 <= i < j < |s| ==> s[i] != s[j]
  }

  /** `idle` is what the list `free` holds: it has as many different elements, all of them in `idle`. */
  ghost predicate Lists(free: seq<Item>, idle: set<Item>) {
    AllDifferent(free) && |free| == |idle| && forall i :: 0 <= i < |free| ==> free[i] in idle
  }

  lemma {:induction false} ListsAll(free: seq<Item>, idle: set<Item>)
    requires Lists(free, idle)
    ensures Cells(free) == idle
  {
    if free == [] {
      assert idle == {};
    } else {
      var rest := idle - {free[0]};
      assert Lists(free[1..], rest);
      ListsAll(free[1..], rest);
      assert free == [free[0]] + free[1..];
      assert idle == {free[0]} + rest;
      assert Cells(free) == {free[0]} + Cells(free[1..]);
    }
  }

  lemma {:induction false} ListsCells(free: seq<Item>)
    requires AllDifferent(free)
    ensures Lists(free, Cells(free))
  {
    if free != [] {
      ListsCells(free[1..]);
      assert free == [free[0]] + free[1..];
      assert Cells(free) == {free[0]} + Cells(free[1..]);
      assert free[0] !in free[1..];
    }
  }

  predicate Halves(items: set<Item>, idle: set<Item>, live: set<Item>) {
    items == idle + live && idle !! live
  }

  lemma MovesOver(items: set<Item>, idle: set<Item>, live: set<Item>, x: Item)
    requires Halves(items, idle, live)
    ensures x in idle ==> Halves(items, idle - {x}, live + {x}) && x !in live && |live + {x}| == |live| + 1 && x in items
    ensures x in live ==> Halves(items, idle + {x}, live - {x}) && x !in idle && |live - {x}| == |live| - 1 && x in items
  {
  }

  lemma MoreIdle(items: set<Item>, live: set<Item>, cells: set<Item>)
    requires Halves(items, {}, live) && cells !! items
    ensures Halves(items + cells, cells, live)
  {
  }

  /** The cells of all blocks. */
  ghost predicate Covers(items: set<Item>, blocks: seq<seq<Item>>, perBlock: nat) {
    && |items| == |blocks| * perBlock
    && (forall k :: 0 <= k < |blocks| ==> |blocks[k]| == perBlock && Cells(blocks[k]) <= items)
    && (forall x :: x in items ==> exists k :: 0 <= k < |blocks| && x in blocks[k])
  }

  lemma CoversMore(items: set<Item>, blocks: seq<seq<Item>>, perBlock: nat, block: seq<Item>)
    requires Covers(items, blocks, perBlock) && |block| == perBlock && Cells(block) !! items && AllDifferent(block)
    ensures Covers(items + Cells(block), blocks + [block], perBlock)
  {
    hide AllDifferent;
    ListsCells(block);
    var all, more := items + Cells(block), blocks + [block];
    forall x | x in all
      ensures exists k :: 0 <= k < |more| && x in more[k]
    {
      if x in items {
        var k :| 0 <= k < |blocks| && x in blocks[k];
        assert x in more[k];
      } else {
        assert x in more[|blocks|];
      }
    }
    OneMore(|blocks|, perBlock);
  }

  lemma OneMore(n: nat, k: nat)
    ensures (n + 1) * k == n * k + k
  {
  }

  class MemPool {
    const itemSize: nat
    var blockPtrs: seq<seq<Item>>
    var root: Item?
    var currentAllocs: nat
    var nAllocs: nat
    var maxAllocs: nat
    var nUntracked: int
    ghost var free: seq<Item>
    ghost var idle: set<Item>
    ghost var live: set<Item>
    ghost var items: set<Item>

    function ItemsPerBlock(): nat
      requires itemSize > 0
    {
      BLOCK_SIZE / itemSize
    }

    static predicate AllIn(s: seq<Item>, cells: set<Item>) {
      forall i :: 0 <= i < |s| ==> s[i] in cells
    }

    /** The free list, from its root, is `free`. */
    static ghost predicate Linked(root: Item?, free: seq<Item>)
      reads free
    {
      && root == (if free == [] then null else free[0])
      && (forall i :: 0 <= i < |free| - 1 ==> free[i].next == free[i + 1])
      && (free != [] ==> free[|free| - 1].next == null)
    }

    ghost predicate Valid()
      reads this, items
    {
      && 0 < itemSize <= BLOCK_SIZE && Covers(items, blockPtrs, ItemsPerBlock()) && Core()
      && currentAllocs == |live| && currentAllocs <= maxAllocs <= nAllocs
    }

    /** Idle and live cells are all cells, and no cell is both; the free list is the idle ones. */
    ghost predicate Core()
      reads `root, `free, `idle, `live, `items, items
    {
      Halves(items, idle, live) && Lists(free, idle) && AllIn(free, items) && Linked(root, free)
    }

    constructor (itemSize: nat)
      requires 0 < itemSize <= BLOCK_SIZE
      ensures Valid() && this.itemSize == itemSize && live == {} && items == {} && currentAllocs == nUntracked == 0
    {
      this.itemSize := itemSize;
      blockPtrs, root, currentAllocs, nAllocs, maxAllocs, nUntracked := [], null, 0, 0, 0, 0;
      free, idle, live, items := [], {}, {}, {};
    }

    /** `new Block`, with its cells linked one to the next. */
    method NewBlock(n: nat) returns (block: seq<Item>)
      requires n > 0
      ensures |block| == n && (forall i :: 0 <= i < n ==> fresh(block[i]))
      ensures AllDifferent(block) && Linked(block[0], block)
    {
      block := [];
      while |block| < n
        invariant |block| <= n && forall i :: 0 <= i < |block| ==> fresh(block[i])
        invariant forall i, j :: 0 <= i < j < |block| ==> block[i] != block[j]
      {
        var x := new Item();
        block := block + [x];
      }
      for i := 0 to n - 1
        invariant forall j :: 0 <= j < i ==> block[j].next == block[j + 1]
      {
        block[i].next := block[i + 1];
      }
      block[n - 1].next := null;
    }

    /** A cell that nobody uses: the front of the free list, which a new block refills when it is empty. */
    method Alloc() returns (result: Item)
      requires Valid()
      modifies this
      ensures Valid() && result !in old(live) && live == old(live) + {result} && (result in old(items) || fresh(result))
      ensures old(free) != [] ==> result == old(free)[0] && items == old(items) && blockPtrs == old(blockPtrs)
      ensures old(free) == [] ==> |blockPtrs| == |old(blockPtrs)| + 1
      ensures old(items) <= items && fresh(items - old(items))
      ensures currentAllocs == old(currentAllocs) + 1 && nAllocs == old(nAllocs) + 1 && nUntracked == old(nUntracked) + 1
      ensures maxAllocs == if currentAllocs > old(maxAllocs) then currentAllocs else old(maxAllocs)
      ensures forall k :: 0 <= k < |blockPtrs| ==> |blockPtrs[k]| == 4096 / itemSize
    {
      hide Covers, Core;
      if root == null {
        Refill();
      }
      BlockSizes(items, blockPtrs, ItemsPerBlock());
      ghost var n := |live|;
      result := TakeRoot();
      currentAllocs := currentAllocs + 1;
      if currentAllocs > maxAllocs {
        maxAllocs := currentAllocs;
      }
      nAllocs := nAllocs + 1;
      nUntracked := nUntracked + 1;
    }

    static lemma BlockSizes(items: set<Item>, blocks: seq<seq<Item>>, perBlock: nat)
      requires Covers(items, blocks, perBlock)
      ensures forall k :: 0 <= k < |blocks| ==> |blocks[k]| == perBlock
    {
    }

    method TakeRoot() returns (result: Item)
      requires Core() && root != null
      modifies this`root, this`free, this`idle, this`live
      ensures Core() && old(free) == [result] + free && result !in old(live) && live == old(live) + {result} && |live| == |old(live)| + 1
      ensures result in items
    {
      hide Lists, Linked, AllIn, Halves;
      FirstTaken(free, idle, items);
      FirstUnlinked(root, free);
      MovesOver(items, idle, live, root);
      result := root;
      root := root.next;
      assert free == [result] + free[1..];
      free, idle, live := free[1..], idle - {result}, live + {result};
    }

    lemma FirstTaken(free: seq<Item>, idle: set<Item>, cells: set<Item>)
      requires Lists(free, idle) && AllIn(free, cells)
      ensures free != [] ==> Lists(free[1..], idle - {free[0]}) && free[0] in idle && AllIn(free[1..], cells)
    {
    }

    static lemma FirstUnlinked(root: Item?, free: seq<Item>)
      requires Linked(root, free) && root != null
      ensures free != [] && root == free[0] && Linked(root.next, free[1..])
    {
    }

    method Refill()
      requires Valid() && root == null
      modifies this`blockPtrs, this`root, this`free, this`idle, this`items
      ensures Valid() && root != null && old(free) == [] && |blockPtrs| == |old(blockPtrs)| + 1 && old(items) <= items && fresh(items - old(items))
      ensures forall x :: x in free ==> fresh(x)
    {
      hide Covers, Lists, Halves, AllIn, AllDifferent;
      EmptyList(free, idle);
      var block := NewBlock(ItemsPerBlock());
      assert Cells(block) !! items;
      CoversMore(items, blockPtrs, ItemsPerBlock(), block);
      ListsCells(block);
      CellsIn(block, items);
      MoreIdle(items, live, Cells(block));
      blockPtrs := blockPtrs + [block];
      root := block[0];
      free, idle, items := block, Cells(block), items + Cells(block);
    }

    lemma CellsIn(block: seq<Item>, cells: set<Item>)
      ensures AllIn(block, cells + Cells(block))
    {
    }

    lemma EmptyList(free: seq<Item>, idle: set<Item>)
      requires Lists(free, idle) && Linked(null, free)
      ensures free == [] && idle == {}
    {
    }

    /** Gives a cell in use back; null is ignored. */
    method Free(mem: Item?)
      requires Valid() && (mem == null || mem in live)
      modifies this, if mem == null then {} else {mem}
      ensures Valid() && (mem == null ==> unchanged(this))
      ensures mem != null ==> live == old(live) - {mem} && free == [mem] + old(free) && currentAllocs == old(currentAllocs) - 1
      ensures items == old(items) && nUntracked == old(nUntracked) && maxAllocs == old(maxAllocs) && nAllocs == old(nAllocs)
    {
      hide Covers, Core;
      if mem == null {
        return;
      }
      currentAllocs := currentAllocs - 1;
      var item := mem;
      PutRoot(item);
    }

    method PutRoot(item: Item)
      requires Core() && item in live
      modifies this`root, this`free, this`idle, this`live, item
      ensures Core() && free == [item] + old(free) && live == old(live) - {item} && |live| == |old(live)| - 1
    {
      hide Lists, AllIn, Halves;
      MovesOver(items, idle, live, item);
      PutBack(free, idle, items, item);
      item.next := root;
      LinkedMore(root, free, item);
      root := item;
      free, idle, live := [item] + free, idle + {item}, live - {item};
    }

    lemma PutBack(free: seq<Item>, idle: set<Item>, cells: set<Item>, x: Item)
      requires Lists(free, idle) && x !in idle && AllIn(free, cells) && x in cells
      ensures Lists([x] + free, idle + {x}) && x !in free && AllIn([x] + free, cells)
    {
    }

    static lemma LinkedMore(root: Item?, free: seq<Item>, x: Item)
      requires Linked(root, free) && x.next == root
      ensures Linked(x, [x] + free)
    {
    }

    method SetTracked()
      requires Valid()
      modifies this`nUntracked
      ensures Valid() && nUntracked == old(nUntracked) - 1
    {
      hide Covers, Core;
      nUntracked := nUntracked - 1;
    }

    /** Every block is released, the last one first, each exactly once. */
    method Clear() returns (ghost released: seq<seq<Item>>)
      requires Valid()
      modifies this
      ensures Valid() && live == {} && items == {} && currentAllocs == nAllocs == maxAllocs == nUntracked == 0 && blockPtrs == []
      ensures |released| == |old(blockPtrs)| && forall i :: 0 <= i < |released| ==> released[i] == old(blockPtrs)[|released| - 1 - i]
    {
      hide Linked, Lists, Covers, AllIn, Halves;
      released := DeleteBlocks();
      root, currentAllocs, nAllocs, maxAllocs, nUntracked := null, 0, 0, 0, 0;
      free, idle, live, items := [], {}, {}, {};
      NothingLeft();
    }

    method DeleteBlocks() returns (ghost released: seq<seq<Item>>)
      modifies this`blockPtrs
      ensures blockPtrs == []
      ensures |released| == |old(blockPtrs)| && forall i :: 0 <= i < |released| ==> released[i] == old(blockPtrs)[|released| - 1 - i]
    {
      released := [];
      while blockPtrs != []
        invariant |blockPtrs| + |released| == |old(blockPtrs)| && blockPtrs == old(blockPtrs)[..|blockPtrs|]
        invariant forall i :: 0 <= i < |released| ==> released[i] == old(blockPtrs)[|old(blockPtrs)| - 1 - i]
        decreases |blockPtrs|
      {
        var lastBlock := blockPtrs[|blockPtrs| - 1];
        blockPtrs := blockPtrs[..|blockPtrs| - 1];
        released := released + [lastBlock];
      }
    }

    lemma NothingLeft()
      ensures Lists([], {}) && Halves({}, {}, {}) && AllIn([], {}) && Linked(null, []) && Covers({}, [], 0) && forall k: nat :: Covers({}, [], k)
    {
    }

    /** What the owner of a cell writes into it does not touch the pool. */
    method Use(x: Item, junk: Item?)
      requires Valid() && x in live
      modifies x
      ensures Valid()
    {
      hide Covers;
      ListsAll(free, idle);
      assert x in free ==> x in Cells(free);
      x.Scribble(junk);
    }
  }

  /** Cells i and j of a block at `base` do not overlap, and all lie inside the block. */
  lemma CellsAreApart(base: nat, itemSize: nat, i: nat, j: nat)
    requires 0 < itemSize <= BLOCK_SIZE && i < j < BLOCK_SIZE / itemSize
    ensures base + i * itemSize + itemSize <= base + j * itemSize
    ensures base + j * itemSize + itemSize <= base + BLOCK_SIZE
  {
    var n := BLOCK_SIZE / itemSize;
    WholeCells(BLOCK_SIZE, itemSize);
    Scaled(i + 1, j, itemSize);
    Scaled(j + 1, n, itemSize);
  }

  lemma WholeCells(size: nat, itemSize: nat)
    requires itemSize > 0
    ensures size / itemSize * itemSize <= size
  {
  }

  lemma Scaled(a: nat, b: nat, c: nat)
    requires a <= b
    ensures a * c <= b * c
  {
  }
}
