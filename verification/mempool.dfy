/** The free-list pool `MemPoolT` of `native/mars/comm/tinyxml2.h`. */
module MemPools {

  import opened Sequences

  /** A cell of a block: while it is free it holds the link, while it is live its user's data. */
  class Item {
    var next: Item?

    constructor ()
    {
      next := null;
    }
  }

  // ----- the pool as its users see it -----

  function SetOf<T(==)>(s: seq<T>): set<T> { set x | x in s }

  /** The free list, the live items, all items of the blocks and how many blocks there are. */
  datatype Pool<T(==)> = Pool(free: seq<T>, live: set<T>, all: set<T>, blocks: nat)

  /** A call of `Alloc`, with the items of the block it would add, or of `Free`. */
  datatype Step<T(==)> = TakeOne(block: seq<T>) | GiveBack(item: T)

  /** New items are new, and only live items are given back. */
  predicate Proper<T(==)>(p: Pool<T>, per: nat, s: Step<T>) {
    match s
    case TakeOne(block) =>
      p.free == [] ==> |block| == per && Distinct(block) && forall i :: 0 <= i < |block| ==> block[i] !in p.all
    case GiveBack(x) => x in p.live
  }

  function Refilled<T(==)>(p: Pool<T>, block: seq<T>): Pool<T> {
    if p.free == [] then Pool(block, p.live, p.all + SetOf(block), p.blocks + 1) else p
  }

  function Taken<T(==)>(p: Pool<T>): Pool<T>
    requires p.free != []
  {
    Pool(p.free[1..], p.live + {p.free[0]}, p.all, p.blocks)
  }

  function Stepped<T(==)>(p: Pool<T>, per: nat, s: Step<T>): Pool<T>
    requires per > 0 && Proper(p, per, s)
  {
    match s
    case TakeOne(block) => Taken(Refilled(p, block))
    case GiveBack(x) => Pool([x] + p.free, p.live - {x}, p.all, p.blocks)
  }

  /** Free and live items are disjoint and together the items of the blocks, as many as these hold. */
  ghost predicate Sound<T>(p: Pool<T>, per: nat) {
    && Distinct(p.free)
    && SetOf(p.free) !! p.live
    && SetOf(p.free) + p.live == p.all
    && |p.free| + |p.live| == per * p.blocks
  }

  // ----- the class -----

  /** The free items in the order of the list from root. */
  ghost predicate IsChain(root: Item?, free: seq<Item>)
    reads free
  {
    && root == (if free == [] then null else free[0])
    && forall i :: 0 <= i < |free| ==> IsLink(free, i)
  }

  ghost predicate IsLink(free: seq<Item>, i: nat)
    requires i < |free|
    reads free
  {
    LinksTo(free[i], if i == |free| - 1 then null else free[i + 1])
  }

  ghost predicate LinksTo(x: Item, y: Item?)
    reads x
  {
    x.next == y
  }

  lemma RootIsFirst(root: Item?, free: seq<Item>)
    requires IsChain(root, free)
    ensures root == if free == [] then null else free[0]
  {
  }

  lemma ChainTail(free: seq<Item>)
    requires free != [] && IsChain(free[0], free)
    ensures IsChain(free[0].next, free[1..])
  {
    var rest := free[1..];
    assert IsLink(free, 0);
    forall i | 0 <= i < |rest|
      ensures IsLink(rest, i)
    {
      assert IsLink(free, i + 1);
    }
  }

  lemma ChainPush(item: Item, root: Item?, free: seq<Item>)
    requires IsChain(root, free) && item.next == root
    ensures IsChain(item, [item] + free)
  {
    var all := [item] + free;
    forall i | 0 <= i < |all|
      ensures IsLink(all, i)
    {
      assert i > 0 ==> IsLink(free, i - 1);
    }
  }

  function ItemsOf(blocks: seq<seq<Item>>): set<Item> {
    set b, x | b in blocks && x in b :: x
  }

  lemma OneMoreBlock(blocks: seq<seq<Item>>, block: seq<Item>)
    ensures ItemsOf(blocks + [block]) == ItemsOf(blocks) + SetOf(block)
  {
    assert block in [block];
  }

  class MemPool {
    const itemsPerBlock: nat
    var blocks: seq<seq<Item>>
    var root: Item?
    var currentAllocs: int
    var nAllocs: int
    var maxAllocs: int
    var nUntracked: int
    ghost var free: seq<Item>
    ghost var live: set<Item>

    ghost function Abstract(): Pool<Item>
      reads this
    {
      Pool(free, live, ItemsOf(blocks), |blocks|)
    }

    /** The list from root is the free items, and the counters are right. */
    ghost predicate Valid()
      reads this, free
    {
      && itemsPerBlock > 0
      && IsChain(root, free) && Sound(Abstract(), itemsPerBlock)
      && (forall b :: b in blocks ==> |b| == itemsPerBlock)
      && currentAllocs == |live| && currentAllocs <= maxAllocs <= nAllocs
    }

    constructor (itemsPerBlock: nat)
      requires itemsPerBlock > 0
      ensures Valid() && this.itemsPerBlock == itemsPerBlock && live == {} && blocks == []
    {
      this.itemsPerBlock := itemsPerBlock;
      blocks, root := [], null;
      currentAllocs, nAllocs, maxAllocs, nUntracked := 0, 0, 0, 0;
      free, live := [], {};
    }

    method Clear()
      requires Valid()
      modifies this
      ensures Valid() && live == {} && free == [] && blocks == []
    {
      hide Sound;
      while blocks != []
        decreases |blocks|
      {
        blocks := blocks[..|blocks| - 1];
      }
      root := null;
      currentAllocs, nAllocs, maxAllocs, nUntracked := 0, 0, 0, 0;
      free, live := [], {};
      NothingIsSound(itemsPerBlock, free);
      assert Abstract() == Pool([], {}, {}, 0);
    }

    /** A block of new items, each linked to the one behind it. */
    method NewBlock(ghost others: set<Item>) returns (block: seq<Item>)
      requires itemsPerBlock > 0
      ensures forall i :: 0 <= i < |block| ==> block[i] !in others
      ensures |block| == itemsPerBlock && Distinct(block) && fresh(block)
      ensures IsChain(block[0], block)
    {
      block := [];
      for i := 0 to itemsPerBlock
        invariant |block| == i && Distinct(block) && fresh(block)
        invariant forall j :: 0 <= j < i ==> block[j] !in others
      {
        var item := new Item();
        block := block + [item];
      }
      for i := 0 to itemsPerBlock - 1
        invariant forall j :: 0 <= j < i ==> LinksTo(block[j], block[j + 1])
      {
        assert forall j :: 0 <= j < i ==> block[j] != block[i];
        block[i].next := block[i + 1];
      }
      assert forall j :: 0 <= j < itemsPerBlock - 1 ==> block[j] != block[itemsPerBlock - 1];
      block[itemsPerBlock - 1].next := null;
      assert forall j :: 0 <= j < itemsPerBlock - 1 ==> LinksTo(block[j], block[j + 1]) && IsLink(block, j);
    }

    /** `Alloc`, without a free item: a new block. */
    method Refill()
      requires Valid() && root == null
      modifies this
      ensures Valid() && old(free) == [] && |free| == itemsPerBlock && fresh(free) && Distinct(free)
      ensures Proper(old(Abstract()), itemsPerBlock, TakeOne(free))
      ensures Abstract() == Refilled(old(Abstract()), free)
      ensures nAllocs == old(nAllocs) && nUntracked == old(nUntracked) && maxAllocs == old(maxAllocs)
    {
      hide Sound, IsChain, ItemsOf, Distinct;
      ghost var p := Abstract();
      RootIsFirst(root, free);
      var block := NewBlock(p.all);
      RefillIsSound(p, itemsPerBlock, block);
      OneMoreBlock(blocks, block);
      blocks := blocks + [block];
      root := block[0];
      free := block;
    }

    /** Hands out the first free item, or the first of a new block. */
    method Alloc() returns (result: Item, ghost block: seq<Item>)
      requires Valid()
      modifies this
      ensures Valid() && result !in old(live) && live == old(live) + {result}
      ensures Proper(old(Abstract()), itemsPerBlock, TakeOne(block))
      ensures Abstract() == Stepped(old(Abstract()), itemsPerBlock, TakeOne(block))
      ensures old(free) == [] ==> fresh(block)
      ensures nAllocs == old(nAllocs) + 1 && nUntracked == old(nUntracked) + 1
      ensures maxAllocs == if |live| > old(maxAllocs) then |live| else old(maxAllocs)
    {
      hide IsChain, Distinct;
      block := [];
      RootIsFirst(root, free);
      if root == null {
        Refill();
        block := free;
      }
      result := TakeRoot();
    }

    /** `Alloc`, with a free item. */
    method TakeRoot() returns (result: Item)
      requires Valid() && free != []
      modifies this
      ensures Valid() && result == old(free)[0] && result !in old(live) && blocks == old(blocks)
      ensures Abstract() == Taken(old(Abstract()))
      ensures nAllocs == old(nAllocs) + 1 && nUntracked == old(nUntracked) + 1
      ensures maxAllocs == if |live| > old(maxAllocs) then |live| else old(maxAllocs)
    {
      hide Sound, ItemsOf, Distinct;
      TakingIsSound(Abstract(), itemsPerBlock);
      ChainTail(free);
      result := root;
      root := root.next;
      currentAllocs := currentAllocs + 1;
      if currentAllocs > maxAllocs {
        maxAllocs := currentAllocs;
      }
      nAllocs := nAllocs + 1;
      nUntracked := nUntracked + 1;
      free := free[1..];
      live := live + {result};
    }

    /** Puts a live item at the front of the free list. */
    method Free(mem: Item?)
      requires Valid() && (mem != null ==> mem in live)
      modifies this, mem
      ensures Valid() && blocks == old(blocks)
      ensures Abstract() == if mem == null then old(Abstract())
                            else Stepped(old(Abstract()), itemsPerBlock, GiveBack(mem))
      ensures maxAllocs == old(maxAllocs) && nAllocs == old(nAllocs)
    {
      hide Sound, ItemsOf;
      if mem == null {
        return;
      }
      GivingIsSound(Abstract(), itemsPerBlock, mem);
      LiveIsNotFree(Abstract(), itemsPerBlock, mem);
      currentAllocs := currentAllocs - 1;
      mem.next := root;
      assert IsChain(root, free);
      ChainPush(mem, root, free);
      root := mem;
      free := [mem] + free;
      live := live - {mem};
    }

    /** Whatever its user writes into a live item, the pool stays as it is. */
    method WriteLive(mem: Item, data: Item?)
      requires Valid() && mem in live
      modifies mem
      ensures Valid() && mem.next == data
    {
      mem.next := data;
    }
  }

  lemma OneBlockMore(n: nat, k: nat)
    ensures n * (k + 1) == n * k + n
  {
  }

  // ----- whole runs -----

  /** The pool after a run; what is not proper where it is met is no step. */
  ghost function Run<T>(per: nat, steps: seq<Step<T>>): Pool<T>
    requires per > 0
    decreases |steps|
  {
    if steps == [] then Pool([], {}, {}, 0) else
      var n := |steps| - 1;
      var p := Run(per, steps[..n]);
      if Proper(p, per, steps[n]) then Stepped(p, per, steps[n]) else p
  }

  lemma StepIsSound<T>(p: Pool<T>, per: nat, s: Step<T>)
    requires per > 0 && Sound(p, per) && Proper(p, per, s)
    ensures Sound(Stepped(p, per, s), per)
  {
    match s {
      case TakeOne(block) =>
        if p.free == [] {
          RefillIsSound(p, per, block);
        }
        TakingIsSound(Refilled(p, block), per);
      case GiveBack(x) => GivingIsSound(p, per, x);
    }
  }

  lemma NothingIsSound<T>(per: nat, none: seq<T>)
    requires none == []
    ensures Sound(Pool(none, {}, {}, 0), per)
  {
  }

  lemma RefillIsSound<T>(p: Pool<T>, per: nat, block: seq<T>)
    requires Sound(p, per) && p.free == [] && Proper(p, per, TakeOne(block))
    ensures Sound(Refilled(p, block), per)
  {
    hide Distinct;
    OneBlockMore(per, p.blocks);
    assert SetOf(block) !! p.all;
    assert SetOf(p.free) == {};
  }

  lemma TailItems<T>(s: seq<T>)
    requires s != [] && Distinct(s)
    ensures SetOf(s) == {s[0]} + SetOf(s[1..]) && s[0] !in SetOf(s[1..]) && Distinct(s[1..])
  {
    assert s == [s[0]] + s[1..];
  }

  lemma TakingIsSound<T>(p: Pool<T>, per: nat)
    requires Sound(p, per) && p.free != []
    ensures p.free[0] !in p.live && Sound(Taken(p), per)
  {
    hide Distinct, SetOf;
    TailItems(p.free);
  }

  lemma MoreItems<T>(x: T, s: seq<T>)
    requires x !in SetOf(s) && Distinct(s)
    ensures SetOf([x] + s) == {x} + SetOf(s) && Distinct([x] + s)
  {
  }

  lemma LiveIsNotFree<T>(p: Pool<T>, per: nat, x: T)
    requires Sound(p, per) && x in p.live
    ensures forall i :: 0 <= i < |p.free| ==> p.free[i] != x
  {
    assert forall i :: 0 <= i < |p.free| ==> p.free[i] in SetOf(p.free);
  }

  lemma GivingIsSound<T>(p: Pool<T>, per: nat, x: T)
    requires Sound(p, per) && x in p.live
    ensures Sound(Pool([x] + p.free, p.live - {x}, p.all, p.blocks), per)
  {
    hide Distinct, SetOf;
    MoreItems(x, p.free);
  }

  /** What is given back is handed out next, and then the pool is as it was before. */
  lemma LastGivenIsTakenFirst<T>(p: Pool<T>, per: nat, x: T, block: seq<T>)
    requires per > 0 && Proper(p, per, GiveBack(x))
    ensures var given := Stepped(p, per, GiveBack(x));
            given.free != [] && given.free[0] == x && Stepped(given, per, TakeOne(block)) == p
  {
    var given := Stepped(p, per, GiveBack(x));
    assert given.free[1..] == p.free && given.live + {x} == p.live;
  }

  /** In every run the items are conserved: free and live are disjoint and together all there are. */
  lemma {:induction false} RunIsSound<T>(per: nat, steps: seq<Step<T>>)
    requires per > 0
    ensures Sound(Run(per, steps), per)
    decreases |steps|
  {
    if steps != [] {
      var n := |steps| - 1;
      var p := Run(per, steps[..n]);
      RunIsSound(per, steps[..n]);
      if Proper(p, per, steps[n]) {
        StepIsSound(p, per, steps[n]);
      }
    }
  }

  /** No run hands out an item that is live. */
  lemma NeverTwice<T>(per: nat, steps: seq<Step<T>>, block: seq<T>)
    requires per > 0 && Proper(Run(per, steps), per, TakeOne(block))
    ensures var p := Run(per, steps); var x := Refilled(p, block).free[0];
            x !in p.live && Stepped(p, per, TakeOne(block)).live == p.live + {x}
  {
    hide Run, Sound, Distinct, SetOf;
    var p := Run(per, steps);
    RunIsSound(per, steps);
    if p.free == [] {
      RefillIsSound(p, per, block);
    }
    TakingIsSound(Refilled(p, block), per);
  }
}
