/**
 The layout that `MemoryPoolAllocator` of `native/mars/rapidjson/allocators.h`
 keeps: chunks of memory, each filled from the front with blocks. Addresses are
 natural numbers, 0 is the null pointer; words have 64 bits.
 */
module PoolLayouts {

  import opened Options

  /** The aligned size of a chunk header. */
  const HEADER: nat := 24

  function Align(n: nat): nat { (n + 7) / 8 * 8 }

  lemma AlignRoundsUp(n: nat)
    ensures n <= Align(n) < n + 8 && Align(n) % 8 == 0 && (n > 0 ==> Align(n) > 0)
  {
  }

  lemma AlignAligned(n: nat)
    requires n % 8 == 0
    ensures Align(n) == n
  {
  }

  function Sum(s: seq<nat>): nat { if s == [] then 0 else Sum(s[..|s| - 1]) + s[|s| - 1] }

  lemma {:induction false} SumOfPrefix(s: seq<nat>, i: nat, j: nat)
    requires i <= j <= |s|
    ensures Sum(s[..i]) <= Sum(s[..j])
    decreases j
  {
    if i < j {
      assert s[..j][..j - 1] == s[..j - 1];
      SumOfPrefix(s, i, j - 1);
    }
  }

  lemma SumNext(s: seq<nat>, i: nat)
    requires i < |s|
    ensures Sum(s[..i + 1]) == Sum(s[..i]) + s[i]
  {
    assert s[..i + 1][..i] == s[..i];
  }

  lemma SumAppend(s: seq<nat>, x: nat)
    ensures Sum(s + [x]) == Sum(s) + x
  {
    assert (s + [x])[..|s|] == s;
  }

  /** A chunk: where it starts, how many bytes follow its header, and the lengths of its blocks in order. */
  datatype Area = Area(base: nat, capacity: nat, lens: seq<nat>)

  /** The chunks, that of the head first. */
  type Layout = seq<Area>

  /** The address of block j. */
  function Start(a: Area, j: nat): nat
    requires j <= |a.lens|
  {
    a.base + HEADER + Sum(a.lens[..j])
  }

  function Used(a: Area): nat { Sum(a.lens) }

  predicate Apart(x: nat, n: nat, y: nat, m: nat) { x + n <= y || y + m <= x }

  predicate GoodArea(a: Area) {
    a.base > 0 && Used(a) <= a.capacity && forall j :: 0 <= j < |a.lens| ==> a.lens[j] > 0 && a.lens[j] % 8 == 0
  }

  /** Every chunk holds its blocks, and no two chunks overlap. */
  predicate ValidLayout(l: Layout) {
    && (forall i :: 0 <= i < |l| ==> GoodArea(l[i]))
    && forall i, j :: 0 <= i < j < |l| ==> AreasApart(l[i], l[j])
  }

  predicate AreasApart(a: Area, b: Area) { Apart(a.base, HEADER + a.capacity, b.base, HEADER + b.capacity) }

  predicate IsBlockOf(l: Layout, i: nat, j: nat, p: nat, n: nat) {
    i < |l| && j < |l[i].lens| && p == Start(l[i], j) && n == l[i].lens[j]
  }

  ghost predicate IsBlock(l: Layout, p: nat, n: nat) { exists i: nat, j: nat :: IsBlockOf(l, i, j, p, n) }

  lemma BlockInArea(a: Area, j: nat)
    requires GoodArea(a) && j < |a.lens|
    ensures a.base + HEADER <= Start(a, j) && Start(a, j) + a.lens[j] <= a.base + HEADER + Used(a)
  {
    SumNext(a.lens, j);
    SumOfPrefix(a.lens, j + 1, |a.lens|);
    assert a.lens[..|a.lens|] == a.lens;
  }

  /** Different blocks share no byte, in whatever chunks they lie. */
  lemma BlocksAreDisjoint(l: Layout, i: nat, j: nat, k: nat, m: nat)
    requires ValidLayout(l) && i < |l| && j < |l[i].lens| && k < |l| && m < |l[k].lens| && (i, j) != (k, m)
    ensures Apart(Start(l[i], j), l[i].lens[j], Start(l[k], m), l[k].lens[m])
  {
    BlockInArea(l[i], j);
    BlockInArea(l[k], m);
    if i == k {
      var lens := l[i].lens;
      var low, high := if j < m then j else m, if j < m then m else j;
      SumNext(lens, low);
      SumOfPrefix(lens, low + 1, high);
    } else {
      assert AreasApart(l[if i < k then i else k], l[if i < k then k else i]);
    }
  }

  // ----- allocating -----

  /** Whether the head chunk has room. */
  predicate HasRoom(l: Layout, n: nat) { l != [] && Used(l[0]) + n <= l[0].capacity }

  function NewCapacity(chunkCapacity: nat, n: nat): nat { if chunkCapacity > n then chunkCapacity else n }

  /** What the base allocator must answer when asked for n bytes: nothing, or memory nobody uses. */
  predicate IsFresh(l: Layout, answer: Option<nat>, n: nat) {
    match answer
    case None => true
    case Some(addr) => addr > 0 && forall i :: 0 <= i < |l| ==> Apart(addr, n, l[i].base, HEADER + l[i].capacity)
  }

  function WithChunk(l: Layout, addr: nat, capacity: nat): Layout { [Area(addr, capacity, [])] + l }

  function WithBlock(l: Layout, n: nat): Layout
    requires l != []
  {
    [l[0].(lens := l[0].lens + [n])] + l[1..]
  }

  /** `Malloc`: the layout after it, and the pointer. */
  function Malloced(l: Layout, size: nat, chunkCapacity: nat, answer: Option<nat>): (Layout, nat) {
    var n := Align(size);
    if size == 0 then (l, 0)
    else if HasRoom(l, n) then (WithBlock(l, n), Start(l[0], |l[0].lens|))
    else
      match answer
      case None => (l, 0)
      case Some(addr) =>
        (WithBlock(WithChunk(l, addr, NewCapacity(chunkCapacity, n)), n), addr + HEADER)
  }

  /** What stays: every block of l is one of r, at the same place with the same length. */
  ghost predicate KeepsBlocks(l: Layout, r: Layout) {
    forall p, n :: IsBlock(l, p, n) ==> IsBlock(r, p, n)
  }

  lemma AppendedBlocks(l: Layout, n: nat)
    requires l != []
    ensures KeepsBlocks(l, WithBlock(l, n))
    ensures IsBlockOf(WithBlock(l, n), 0, |l[0].lens|, Start(l[0], |l[0].lens|), n)
  {
    var r := WithBlock(l, n);
    var lens := l[0].lens;
    forall p, m | IsBlock(l, p, m)
      ensures IsBlock(r, p, m)
    {
      var i: nat, j: nat :| IsBlockOf(l, i, j, p, m);
      assert i == 0 ==> r[0].lens[..j] == lens[..j];
      assert IsBlockOf(r, i, j, p, m);
    }
    assert r[0].lens[..|lens|] == lens && lens[..|lens|] == lens;
  }

  lemma WithBlockIsValid(l: Layout, n: nat)
    requires ValidLayout(l) && HasRoom(l, n) && n > 0 && n % 8 == 0
    ensures ValidLayout(WithBlock(l, n))
  {
    var r := WithBlock(l, n);
    SumAppend(l[0].lens, n);
    assert GoodArea(l[0]);
    assert GoodArea(r[0]);
    forall i, j | 0 <= i < j < |r|
      ensures AreasApart(r[i], r[j])
    {
      assert AreasApart(l[i], l[j]);
    }
  }

  lemma WithChunkIsValid(l: Layout, addr: nat, capacity: nat)
    requires ValidLayout(l) && IsFresh(l, Some(addr), HEADER + capacity)
    ensures ValidLayout(WithChunk(l, addr, capacity)) && KeepsBlocks(l, WithChunk(l, addr, capacity))
  {
    var r := WithChunk(l, addr, capacity);
    forall i, j | 0 <= i < j < |r|
      ensures AreasApart(r[i], r[j])
    {
      assert i > 0 ==> AreasApart(l[i - 1], l[j - 1]);
    }
    forall p, m | IsBlock(l, p, m)
      ensures IsBlock(r, p, m)
    {
      var i: nat, j: nat :| IsBlockOf(l, i, j, p, m);
      assert IsBlockOf(r, i + 1, j, p, m);
    }
  }

  /** A block of its own, big enough, and no other has moved. */
  ghost predicate IsAllocation(l: Layout, r: Layout, p: nat, n: nat) {
    && ValidLayout(r) && KeepsBlocks(l, r) && p > 0 && IsBlock(r, p, n)
    && forall q, m :: IsBlock(l, q, m) ==> Apart(p, n, q, m)
  }

  /** `Malloc` fails exactly for size 0 and without memory, and then changes nothing. */
  lemma MallocIsSafe(l: Layout, size: nat, chunkCapacity: nat, answer: Option<nat>)
    requires ValidLayout(l) && IsFresh(l, answer, HEADER + NewCapacity(chunkCapacity, Align(size)))
    ensures var (r, p) := Malloced(l, size, chunkCapacity, answer);
            && (p == 0 <==> size == 0 || (!HasRoom(l, Align(size)) && answer == None))
            && (p == 0 ==> r == l)
            && (p != 0 ==> IsAllocation(l, r, p, Align(size)) && size <= Align(size))
  {
    AlignRoundsUp(size);
    var n := Align(size);
    hide ValidLayout, Align, IsAllocation;
    if size > 0 {
      if HasRoom(l, n) {
        NewBlockIsApart(l, n);
        AllocationStart(l);
      } else if answer.Some? {
        NewChunkIsApart(l, answer.value, NewCapacity(chunkCapacity, n), n);
      }
    }
  }

  /** `Malloc` takes from the head chunk if that has room, and otherwise from a new one of at least the usual size. */
  lemma MallocTakesFrom(l: Layout, size: nat, chunkCapacity: nat, answer: Option<nat>)
    ensures var (r, p) := Malloced(l, size, chunkCapacity, answer); var n := Align(size);
            p != 0 ==>
              if l != [] && Sum(l[0].lens) + n <= l[0].capacity then
                r == [l[0].(lens := l[0].lens + [n])] + l[1..] && p == l[0].base + 24 + Sum(l[0].lens)
              else
                && answer.Some? && p == answer.value + 24
                && |r| == |l| + 1 && r[1..] == l && r[0].base == answer.value && r[0].lens == [n]
                && r[0].capacity >= chunkCapacity && r[0].capacity >= n
                && (r[0].capacity == chunkCapacity || r[0].capacity == n)
  {
    var n := Align(size);
    if HasRoom(l, n) {
      assert l[0].lens[..|l[0].lens|] == l[0].lens;
    } else if answer.Some? {
      var base := WithChunk(l, answer.value, NewCapacity(chunkCapacity, n));
      assert base[1..] == l && base[0].lens + [n] == [n];
    }
  }

  lemma AllocationStart(l: Layout)
    requires l != []
    ensures Start(l[0], |l[0].lens|) > 0
  {
  }

  lemma NewChunkIsApart(l: Layout, addr: nat, capacity: nat, n: nat)
    requires ValidLayout(l) && IsFresh(l, Some(addr), HEADER + capacity) && 0 < n <= capacity && n % 8 == 0
    ensures IsAllocation(l, WithBlock(WithChunk(l, addr, capacity), n), addr + HEADER, n)
  {
    hide ValidLayout, IsFresh, WithChunk, WithBlock, IsAllocation, Start, HasRoom, KeepsBlocks;
    var base := WithChunk(l, addr, capacity);
    WithChunkIsValid(l, addr, capacity);
    EmptyChunk(l, addr, capacity);
    NewBlockIsApart(base, n);
    AllocationOnTop(l, base, WithBlock(base, n), addr + HEADER, n);
  }

  lemma EmptyChunk(l: Layout, addr: nat, capacity: nat)
    ensures var base := WithChunk(l, addr, capacity);
            base != [] && base[0].lens == [] && Start(base[0], 0) == addr + HEADER
            && forall n: nat :: n <= capacity ==> HasRoom(base, n)
  {
    assert Sum([]) == 0;
  }

  lemma AllocationOnTop(l: Layout, base: Layout, r: Layout, p: nat, n: nat)
    requires KeepsBlocks(l, base) && IsAllocation(base, r, p, n)
    ensures IsAllocation(l, r, p, n)
  {
    hide IsBlock, ValidLayout;
  }

  lemma NewBlockIsApart(l: Layout, n: nat)
    requires ValidLayout(l) && HasRoom(l, n) && n > 0 && n % 8 == 0
    ensures IsAllocation(l, WithBlock(l, n), Start(l[0], |l[0].lens|), n)
  {
    hide ValidLayout, KeepsBlocks, Apart, Start, WithBlock, Used;
    var r, p := WithBlock(l, n), Start(l[0], |l[0].lens|);
    WithBlockIsValid(l, n);
    AppendedBlocks(l, n);
    StartIsPositive(l[0], |l[0].lens|);
    assert IsBlock(r, p, n);
    forall q, m | IsBlock(l, q, m)
      ensures Apart(p, n, q, m)
    {
      var i: nat, j: nat :| IsBlockOf(l, i, j, q, m);
      SameBlock(l, n, i, j, q, m);
      BlocksAreDisjoint(r, 0, |l[0].lens|, i, j);
    }
  }

  lemma StartIsPositive(a: Area, j: nat)
    requires j <= |a.lens|
    ensures Start(a, j) > 0
  {
  }

  lemma SameBlock(l: Layout, n: nat, i: nat, j: nat, q: nat, m: nat)
    requires l != [] && IsBlockOf(l, i, j, q, m)
    ensures IsBlockOf(WithBlock(l, n), i, j, q, m) && (i, j) != (0, |l[0].lens|)
  {
    assert i == 0 ==> WithBlock(l, n)[0].lens[..j] == l[0].lens[..j];
  }

  // ----- resizing -----

  /** The head chunk's last block longer by more bytes. */
  function Grown(l: Layout, more: nat): Layout
    requires l != [] && l[0].lens != []
  {
    var k := |l[0].lens| - 1;
    [l[0].(lens := l[0].lens[k := l[0].lens[k] + more])] + l[1..]
  }

  /** The comparison of the pointer with the end of the used part of the head chunk. */
  predicate LooksLast(l: Layout, p: nat, size: nat) {
    l != [] && p == l[0].base + HEADER + Used(l[0]) - size
  }

  /** `Realloc`: the layout after it, the pointer, and whether the contents are copied to it. */
  function Realloced(l: Layout, p: nat, originalSize: nat, newSize: nat, chunkCapacity: nat, answer: Option<nat>)
    : (Layout, nat, bool)
    requires p != 0 && LooksLast(l, p, Align(originalSize)) ==> l[0].lens != []
  {
    var o, n := Align(originalSize), Align(newSize);
    if p == 0 then (var (r, q) := Malloced(l, newSize, chunkCapacity, answer); (r, q, false))
    else if newSize == 0 then (l, 0, false)
    else if o >= n then (l, p, false)
    else if LooksLast(l, p, o) && HasRoom(l, n - o) then (Grown(l, n - o), p, false)
    else (var (r, q) := Malloced(l, n, chunkCapacity, answer); (r, q, q != 0))
  }

  lemma AlignedWithin(size: nat, n: nat)
    requires size <= n && n % 8 == 0
    ensures Align(size) <= n
  {
  }

  /**
   The comparison holds exactly for the last block of the head chunk, provided
   the size given is not more than the block has.
   */
  lemma OnlyTheLastLooksLast(l: Layout, i: nat, j: nat, p: nat, n: nat, size: nat)
    requires ValidLayout(l) && IsBlockOf(l, i, j, p, n) && 0 < size <= n
    ensures LooksLast(l, p, Align(size)) <==> i == 0 && j == |l[0].lens| - 1 && n == Align(size)
  {
    hide Sum, Align;
    AlignRoundsUp(size);
    assert GoodArea(l[i]) && GoodArea(l[0]);
    AlignedWithin(size, n);
    BlockInArea(l[i], j);
    if i == 0 {
      var lens := l[0].lens;
      SumNext(lens, j);
      if j < |lens| - 1 {
        BlockInArea(l[0], j + 1);
        SumNext(lens, j + 1);
        SumOfPrefix(lens, j + 2, |lens|);
      }
      assert lens[..|lens|] == lens;
    } else {
      assert AreasApart(l[0], l[i]);
    }
  }

  lemma GrownIsValid(l: Layout, more: nat)
    requires ValidLayout(l) && l != [] && l[0].lens != [] && HasRoom(l, more) && more % 8 == 0
    ensures ValidLayout(Grown(l, more))
  {
    var r, k := Grown(l, more), |l[0].lens| - 1;
    assert GoodArea(l[0]);
    assert r[0].lens[..k] == l[0].lens[..k];
    assert GoodArea(r[0]);
    forall i, j | 0 <= i < j < |r|
      ensures AreasApart(r[i], r[j])
    {
      assert AreasApart(l[i], l[j]);
    }
  }

  /** Every block but the one at p is where it was and as long as it was. */
  ghost predicate KeepsOthers(l: Layout, r: Layout, p: nat) {
    forall q, m :: IsBlock(l, q, m) && q != p ==> IsBlock(r, q, m)
  }

  lemma GrownBlocks(l: Layout, more: nat)
    requires ValidLayout(l) && l != [] && l[0].lens != [] && HasRoom(l, more) && more % 8 == 0
    ensures var k := |l[0].lens| - 1; var p := Start(l[0], k);
            KeepsOthers(l, Grown(l, more), p) && IsBlock(Grown(l, more), p, l[0].lens[k] + more)
  {
    var r, k := Grown(l, more), |l[0].lens| - 1;
    var p := Start(l[0], k);
    forall q, m | IsBlock(l, q, m) && q != p
      ensures IsBlock(r, q, m)
    {
      var i: nat, j: nat :| IsBlockOf(l, i, j, q, m);
      assert i == 0 && j < k ==> r[0].lens[..j] == l[0].lens[..j];
      assert IsBlockOf(r, i, j, q, m);
    }
    assert r[0].lens[..k] == l[0].lens[..k];
    assert IsBlockOf(r, 0, k, p, l[0].lens[k] + more);
  }

  /** Only the first of a block's addresses is the address of a block. */
  lemma StartsDiffer(l: Layout, i: nat, j: nat, k: nat, m: nat, p: nat, n: nat, o: nat)
    requires ValidLayout(l) && IsBlockOf(l, i, j, p, n) && IsBlockOf(l, k, m, p, o)
    ensures i == k && j == m
  {
    assert GoodArea(l[i]) && GoodArea(l[k]);
    if (i, j) != (k, m) {
      BlocksAreDisjoint(l, i, j, k, m);
    }
  }

  /** A resized block: still at p, or moved to a block of its own. */
  ghost predicate IsResized(l: Layout, p: nat, n: nat, size: nat, r: Layout, q: nat) {
    if q == p then ValidLayout(r) && KeepsOthers(l, r, p) && HasBlock(r, p, n, size)
    else IsAllocation(l, r, q, Align(size))
  }

  ghost predicate HasBlock(r: Layout, p: nat, n: nat, size: nat) {
    exists m: nat :: IsBlock(r, p, m) && m >= size && m >= n
  }

  /** `Realloc` leaves the block where it is: it does not grow, or it is the last one and has room behind it. */
  predicate Stays(l: Layout, p: nat, originalSize: nat, newSize: nat) {
    var o, m := Align(originalSize), Align(newSize);
    newSize != 0 && (m <= o || (LooksLast(l, p, o) && HasRoom(l, m - o)))
  }

  /**
   `Realloc` of a block: it fails exactly for size 0, and for want of memory when
   the block can neither stay nor move within the head chunk; then it changes
   nothing. Otherwise the result is a block of at least the new size, either the
   old one or one of its own, and no other block has changed.
   */
  lemma ReallocIsSafe(l: Layout, p: nat, n: nat, originalSize: nat, newSize: nat, chunkCapacity: nat,
                      answer: Option<nat>)
    requires ValidLayout(l) && IsBlock(l, p, n) && 0 < originalSize <= n
    requires IsFresh(l, answer, HEADER + NewCapacity(chunkCapacity, Align(newSize)))
    ensures LooksLast(l, p, Align(originalSize)) ==> l[0].lens != []
    ensures var result := Realloced(l, p, originalSize, newSize, chunkCapacity, answer);
            ReallocedWell(l, p, n, originalSize, newSize, result, answer)
  {
    hide ValidLayout, Align, IsResized, IsBlock, Malloced, Grown, Sum, LooksLast, HasRoom, IsFresh, Start;
    ResizedBlock(l, p, n, originalSize);
    AlignRoundsUp(newSize);
    var o, m := Align(originalSize), Align(newSize);
    if newSize == 0 {
    } else if o >= m {
      Shrunk(l, p, n, newSize);
    } else if LooksLast(l, p, o) && HasRoom(l, m - o) {
      GrownInPlace(l, p, n, o, newSize);
    } else {
      MallocedAway(l, p, n, newSize, chunkCapacity, answer);
    }
  }

  /**
   `Realloc` of a null pointer allocates: it fails exactly for size 0 and without
   room and memory, and then changes nothing. Otherwise the result is a block of
   its own of at least the size, every other block stays, and nothing is copied.
   */
  lemma ReallocNullIsSafe(l: Layout, originalSize: nat, newSize: nat, chunkCapacity: nat, answer: Option<nat>)
    requires ValidLayout(l) && IsFresh(l, answer, HEADER + NewCapacity(chunkCapacity, Align(newSize)))
    ensures var (r, q, copies) := Realloced(l, 0, originalSize, newSize, chunkCapacity, answer);
            && !copies && (q == 0 <==> newSize == 0 || (!HasRoom(l, Align(newSize)) && answer == None))
            && (q == 0 ==> r == l)
            && (q != 0 ==> IsAllocation(l, r, q, Align(newSize)) && newSize <= Align(newSize))
  {
    hide ValidLayout, IsFresh, Malloced, IsAllocation, HasRoom, Align;
    MallocIsSafe(l, newSize, chunkCapacity, answer);
  }

  /** What the three results of `Realloc` say about each other. */
  ghost predicate ReallocedWell(l: Layout, p: nat, n: nat, originalSize: nat, newSize: nat,
                                result: (Layout, nat, bool), answer: Option<nat>) {
    var (r, q, copies) := result;
    && (q == 0 <==> newSize == 0
                    || (!Stays(l, p, originalSize, newSize) && !HasRoom(l, Align(newSize)) && answer == None))
    && (q == 0 ==> r == l)
    && (q == p <==> Stays(l, p, originalSize, newSize))
    && (q != 0 ==> IsResized(l, p, n, newSize, r, q))
    && (copies <==> q != 0 && q != p)
    && (copies ==> originalSize <= Align(originalSize) <= n && Align(originalSize) <= Align(newSize))
  }

  lemma MallocedAway(l: Layout, p: nat, n: nat, size: nat, chunkCapacity: nat, answer: Option<nat>)
    requires ValidLayout(l) && IsBlock(l, p, n) && n > 0 && size > 0
    requires IsFresh(l, answer, HEADER + NewCapacity(chunkCapacity, Align(size)))
    ensures var (r, q) := Malloced(l, Align(size), chunkCapacity, answer);
            && q != p && (q == 0 <==> !HasRoom(l, Align(size)) && answer == None) && (q == 0 ==> r == l)
            && (q != 0 ==> IsResized(l, p, n, size, r, q))
  {
    AlignRoundsUp(size);
    AlignAligned(Align(size));
    var i: nat, j: nat :| IsBlockOf(l, i, j, p, n);
    PointerIsPositive(l, i, j, p, n);
    hide ValidLayout, Align, IsAllocation, Malloced, IsFresh, IsBlock, HasRoom;
    MallocIsSafe(l, Align(size), chunkCapacity, answer);
    MovedAway(l, p, n, Malloced(l, Align(size), chunkCapacity, answer).0,
              Malloced(l, Align(size), chunkCapacity, answer).1, Align(size));
  }

  lemma ResizedBlock(l: Layout, p: nat, n: nat, size: nat)
    requires ValidLayout(l) && IsBlock(l, p, n) && 0 < size <= n
    ensures p > 0 && size <= Align(size) <= n && Align(size) % 8 == 0
    ensures LooksLast(l, p, Align(size)) ==>
              && l != [] && l[0].lens != [] && p == Start(l[0], |l[0].lens| - 1)
              && n == Align(size) == l[0].lens[|l[0].lens| - 1]
  {
    var i: nat, j: nat :| IsBlockOf(l, i, j, p, n);
    OnlyTheLastLooksLast(l, i, j, p, n, size);
    PointerIsPositive(l, i, j, p, n);
    AlignRoundsUp(size);
    AlignedFits(l, i, j, p, n, size);
  }

  lemma Shrunk(l: Layout, p: nat, n: nat, size: nat)
    requires ValidLayout(l) && IsBlock(l, p, n) && size <= n
    ensures IsResized(l, p, n, size, l, p)
  {
  }

  lemma GrownInPlace(l: Layout, p: nat, n: nat, o: nat, size: nat)
    requires ValidLayout(l) && l != [] && l[0].lens != [] && p == Start(l[0], |l[0].lens| - 1)
    requires n == o == l[0].lens[|l[0].lens| - 1] && o % 8 == 0 && o < Align(size) && HasRoom(l, Align(size) - o)
    ensures IsResized(l, p, n, size, Grown(l, Align(size) - o), p)
  {
    AlignRoundsUp(size);
    GrownIsValid(l, Align(size) - o);
    GrownBlocks(l, Align(size) - o);
  }

  lemma PointerIsPositive(l: Layout, i: nat, j: nat, p: nat, n: nat)
    requires IsBlockOf(l, i, j, p, n)
    ensures p > 0
  {
  }

  lemma AlignedFits(l: Layout, i: nat, j: nat, p: nat, n: nat, size: nat)
    requires ValidLayout(l) && IsBlockOf(l, i, j, p, n) && size <= n
    ensures Align(size) <= n
  {
    assert GoodArea(l[i]);
  }

  lemma MovedAway(l: Layout, p: nat, n: nat, r: Layout, q: nat, m: nat)
    requires IsBlock(l, p, n) && n > 0 && m > 0
    ensures q != 0 && IsAllocation(l, r, q, m) ==> q != p
  {
  }

  // ----- totals and whole runs -----

  /** `Size`: the reserved bytes. */
  function TotalUsed(l: Layout): nat { if l == [] then 0 else Used(l[0]) + TotalUsed(l[1..]) }

  function TotalCapacity(l: Layout): nat { if l == [] then 0 else l[0].capacity + TotalCapacity(l[1..]) }

  /** A successful `Malloc` adds the aligned size to `Size`. */
  lemma MallocAddsUp(l: Layout, size: nat, chunkCapacity: nat, answer: Option<nat>)
    ensures var (r, p) := Malloced(l, size, chunkCapacity, answer);
            && (p != 0 ==> TotalUsed(r) == TotalUsed(l) + Align(size))
            && (|r| == |l| ==> TotalCapacity(r) == TotalCapacity(l))
            && (|r| != |l| ==> r != [] && TotalCapacity(r) == r[0].capacity + TotalCapacity(l))
  {
    var n := Align(size);
    if size == 0 {
    } else if HasRoom(l, n) {
      SumAppend(l[0].lens, n);
      assert WithBlock(l, n)[1..] == l[1..];
    } else if answer.Some? {
      var base := WithChunk(l, answer.value, NewCapacity(chunkCapacity, n));
      assert base[1..] == l && WithBlock(base, n)[1..] == l;
      SumAppend([], n);
    }
  }

  /** `Realloc` adds what a block grows by where it is, all of a block that moves, and otherwise nothing. */
  lemma ReallocAddsUp(l: Layout, p: nat, n: nat, originalSize: nat, newSize: nat, chunkCapacity: nat,
                      answer: Option<nat>)
    requires ValidLayout(l) && IsBlock(l, p, n) && 0 < originalSize <= n
    requires IsFresh(l, answer, HEADER + NewCapacity(chunkCapacity, Align(newSize)))
    ensures LooksLast(l, p, Align(originalSize)) ==> l[0].lens != []
    ensures var (r, q, _) := Realloced(l, p, originalSize, newSize, chunkCapacity, answer);
            var o, m := Align(originalSize), Align(newSize);
            TotalUsed(r) == TotalUsed(l) + if q == 0 || (q == p && m <= o) then 0 else if q == p then m - o else m
  {
    hide ValidLayout, Align, IsBlock, Malloced, Sum, LooksLast, HasRoom, IsFresh, Start, TotalUsed, Grown, IsResized;
    ResizedBlock(l, p, n, originalSize);
    ReallocIsSafe(l, p, n, originalSize, newSize, chunkCapacity, answer);
    var o, m := Align(originalSize), Align(newSize);
    AlignRoundsUp(newSize);
    if newSize == 0 || o >= m {
    } else if LooksLast(l, p, o) && HasRoom(l, m - o) {
      GrownAddsUp(l, m - o);
    } else {
      AlignAligned(m);
      MallocAddsUp(l, m, chunkCapacity, answer);
    }
  }

  lemma GrownAddsUp(l: Layout, more: nat)
    requires l != [] && l[0].lens != []
    ensures TotalUsed(Grown(l, more)) == TotalUsed(l) + more
  {
    var k := |l[0].lens| - 1;
    var was, lens := l[0].lens, Grown(l, more)[0].lens;
    assert lens[..k] == was[..k];
    assert Grown(l, more)[1..] == l[1..];
  }

  /** No more bytes are in use than there are. */
  lemma {:induction false} TotalsInOrder(l: Layout)
    requires ValidLayout(l)
    ensures TotalUsed(l) <= TotalCapacity(l) && TotalUsed([]) == 0 == TotalCapacity([])
  {
    if l != [] {
      assert GoodArea(l[0]);
      forall i, j | 0 <= i < j < |l[1..]|
        ensures AreasApart(l[1..][i], l[1..][j])
      {
        assert AreasApart(l[i + 1], l[j + 1]);
      }
      TotalsInOrder(l[1..]);
    }
  }

  datatype Call =
    | DoMalloc(size: nat, answer: Option<nat>)
    | DoRealloc(p: nat, originalSize: nat, newSize: nat, answer: Option<nat>, n: nat)
    | DoClear(keep: Option<Area>)

  lemma EmptiedIsValid(a: Area)
    requires a.base > 0
    ensures ValidLayout([a.(lens := [])])
  {
    assert Sum([]) == 0;
    assert GoodArea(a.(lens := []));
  }

  /** What callers and the base allocator owe. */
  ghost predicate IsLegal(l: Layout, chunkCapacity: nat, c: Call) {
    match c
    case DoMalloc(size, answer) => IsFresh(l, answer, HEADER + NewCapacity(chunkCapacity, Align(size)))
    case DoRealloc(p, originalSize, newSize, answer, n) =>
      IsFresh(l, answer, HEADER + NewCapacity(chunkCapacity, Align(newSize)))
      && (p != 0 ==> IsBlock(l, p, n) && 0 < originalSize <= n)
    case DoClear(keep) => keep.Some? ==> GoodArea(keep.value)
  }

  /** `Realloc` of a block or of none leaves a valid layout. */
  lemma AnyRealloc(l: Layout, p: nat, n: nat, originalSize: nat, newSize: nat, chunkCapacity: nat,
                   answer: Option<nat>)
    requires ValidLayout(l) && IsFresh(l, answer, HEADER + NewCapacity(chunkCapacity, Align(newSize)))
    requires p != 0 ==> IsBlock(l, p, n) && 0 < originalSize <= n
    ensures p != 0 && LooksLast(l, p, Align(originalSize)) ==> l[0].lens != []
    ensures ValidLayout(Realloced(l, p, originalSize, newSize, chunkCapacity, answer).0)
  {
    hide ValidLayout, IsFresh, IsBlock, LooksLast, Realloced, Align;
    if p == 0 {
      ReallocNullIsSafe(l, originalSize, newSize, chunkCapacity, answer);
    } else {
      ReallocIsSafe(l, p, n, originalSize, newSize, chunkCapacity, answer);
    }
  }

  ghost function Done(l: Layout, chunkCapacity: nat, c: Call): Layout
    requires ValidLayout(l) && IsLegal(l, chunkCapacity, c)
  {
    match c
    case DoMalloc(size, answer) => Malloced(l, size, chunkCapacity, answer).0
    case DoRealloc(p, originalSize, newSize, answer, n) =>
      AnyRealloc(l, p, n, originalSize, newSize, chunkCapacity, answer);
      Realloced(l, p, originalSize, newSize, chunkCapacity, answer).0
    case DoClear(keep) => if keep.Some? then [keep.value.(lens := [])] else []
  }

  /** The layouts a sequence of legal calls goes through. */
  ghost predicate IsRun(ls: seq<Layout>, chunkCapacity: nat, calls: seq<Call>) {
    && |ls| == |calls| + 1
    && forall i :: 0 <= i < |calls| ==> IsStep(ls[i], ls[i + 1], chunkCapacity, calls[i])
  }

  ghost predicate IsStep(l: Layout, r: Layout, chunkCapacity: nat, c: Call) {
    ValidLayout(l) ==> IsLegal(l, chunkCapacity, c) && r == Done(l, chunkCapacity, c)
  }

  lemma StepIsValid(l: Layout, chunkCapacity: nat, c: Call)
    requires ValidLayout(l) && IsLegal(l, chunkCapacity, c)
    ensures ValidLayout(Done(l, chunkCapacity, c))
  {
    match c {
      case DoMalloc(size, answer) =>
        MallocIsSafe(l, size, chunkCapacity, answer);
      case DoRealloc(p, originalSize, newSize, answer, n) =>
        AnyRealloc(l, p, n, originalSize, newSize, chunkCapacity, answer);
      case DoClear(keep) =>
        assert Sum([]) == 0;
    }
  }

  /** In every run, at every point, blocks lie inside of one chunk each and share no byte. */
  lemma {:induction false} RunIsValid(ls: seq<Layout>, chunkCapacity: nat, calls: seq<Call>)
    requires IsRun(ls, chunkCapacity, calls) && ValidLayout(ls[0])
    ensures forall i :: 0 <= i < |ls| ==> ValidLayout(ls[i])
    decreases |calls|
  {
    if calls != [] {
      assert IsStep(ls[0], ls[1], chunkCapacity, calls[0]);
      StepIsValid(ls[0], chunkCapacity, calls[0]);
      assert IsRun(ls[1..], chunkCapacity, calls[1..]) by {
        forall i | 0 <= i < |calls| - 1
          ensures IsStep(ls[1..][i], ls[1..][i + 1], chunkCapacity, calls[1..][i])
        {
          assert IsStep(ls[i + 1], ls[i + 2], chunkCapacity, calls[i + 1]);
        }
      }
      RunIsValid(ls[1..], chunkCapacity, calls[1..]);
      forall i | 0 <= i < |ls|
        ensures ValidLayout(ls[i])
      {
        assert i > 0 ==> ls[i] == ls[1..][i - 1];
      }
    }
  }
}
