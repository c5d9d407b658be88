/** `MemoryPoolAllocator` of `native/mars/rapidjson/allocators.h`. */
module PoolAllocators {

  import opened Options
  import opened PoolLayouts

  /** A chunk header; its address is `base`. */
  class ChunkHeader {
    const base: nat
    var capacity: nat
    var size: nat
    var next: ChunkHeader?
    ghost var lens: seq<nat>

    constructor (base: nat, capacity: nat, next: ChunkHeader?)
      ensures this.base == base && this.capacity == capacity && size == 0 && this.next == next && lens == []
    {
      this.base, this.capacity, size, this.next, lens := base, capacity, 0, next, [];
    }

    ghost function GetArea(): Area
      reads this
    {
      Area(base, capacity, lens)
    }

    ghost predicate LinksTo(c: ChunkHeader?)
      reads this
    {
      next == c && size == Used(GetArea())
    }
  }

  ghost predicate IsLink(chunks: seq<ChunkHeader>, i: nat)
    requires i < |chunks|
    reads chunks
  {
    chunks[i].LinksTo(if i == |chunks| - 1 then null else chunks[i + 1])
  }

  /** The list from head is the chunks, each once. */
  ghost predicate IsChain(head: ChunkHeader?, chunks: seq<ChunkHeader>)
    reads chunks
  {
    && head == (if chunks == [] then null else chunks[0])
    && (forall i :: 0 <= i < |chunks| ==> IsLink(chunks, i))
    && forall i, j :: 0 <= i < j < |chunks| ==> chunks[i] != chunks[j]
  }

  ghost function Areas(chunks: seq<ChunkHeader>): Layout
    reads chunks
  {
    if chunks == [] then [] else [chunks[0].GetArea()] + Areas(chunks[1..])
  }

  lemma {:induction false} AreasAt(chunks: seq<ChunkHeader>)
    ensures |Areas(chunks)| == |chunks| && forall i :: 0 <= i < |chunks| ==> Areas(chunks)[i] == chunks[i].GetArea()
  {
    if chunks != [] {
      AreasAt(chunks[1..]);
    }
  }

  /** A new head in front of a chain. */
  lemma Pushed(c: ChunkHeader, head: ChunkHeader?, chunks: seq<ChunkHeader>)
    requires IsChain(head, chunks) && c !in chunks && c.LinksTo(head)
    ensures IsChain(c, [c] + chunks) && Areas([c] + chunks) == [c.GetArea()] + Areas(chunks)
  {
    var all := [c] + chunks;
    assert all[1..] == chunks;
    forall i | 0 <= i < |all|
      ensures IsLink(all, i)
    {
      assert i > 0 ==> IsLink(chunks, i - 1);
    }
  }

  /** The head of a chain, and the chain behind it. */
  lemma Popped(head: ChunkHeader?, chunks: seq<ChunkHeader>)
    requires IsChain(head, chunks) && chunks != []
    ensures head == chunks[0] && chunks == [chunks[0]] + chunks[1..] && chunks[0] !in chunks[1..]
    ensures chunks[0].LinksTo(chunks[0].next) && IsChain(chunks[0].next, chunks[1..])
    ensures Areas(chunks) == [chunks[0].GetArea()] + Areas(chunks[1..])
  {
    var rest := chunks[1..];
    assert IsLink(chunks, 0);
    assert rest == [] <==> |chunks| == 1;
    forall i | 0 <= i < |rest|
      ensures IsLink(rest, i)
    {
      assert IsLink(chunks, i + 1);
    }
  }

  /** The user's buffer, if there is one, is the chunk that was there first. */
  predicate UserBufferIsLast(buffer: ChunkHeader?, chunks: seq<ChunkHeader>) {
    buffer != null ==> chunks != [] && chunks[|chunks| - 1] == buffer
  }

  function Byte(memory: map<nat, int>, a: nat): int { if a in memory then memory[a] else 0 }

  /** The n bytes at y in the one memory are those at x in the other. */
  ghost predicate SameBytes(before: map<nat, int>, x: nat, after: map<nat, int>, y: nat, n: nat) {
    forall a: nat :: y <= a < y + n ==> Byte(after, a) == Byte(before, a - y + x)
  }

  /** Nothing outside of the n bytes at y has changed. */
  ghost predicate OnlyWritten(before: map<nat, int>, after: map<nat, int>, y: nat, n: nat) {
    forall a: nat :: a < y || y + n <= a ==> Byte(after, a) == Byte(before, a)
  }

  class MemoryPoolAllocator {
    var chunkHead: ChunkHeader?
    const chunkCapacity: nat
    const userBuffer: ChunkHeader?
    /** The memory of the process, as far as it has been written. */
    var memory: map<nat, int>
    ghost var chunks: seq<ChunkHeader>

    ghost predicate Valid()
      reads this, chunks
    {
      IsChain(chunkHead, chunks) && ValidLayout(Areas(chunks)) && UserBufferIsLast(userBuffer, chunks)
    }

    ghost function Now(): Layout
      reads this, chunks
    {
      Areas(chunks)
    }

    constructor (chunkCapacity: nat)
      ensures Valid() && Now() == [] && this.chunkCapacity == chunkCapacity && userBuffer == null
    {
      this.chunkCapacity, chunkHead, userBuffer, memory, chunks := chunkCapacity, null, null, map[], [];
    }

    /** With a buffer of the user's as the first chunk. */
    constructor WithBuffer(buffer: nat, size: nat, chunkCapacity: nat)
      requires buffer > 0 && size > HEADER
      ensures Valid() && Now() == [Area(buffer, size - HEADER, [])] && this.chunkCapacity == chunkCapacity
      ensures userBuffer != null && fresh(userBuffer) && chunks == [userBuffer]
    {
      var chunk := new ChunkHeader(buffer, size - HEADER, null);
      this.chunkCapacity, chunkHead, userBuffer, memory, chunks := chunkCapacity, chunk, chunk, map[], [chunk];
      new;
      Pushed(chunk, null, []);
      assert [chunk] + [] == [chunk];
      assert Sum([]) == 0;
    }

    /** The answer of the base allocator is memory nobody uses, or none. */
    method AddChunk(capacity: nat, answer: Option<nat>) returns (ok: bool)
      requires Valid() && IsFresh(Now(), answer, HEADER + capacity)
      modifies this
      ensures Valid() && ok == answer.Some? && memory == old(memory)
      ensures ok ==> Now() == WithChunk(old(Now()), answer.value, capacity)
      ensures ok ==> fresh(chunks[0]) && chunks[1..] == old(chunks)
      ensures ok ==> chunkHead == chunks[0]
      ensures !ok ==> chunks == old(chunks) && Now() == old(Now())
    {
      hide ValidLayout, IsFresh, IsChain, Areas;
      match answer {
        case None => return false;
        case Some(addr) =>
          var chunk := new ChunkHeader(addr, capacity, chunkHead);
          WithChunkIsValid(Now(), addr, capacity);
          assert Sum([]) == 0;
          Pushed(chunk, chunkHead, chunks);
          chunks := [chunk] + chunks;
          chunkHead := chunk;
          return true;
      }
    }

    /** The end of `Malloc`: the next n bytes of the head chunk. */
    method Serve(n: nat) returns (p: nat)
      requires Valid() && HasRoom(Now(), n) && n > 0 && n % 8 == 0
      modifies this, chunkHead
      ensures Valid() && chunks == old(chunks) && memory == old(memory)
      ensures Now() == WithBlock(old(Now()), n) && p == Start(old(Now())[0], |old(Now())[0].lens|)
    {
      hide IsChain, ValidLayout;
      ghost var rest := chunks[1..];
      AreasAt(chunks);
      Popped(chunkHead, chunks);
      WithBlockIsValid(Now(), n);
      SumAppend(chunkHead.lens, n);
      WholePrefix(chunkHead.lens);
      p := chunkHead.base + HEADER + chunkHead.size;
      chunkHead.size := chunkHead.size + n;
      chunkHead.lens := chunkHead.lens + [n];
      Pushed(chunkHead, chunkHead.next, rest);
    }

    method Malloc(size: nat, answer: Option<nat>) returns (p: nat)
      requires Valid() && IsFresh(Now(), answer, HEADER + NewCapacity(chunkCapacity, Align(size)))
      modifies this, chunks
      ensures Valid() && memory == old(memory)
      ensures (Now(), p) == Malloced(old(Now()), size, chunkCapacity, answer)
    {
      hide ValidLayout, IsFresh, IsChain, Start;
      AreasAt(chunks);
      HeadRoom(chunkHead, chunks, Align(size));
      AlignRoundsUp(size);
      if size == 0 {
        return 0;
      }
      var n := Align(size);
      if chunkHead == null || chunkHead.size + n > chunkHead.capacity {
        var ok := AddChunk(if chunkCapacity > n then chunkCapacity else n, answer);
        if !ok {
          return 0;
        }
        EmptyChunk(old(Now()), answer.value, NewCapacity(chunkCapacity, n));
      }
      p := Serve(n);
    }

    /** `Realloc`, growing the last block where it is. */
    method Expand(increment: nat)
      requires Valid() && chunkHead != null && Now()[0].lens != [] && HasRoom(Now(), increment) && increment % 8 == 0
      modifies this, chunkHead
      ensures Valid() && chunks == old(chunks) && memory == old(memory)
      ensures old(Now()) != [] && Now() == Grown(old(Now()), increment)
    {
      hide IsChain, ValidLayout;
      ghost var rest := chunks[1..];
      AreasAt(chunks);
      Popped(chunkHead, chunks);
      GrownIsValid(Now(), increment);
      ghost var k := |chunkHead.lens| - 1;
      SumLast(chunkHead.lens, increment);
      chunkHead.size := chunkHead.size + increment;
      chunkHead.lens := chunkHead.lens[k := chunkHead.lens[k] + increment];
      Pushed(chunkHead, chunkHead.next, rest);
    }

    /** `memcpy` of n bytes to memory that does not overlap. */
    method Copy(to: nat, from: nat, n: nat)
      requires Apart(to, n, from, n)
      modifies `memory
      ensures SameBytes(old(memory), from, memory, to, n) && OnlyWritten(old(memory), memory, to, n)
    {
      for i := 0 to n
        invariant SameBytes(old(memory), from, memory, to, i) && OnlyWritten(old(memory), memory, to, i)
      {
        ByteCopied(old(memory), memory, from, to, i);
        memory := memory[to + i := Byte(memory, from + i)];
      }
    }

    /** `Realloc`, moving o bytes of a block of n to a new one of m. */
    method Relocate(p: nat, ghost n: nat, o: nat, m: nat, answer: Option<nat>) returns (q: nat)
      requires Valid() && IsFresh(Now(), answer, HEADER + NewCapacity(chunkCapacity, m))
      requires IsBlock(Now(), p, n) && o <= n && o < m && m % 8 == 0
      modifies this, chunks
      ensures Valid() && (Now(), q) == Malloced(old(Now()), m, chunkCapacity, answer)
      ensures q != 0 ==> SameBytes(old(memory), p, memory, q, o)
      ensures q == 0 ==> memory == old(memory)
      ensures BlocksUntouched(old(Now()), old(memory), memory)
    {
      hide ValidLayout, IsFresh, IsChain, IsBlock, Malloced, Align, Areas, SameBytes, OnlyWritten;
      ghost var l, before := Now(), memory;
      AlignAligned(m);
      MallocIsSafe(l, m, chunkCapacity, answer);
      q := Malloc(m, answer);
      if q == 0 {
        Untouched(l, before);
      } else {
        assert IsAllocation(l, Now(), q, m);
        Copy(q, p, o);
        OthersUntouched(l, Now(), q, m, o, before, memory);
      }
    }

    /**
     Resizes a block of n bytes of which the caller knows originalSize. A block
     that moves takes its contents along, and no byte of any block changes.
     */
    method Realloc(p: nat, originalSize: nat, newSize: nat, answer: Option<nat>, ghost n: nat) returns (q: nat)
      requires Valid() && IsFresh(Now(), answer, HEADER + NewCapacity(chunkCapacity, Align(newSize)))
      requires p != 0 ==> IsBlock(Now(), p, n) && 0 < originalSize <= n
      modifies this, chunks
      ensures Valid()
      ensures p != 0 && LooksLast(old(Now()), p, Align(originalSize)) ==> old(Now()) != [] && old(Now())[0].lens != []
      ensures var (r, result, copies) := Realloced(old(Now()), p, originalSize, newSize, chunkCapacity, answer);
              && Now() == r && q == result
              && (copies ==> SameBytes(old(memory), p, memory, q, Align(originalSize)))
              && (!copies ==> memory == old(memory))
      ensures BlocksUntouched(old(Now()), old(memory), memory)
    {
      hide ValidLayout, IsFresh, IsChain, IsBlock, Malloced, Align, Areas, SameBytes, HasRoom, LooksLast, Grown, Sum;
      Untouched(Now(), memory);
      if p == 0 {
        q := Malloc(newSize, answer);
        return;
      }
      ResizedBlock(Now(), p, n, originalSize);
      if newSize == 0 {
        return 0;
      }
      var o, m := Align(originalSize), Align(newSize);
      AlignRoundsUp(newSize);
      if o >= m {
        return p;
      }
      LastTest(chunkHead, chunks, p, o);
      HeadRoom(chunkHead, chunks, m - o);
      if chunkHead != null && p == chunkHead.base + HEADER + chunkHead.size - o {
        if chunkHead.size + (m - o) <= chunkHead.capacity {
          Expand(m - o);
          return p;
        }
      }
      q := Relocate(p, n, o, m, answer);
    }

    /** Drops all chunks but the user's buffer, which becomes empty. */
    method Clear()
      requires Valid()
      modifies this, chunks
      ensures Valid() && memory == old(memory)
      ensures Now() == if userBuffer == null then [] else [Area(userBuffer.base, userBuffer.capacity, [])]
      ensures userBuffer != null ==> userBuffer.capacity == old(userBuffer.capacity)
    {
      while chunkHead != null && chunkHead != userBuffer
        invariant IsChain(chunkHead, chunks) && UserBufferIsLast(userBuffer, chunks)
        invariant forall c :: c in chunks ==> c in old(chunks)
        invariant forall c :: c in old(chunks) ==> c.GetArea() == old(c.GetArea())
        invariant ValidLayout(Areas(chunks)) && memory == old(memory)
        decreases |chunks|
      {
        Popped(chunkHead, chunks);
        TailIsValid(chunks);
        var next := chunkHead.next;
        chunks := chunks[1..];
        chunkHead := next;
      }
      if chunkHead != null && chunkHead == userBuffer {
        OnlyUserBuffer(chunkHead, chunks, userBuffer);
        assert GoodArea(Areas(chunks)[0]);
        EmptiedIsValid(chunkHead.GetArea());
        chunkHead.size := 0;
        chunkHead.lens := [];
        assert Sum([]) == 0;
        SingleArea(chunkHead);
      }
    }

    method Size() returns (size: nat)
      requires Valid()
      ensures size == TotalUsed(Now())
    {
      size := 0;
      var c := chunkHead;
      ghost var rest := chunks;
      while c != null
        invariant IsChain(c, rest) && size + TotalUsed(Areas(rest)) == TotalUsed(Now())
        decreases |rest|
      {
        Popped(c, rest);
        FirstOfTotals(c.GetArea(), Areas(rest[1..]));
        size := size + c.size;
        c := c.next;
        rest := rest[1..];
      }
    }

    method Capacity() returns (capacity: nat)
      requires Valid()
      ensures capacity == TotalCapacity(Now())
    {
      capacity := 0;
      var c := chunkHead;
      ghost var rest := chunks;
      while c != null
        invariant IsChain(c, rest) && capacity + TotalCapacity(Areas(rest)) == TotalCapacity(Now())
        decreases |rest|
      {
        Popped(c, rest);
        FirstOfTotals(c.GetArea(), Areas(rest[1..]));
        capacity := capacity + c.capacity;
        c := c.next;
        rest := rest[1..];
      }
    }
  }

  lemma FirstOfTotals(a: Area, l: Layout)
    ensures TotalUsed([a] + l) == Used(a) + TotalUsed(l)
    ensures TotalCapacity([a] + l) == a.capacity + TotalCapacity(l)
  {
    assert ([a] + l)[1..] == l;
  }

  lemma TailIsValid(chunks: seq<ChunkHeader>)
    requires chunks != [] && ValidLayout(Areas(chunks))
    ensures ValidLayout(Areas(chunks[1..]))
  {
    AreasAt(chunks);
    AreasAt(chunks[1..]);
    var l, r := Areas(chunks), Areas(chunks[1..]);
    forall i, j | 0 <= i < j < |r|
      ensures AreasApart(r[i], r[j])
    {
      assert AreasApart(l[i + 1], l[j + 1]);
    }
    forall i | 0 <= i < |r|
      ensures GoodArea(r[i])
    {
      assert GoodArea(l[i + 1]);
    }
  }

  lemma OnlyUserBuffer(head: ChunkHeader?, chunks: seq<ChunkHeader>, buffer: ChunkHeader?)
    requires head != null && head == buffer && IsChain(head, chunks) && UserBufferIsLast(buffer, chunks)
    ensures chunks == [buffer] && buffer.next == null && Areas(chunks) == [buffer.GetArea()]
  {
    assert IsLink(chunks, 0);
    assert |chunks| == 1;
    assert chunks == [chunks[0]];
  }

  lemma SingleArea(c: ChunkHeader)
    requires c.next == null && c.size == Used(c.GetArea())
    ensures IsChain(c, [c]) && Areas([c]) == [c.GetArea()]
  {
    assert [c][1..] == [];
    assert IsLink([c], 0);
    assert [c.GetArea()] + [] == [c.GetArea()];
  }

  /** No byte of any block has changed. */
  ghost predicate BlocksUntouched(l: Layout, before: map<nat, int>, after: map<nat, int>) {
    forall b, k :: IsBlock(l, b, k) ==> SameBytes(before, b, after, b, k)
  }

  lemma Untouched(l: Layout, memory: map<nat, int>)
    ensures BlocksUntouched(l, memory, memory)
  {
  }

  lemma OthersUntouched(l: Layout, r: Layout, q: nat, m: nat, o: nat, before: map<nat, int>, after: map<nat, int>)
    requires IsAllocation(l, r, q, m) && o <= m && OnlyWritten(before, after, q, o)
    ensures BlocksUntouched(l, before, after)
  {
    hide IsBlock, ValidLayout;
  }

  lemma ByteCopied(before: map<nat, int>, memory: map<nat, int>, from: nat, to: nat, i: nat)
    requires SameBytes(before, from, memory, to, i) && OnlyWritten(before, memory, to, i)
    requires Apart(to, i + 1, from, i + 1)
    ensures var after := memory[to + i := Byte(memory, from + i)];
            SameBytes(before, from, after, to, i + 1) && OnlyWritten(before, after, to, i + 1)
  {
    var after := memory[to + i := Byte(memory, from + i)];
    assert Byte(memory, from + i) == Byte(before, from + i);
    forall a: nat | to <= a < to + i + 1
      ensures Byte(after, a) == Byte(before, a - to + from)
    {
      assert a != to + i ==> Byte(after, a) == Byte(memory, a);
    }
  }

  /** The comparison of `Realloc` looks at the head chunk. */
  lemma LastTest(head: ChunkHeader?, chunks: seq<ChunkHeader>, p: nat, o: nat)
    requires IsChain(head, chunks)
    ensures LooksLast(Areas(chunks), p, o) <==> head != null && p == head.base + HEADER + head.size - o
  {
    if chunks != [] {
      Popped(head, chunks);
    }
  }

  lemma SumLast(s: seq<nat>, more: nat)
    requires s != []
    ensures Sum(s[|s| - 1 := s[|s| - 1] + more]) == Sum(s) + more
  {
    var k := |s| - 1;
    assert s[k := s[k] + more][..k] == s[..k];
  }

  lemma WholePrefix(s: seq<nat>)
    ensures s[..|s|] == s
  {
  }

  /** The test for room looks at the head chunk. */
  lemma HeadRoom(head: ChunkHeader?, chunks: seq<ChunkHeader>, n: nat)
    requires IsChain(head, chunks)
    ensures HasRoom(Areas(chunks), n) <==> head != null && head.size + n <= head.capacity
    ensures head != null ==> head in chunks
  {
    if chunks != [] {
      Popped(head, chunks);
    }
  }
}
