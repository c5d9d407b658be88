/**
 Whole runs of `MemoryPoolAllocator` of `native/mars/rapidjson/allocators.h`
 with what its users write in between: a block stays theirs until `Clear`.
 */
module PoolRuns {

  import opened Options
  import opened PoolLayouts
  import opened PoolAllocators

  /** The layout and the memory at one point of a run. */
  datatype Point = Point(layout: Layout, memory: map<nat, int>)

  /** A call of the allocator, or a byte written by somebody. */
  datatype Move = OneCall(call: Call) | Write(at: nat, value: int)

  /** What a move may do: of a call, what the contracts of the allocator's methods say. */
  ghost predicate IsMove(x: Point, y: Point, chunkCapacity: nat, m: Move) {
    match m
    case OneCall(c) => IsStep(x.layout, y.layout, chunkCapacity, c) && BlocksUntouched(x.layout, x.memory, y.memory)
    case Write(at, value) => y == x.(memory := x.memory[at := value])
  }

  ghost predicate IsHistory(points: seq<Point>, chunkCapacity: nat, moves: seq<Move>) {
    && |points| == |moves| + 1
    && forall i :: 0 <= i < |moves| ==> IsMove(points[i], points[i + 1], chunkCapacity, moves[i])
  }

  /** The move neither clears the pool nor writes to the n bytes at p. */
  predicate LeavesAlone(m: Move, p: nat, n: nat) {
    match m
    case OneCall(c) => !c.DoClear?
    case Write(at, _) => at < p || p + n <= at
  }

  /** At p there is a block of at least n bytes; it may have grown. */
  ghost predicate Holds(l: Layout, p: nat, n: nat) { exists m: nat :: m >= n && IsBlock(l, p, m) }

  lemma KeptHolds(l: Layout, r: Layout, p: nat, n: nat)
    requires Holds(l, p, n) && KeepsBlocks(l, r)
    ensures Holds(r, p, n)
  {
    hide IsBlock;
    var m: nat :| m >= n && IsBlock(l, p, m);
    assert IsBlock(r, p, m);
  }

  lemma BlocksAreOne(l: Layout, p: nat, n: nat, m: nat)
    requires ValidLayout(l) && IsBlock(l, p, n) && IsBlock(l, p, m)
    ensures n == m
  {
    var i: nat, j: nat :| IsBlockOf(l, i, j, p, n);
    var k: nat, o: nat :| IsBlockOf(l, k, o, p, m);
    StartsDiffer(l, i, j, k, o, p, n, m);
  }

  lemma ResizedHolds(l: Layout, r: Layout, p: nat, n: nat, b: nat, k: nat, size: nat, q: nat)
    requires ValidLayout(l) && Holds(l, p, n) && IsBlock(l, b, k) && IsResized(l, b, k, size, r, q)
    ensures Holds(r, p, n)
  {
    hide IsBlock, ValidLayout;
    if q != b {
      KeptHolds(l, r, p, n);
    } else {
      var m: nat :| m >= n && IsBlock(l, p, m);
      if p == b {
        BlocksAreOne(l, p, m, k);
        var o: nat :| IsBlock(r, p, o) && o >= size && o >= k;
      }
    }
  }

  lemma CallHolds(l: Layout, chunkCapacity: nat, c: Call, p: nat, n: nat)
    requires ValidLayout(l) && IsLegal(l, chunkCapacity, c) && !c.DoClear? && Holds(l, p, n)
    ensures Holds(Done(l, chunkCapacity, c), p, n)
  {
    hide ValidLayout, Holds, IsBlock, IsFresh, IsResized, Malloced, Realloced, Align, LooksLast;
    match c {
      case DoMalloc(size, answer) =>
        MallocIsSafe(l, size, chunkCapacity, answer);
        var (r, q) := Malloced(l, size, chunkCapacity, answer);
        if q != 0 {
          KeptHolds(l, r, p, n);
        }
      case DoRealloc(b, originalSize, newSize, answer, k) =>
        AnyRealloc(l, b, k, originalSize, newSize, chunkCapacity, answer);
        var (r, q, _) := Realloced(l, b, originalSize, newSize, chunkCapacity, answer);
        if b == 0 {
          ReallocNullIsSafe(l, originalSize, newSize, chunkCapacity, answer);
          if q != 0 {
            KeptHolds(l, r, p, n);
          }
        } else {
          ReallocIsSafe(l, b, k, originalSize, newSize, chunkCapacity, answer);
          if q != 0 {
            ResizedHolds(l, r, p, n, b, k, newSize, q);
          }
        }
    }
  }

  lemma BytesStay(l: Layout, before: map<nat, int>, after: map<nat, int>, p: nat, n: nat)
    requires Holds(l, p, n) && BlocksUntouched(l, before, after)
    ensures SameBytes(before, p, after, p, n)
  {
    hide IsBlock;
    var m: nat :| m >= n && IsBlock(l, p, m);
    assert SameBytes(before, p, after, p, m);
  }

  lemma MoveLeavesBlock(x: Point, y: Point, chunkCapacity: nat, m: Move, p: nat, n: nat)
    requires ValidLayout(x.layout) && IsMove(x, y, chunkCapacity, m) && LeavesAlone(m, p, n) && Holds(x.layout, p, n)
    ensures ValidLayout(y.layout) && Holds(y.layout, p, n) && SameBytes(x.memory, p, y.memory, p, n)
  {
    hide ValidLayout, Holds, IsLegal, Done, BlocksUntouched;
    match m {
      case OneCall(c) =>
        CallHolds(x.layout, chunkCapacity, c, p, n);
        StepIsValid(x.layout, chunkCapacity, c);
        BytesStay(x.layout, x.memory, y.memory, p, n);
      case Write(at, value) =>
    }
  }

  /**
   A block handed out at the first point is still one at every later point, with
   the bytes it had, as long as nobody clears the pool or writes to it.
   */
  lemma {:induction false} BlockSurvives(points: seq<Point>, chunkCapacity: nat, moves: seq<Move>, p: nat, n: nat)
    requires IsHistory(points, chunkCapacity, moves) && ValidLayout(points[0].layout) && Holds(points[0].layout, p, n)
    requires forall i :: 0 <= i < |moves| ==> LeavesAlone(moves[i], p, n)
    ensures forall i :: 0 <= i < |points| ==>
              && ValidLayout(points[i].layout) && Holds(points[i].layout, p, n)
              && SameBytes(points[0].memory, p, points[i].memory, p, n)
    decreases |moves|
  {
    hide ValidLayout, Holds, IsMove, LeavesAlone;
    if moves != [] {
      assert IsMove(points[0], points[1], chunkCapacity, moves[0]);
      MoveLeavesBlock(points[0], points[1], chunkCapacity, moves[0], p, n);
      HistoryTail(points, chunkCapacity, moves);
      BlockSurvives(points[1..], chunkCapacity, moves[1..], p, n);
      forall i | 0 <= i < |points|
        ensures ValidLayout(points[i].layout) && Holds(points[i].layout, p, n)
        ensures SameBytes(points[0].memory, p, points[i].memory, p, n)
      {
        if i > 0 {
          assert points[i] == points[1..][i - 1];
          assert points[1..][0] == points[1];
          SameBytesTwice(points[0].memory, points[1].memory, points[i].memory, p, n);
        }
      }
    }
  }

  lemma HistoryTail(points: seq<Point>, chunkCapacity: nat, moves: seq<Move>)
    requires IsHistory(points, chunkCapacity, moves) && moves != []
    ensures IsHistory(points[1..], chunkCapacity, moves[1..])
  {
    hide IsMove;
    forall i | 0 <= i < |moves| - 1
      ensures IsMove(points[1..][i], points[1..][i + 1], chunkCapacity, moves[1..][i])
    {
      assert IsMove(points[i + 1], points[i + 2], chunkCapacity, moves[i + 1]);
    }
  }

  lemma SameBytesTwice(x: map<nat, int>, y: map<nat, int>, z: map<nat, int>, p: nat, n: nat)
    requires SameBytes(x, p, y, p, n) && SameBytes(y, p, z, p, n)
    ensures SameBytes(x, p, z, p, n)
  {
  }

  /** The pointer a call yields, and the size asked for. */
  ghost function Given(l: Layout, chunkCapacity: nat, c: Call): (nat, nat)
    requires ValidLayout(l) && IsLegal(l, chunkCapacity, c) && !c.DoClear?
  {
    match c
    case DoMalloc(size, answer) => (Malloced(l, size, chunkCapacity, answer).1, size)
    case DoRealloc(p, originalSize, newSize, answer, n) =>
      AnyRealloc(l, p, n, originalSize, newSize, chunkCapacity, answer);
      (Realloced(l, p, originalSize, newSize, chunkCapacity, answer).1, newSize)
  }

  /** The pointer is a new one: `Malloc` yields no other, `Realloc` unless the block stays. */
  ghost predicate IsNew(l: Layout, chunkCapacity: nat, c: Call)
    requires ValidLayout(l) && IsLegal(l, chunkCapacity, c) && !c.DoClear?
  {
    var q := Given(l, chunkCapacity, c).0;
    q != 0 && (c.DoRealloc? ==> q != c.p)
  }

  lemma NewIsAllocation(l: Layout, chunkCapacity: nat, c: Call)
    requires ValidLayout(l) && IsLegal(l, chunkCapacity, c) && !c.DoClear? && IsNew(l, chunkCapacity, c)
    ensures var (q, size) := Given(l, chunkCapacity, c);
            IsAllocation(l, Done(l, chunkCapacity, c), q, Align(size)) && size <= Align(size)
  {
    hide ValidLayout, IsBlock, IsFresh, Malloced, Realloced, Align, LooksLast, IsAllocation, HasRoom;
    match c {
      case DoMalloc(size, answer) => MallocIsSafe(l, size, chunkCapacity, answer);
      case DoRealloc(b, originalSize, newSize, answer, k) =>
        AnyRealloc(l, b, k, originalSize, newSize, chunkCapacity, answer);
        AlignRoundsUp(newSize);
        if b == 0 {
          ReallocNullIsSafe(l, originalSize, newSize, chunkCapacity, answer);
        } else {
          ReallocIsSafe(l, b, k, originalSize, newSize, chunkCapacity, answer);
        }
    }
  }

  /** What is handed out in such a run is a block, apart from every block that is still somebody's. */
  lemma HandedOutIsApart(points: seq<Point>, chunkCapacity: nat, moves: seq<Move>, p: nat, n: nat, c: Call)
    requires IsHistory(points, chunkCapacity, moves) && ValidLayout(points[0].layout) && Holds(points[0].layout, p, n)
    requires forall i :: 0 <= i < |moves| ==> LeavesAlone(moves[i], p, n)
    requires IsLegal(points[|moves|].layout, chunkCapacity, c) && !c.DoClear?
    ensures var l := points[|moves|].layout;
            && ValidLayout(l)
            && var (q, size) := Given(l, chunkCapacity, c);
               IsNew(l, chunkCapacity, c) ==>
                 Holds(Done(l, chunkCapacity, c), q, size) && Apart(q, Align(size), p, n)
  {
    hide ValidLayout, IsLegal, Done, Given, IsNew, IsBlock, LeavesAlone, IsMove, Align;
    BlockSurvives(points, chunkCapacity, moves, p, n);
    var l := points[|moves|].layout;
    if IsNew(l, chunkCapacity, c) {
      NewIsAllocation(l, chunkCapacity, c);
      var m: nat :| m >= n && IsBlock(l, p, m);
      var (q, size) := Given(l, chunkCapacity, c);
      assert IsBlock(Done(l, chunkCapacity, c), q, Align(size));
    }
  }
}
