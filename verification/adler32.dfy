/**
 Adler-32 as computed by `native/mars/comm/adler32.c`.

 The reference is the byte-at-a-time definition of section 8.2 of RFC 1950.
 The code defers the reductions over blocks of up to NMAX bytes; the methods
 below keep every intermediate value in `uint32`, so each assignment carries
 the proof that no 32-bit sum wraps.
 */
module Adler32 {

  import opened Bytes

  const BASE: int := 65521
  const NMAX: int := 5552

  /** A possibly null pointer to constant bytes. */
  datatype Pointer = Null | To(bytes: seq<byte>)

  // ----- the definition -----

  datatype Sums = Sums(a: nat, b: nat)

  /** The two 16-bit halves of a checksum. */
  function Split(adler: uint32): (s: Sums)
    ensures s.a < 0x1_0000 && s.b < 0x1_0000
  {
    Sums(adler % 0x1_0000, adler / 0x1_0000)
  }

  function Combined(s: Sums): (adler: uint32)
    requires s.a < 0x1_0000 && s.b < 0x1_0000
    ensures Split(adler) == s
  {
    s.a + 0x1_0000 * s.b
  }

  ghost predicate Reduced(s: Sums) {
    s.a < BASE && s.b < BASE
  }

  function Step(s: Sums, x: byte): (r: Sums)
    ensures Reduced(r)
  {
    var a := (s.a + x) % BASE;
    Sums(a, (s.b + a) % BASE)
  }

  /** Section 8.2 of RFC 1950: both halves reduced after every byte. */
  function Fold(s: Sums, buf: seq<byte>): (r: Sums)
    ensures buf != [] || Reduced(s) ==> Reduced(r)
    ensures s.a < 0x1_0000 && s.b < 0x1_0000 ==> r.a < 0x1_0000 && r.b < 0x1_0000
    decreases |buf|
  {
    if buf == [] then s else Fold(Step(s, buf[0]), buf[1..])
  }

  function Checksum(start: uint32, buf: seq<byte>): uint32 {
    Combined(Fold(Split(start), buf))
  }

  // ----- deferred sums -----

  ghost function Plus(s: Sums, x: byte): Sums { Sums(s.a + x, s.b + s.a + x) }

  /** The sums with every reduction left out. */
  ghost function Raw(s: Sums, buf: seq<byte>): Sums
    decreases |buf|
  {
    if buf == [] then s else Raw(Plus(s, buf[0]), buf[1..])
  }

  ghost function Reduce(s: Sums): (r: Sums)
    ensures Reduced(r)
  {
    Sums(s.a % BASE, s.b % BASE)
  }

  lemma {:induction false} RawConcat(s: Sums, x: seq<byte>, y: seq<byte>)
    ensures Raw(s, x + y) == Raw(Raw(s, x), y)
    decreases |x|
  {
    if x == [] {
      assert x + y == y;
    } else {
      assert (x + y)[1..] == x[1..] + y;
      RawConcat(Plus(s, x[0]), x[1..], y);
    }
  }

  /** Checksumming can be resumed: a checksum is a valid start value. */
  lemma {:induction false} FoldConcat(s: Sums, x: seq<byte>, y: seq<byte>)
    ensures Fold(s, x + y) == Fold(Fold(s, x), y)
    decreases |x|
  {
    hide Step;
    if x == [] {
      assert x + y == y;
    } else {
      assert (x + y)[1..] == x[1..] + y;
      FoldConcat(Step(s, x[0]), x[1..], y);
    }
  }

  lemma ChecksumConcat(start: uint32, x: seq<byte>, y: seq<byte>)
    ensures Checksum(Checksum(start, x), y) == Checksum(start, x + y)
  {
    FoldConcat(Split(start), x, y);
  }

  lemma PlusReduced(s: Sums, t: Sums, x: byte)
    requires Reduce(s) == Reduce(t)
    ensures Reduce(Plus(s, x)) == Reduce(Plus(t, x))
  {
    CongruentSum(s.a, t.a, x, x);
    CongruentSum(s.a + x, t.a + x, s.b, t.b);
  }

  lemma CongruentSum(x: int, y: int, z: int, w: int)
    requires x % BASE == y % BASE && z % BASE == w % BASE
    ensures (x + z) % BASE == (y + w) % BASE
  {
    var k := x / BASE - y / BASE + (z / BASE - w / BASE);
    assert x + z == y + w + k * BASE;
    ModShift(y + w, k);
  }

  lemma ModEqual(x: nat, y: nat)
    requires x % BASE == y % BASE
    ensures x == y + (x / BASE - y / BASE) * BASE
  {
  }

  lemma ModShift(x: int, k: int)
    ensures (x + k * BASE) % BASE == x % BASE
  {
  }

  /** Reducing in the middle does not change the reduced result. */
  lemma {:induction false} ReduceIsDeferrable(s: Sums, t: Sums, buf: seq<byte>)
    requires Reduce(s) == Reduce(t)
    ensures Reduce(Raw(s, buf)) == Reduce(Raw(t, buf))
    decreases |buf|
  {
    hide Reduce;
    if buf != [] {
      PlusReduced(s, t, buf[0]);
      ReduceIsDeferrable(Plus(s, buf[0]), Plus(t, buf[0]), buf[1..]);
    }
  }

  lemma StepReduced(s: Sums, x: byte)
    ensures Step(s, x) == Reduce(Plus(s, x)) == Reduce(Step(s, x))
  {
    var a := (s.a + x) % BASE;
    var k := (s.a + x) / BASE;
    assert s.b + s.a + x == s.b + a + k * BASE;
    ModShift(s.b + a, k);
  }

  lemma ReducedIsFixed(s: Sums)
    requires Reduced(s)
    ensures Reduce(s) == s
  {
  }

  /** Deferring every reduction to the end computes the definition. */
  lemma {:induction false} FoldIsReducedRaw(s: Sums, buf: seq<byte>)
    requires buf != [] || Reduced(s)
    ensures Fold(s, buf) == Reduce(Raw(s, buf))
    decreases |buf|
  {
    hide Reduce, Step, Plus;
    if buf == [] {
      ReducedIsFixed(s);
    } else {
      StepReduced(s, buf[0]);
      FoldIsReducedRaw(Step(s, buf[0]), buf[1..]);
      ReduceIsDeferrable(Step(s, buf[0]), Plus(s, buf[0]), buf[1..]);
    }
  }

  // ----- the 32-bit bound -----

  /** The largest values the two sums can have after n bytes, from halves of at most m. */
  ghost function LimitA(m: nat, n: nat): nat { m + 255 * n }

  ghost function LimitB(m: nat, n: nat): nat {
    if n == 0 then m else LimitB(m, n - 1) + LimitA(m, n)
  }

  lemma {:induction false} LimitBClosedForm(m: nat, n: nat)
    ensures 2 * LimitB(m, n) == 2 * m * (n + 1) + 255 * n * (n + 1)
  {
    if n > 0 {
      LimitBClosedForm(m, n - 1);
    }
  }

  lemma {:induction false} LimitBMonotone(m: nat, i: nat, j: nat)
    requires i <= j
    ensures LimitB(m, i) <= LimitB(m, j)
    decreases j
  {
    if i < j {
      LimitBMonotone(m, i, j - 1);
    }
  }

  /** The limits are bounds of the deferred sums, reached by all-255 input. */
  lemma {:induction false} LimitIsWorstCase(m: nat, k: nat, s: Sums, buf: seq<byte>)
    requires s.a <= LimitA(m, k) && s.b <= LimitB(m, k)
    ensures Raw(s, buf).a <= LimitA(m, k + |buf|) && Raw(s, buf).b <= LimitB(m, k + |buf|)
    ensures s == Sums(LimitA(m, k), LimitB(m, k)) && (forall i :: 0 <= i < |buf| ==> buf[i] == 255) ==>
              Raw(s, buf) == Sums(LimitA(m, k + |buf|), LimitB(m, k + |buf|))
    decreases |buf|
  {
    if buf != [] {
      LimitIsWorstCase(m, k + 1, Plus(s, buf[0]), buf[1..]);
    }
  }

  /** NMAX is exactly the largest block that cannot overflow from reduced halves. */
  lemma NmaxIsTight(n: nat)
    ensures LimitB(BASE - 1, n) <= 0xFFFF_FFFF <==> n <= NMAX
  {
    LimitBClosedForm(BASE - 1, NMAX);
    LimitBClosedForm(BASE - 1, NMAX + 1);
    if n <= NMAX {
      LimitBMonotone(BASE - 1, n, NMAX);
    } else {
      LimitBMonotone(BASE - 1, NMAX + 1, n);
    }
  }

  ghost predicate Within(n: nat, a: int, s: int) {
    0 <= a <= LimitA(0xFFFF, n) && 0 <= s <= LimitB(0xFFFF, n)
  }

  /** Halves of up to 16 bits, not only reduced ones, leave room for a whole block. */
  lemma WithinFits(n: nat, a: int, s: int)
    requires n <= NMAX && Within(n, a, s)
    ensures a <= 0xFFFF_FFFF && s <= 0xFFFF_FFFF
  {
    LimitBClosedForm(0xFFFF, NMAX);
    LimitBMonotone(0xFFFF, n, NMAX);
  }

  // ----- modulo by subtraction -----

  /** One rung: at most one subtraction of a power-of-two multiple of BASE. */
  method Rung(x: uint32, power: nat) returns (a: uint32)
    ensures a % BASE == x % BASE
    ensures a < BASE * power <==> x < BASE * (2 * power)
  {
    a := x;
    if a >= BASE * power {
      ModShift(a - BASE * power, power);
      a := a - BASE * power;
    }
  }

  method ModLadder(x: uint32) returns (a: uint32)
    ensures a == x % BASE
  {
    a := Rung(x, 0x1_0000);
    a := Rung(a, 0x8000);
    a := Rung(a, 0x4000);
    a := Rung(a, 0x2000);
    a := Rung(a, 0x1000);
    a := Rung(a, 0x800);
    a := Rung(a, 0x400);
    a := Rung(a, 0x200);
    a := Rung(a, 0x100);
    a := Rung(a, 0x80);
    a := Rung(a, 0x40);
    a := Rung(a, 0x20);
    a := Rung(a, 0x10);
    a := Rung(a, 8);
    a := Rung(a, 4);
    a := Rung(a, 2);
    a := Rung(a, 1);
  }

  /** The short ladder is a modulo exactly below 32 * BASE. */
  method Mod4Ladder(x: uint32) returns (a: uint32)
    ensures a == x % BASE <==> x < 32 * BASE
  {
    a := Rung(x, 0x10);
    a := Rung(a, 8);
    a := Rung(a, 4);
    a := Rung(a, 2);
    a := Rung(a, 1);
  }

  method Mod(noDivide: bool, x: uint32) returns (a: uint32)
    ensures a == x % BASE
  {
    if noDivide {
      a := ModLadder(x);
    } else {
      a := x % BASE;
    }
  }

  method Mod4(noDivide: bool, x: uint32) returns (a: uint32)
    requires x < 32 * BASE
    ensures a == x % BASE
  {
    if noDivide {
      a := Mod4Ladder(x);
    } else {
      a := x % BASE;
    }
  }

  // ----- the unrolled summation -----

  method Do1(adler: uint32, sum2: uint32, buf: seq<byte>, i: nat, ghost n: nat) returns (a: uint32, s: uint32)
    requires i < |buf| && n < NMAX && Within(n, adler, sum2)
    ensures Within(n + 1, a, s) && Sums(a, s) == Raw(Sums(adler, sum2), buf[i..i + 1])
  {
    assert Within(n + 1, adler + buf[i], sum2 + adler + buf[i]);
    WithinFits(n + 1, adler + buf[i], sum2 + adler + buf[i]);
    a := adler + buf[i];
    s := sum2 + a;
    assert buf[i..i + 1] == [buf[i]];
    assert [buf[i]][1..] == [];
  }

  method Do2(adler: uint32, sum2: uint32, buf: seq<byte>, i: nat, ghost n: nat) returns (a: uint32, s: uint32)
    requires i + 2 <= |buf| && n + 2 <= NMAX && Within(n, adler, sum2)
    ensures Within(n + 2, a, s) && Sums(a, s) == Raw(Sums(adler, sum2), buf[i..i + 2])
  {
    a, s := Do1(adler, sum2, buf, i, n);
    a, s := Do1(a, s, buf, i + 1, n + 1);
    RawSlices(Sums(adler, sum2), buf, i, i + 1, i + 2);
  }

  method Do4(adler: uint32, sum2: uint32, buf: seq<byte>, i: nat, ghost n: nat) returns (a: uint32, s: uint32)
    requires i + 4 <= |buf| && n + 4 <= NMAX && Within(n, adler, sum2)
    ensures Within(n + 4, a, s) && Sums(a, s) == Raw(Sums(adler, sum2), buf[i..i + 4])
  {
    a, s := Do2(adler, sum2, buf, i, n);
    a, s := Do2(a, s, buf, i + 2, n + 2);
    RawSlices(Sums(adler, sum2), buf, i, i + 2, i + 4);
  }

  method Do8(adler: uint32, sum2: uint32, buf: seq<byte>, i: nat, ghost n: nat) returns (a: uint32, s: uint32)
    requires i + 8 <= |buf| && n + 8 <= NMAX && Within(n, adler, sum2)
    ensures Within(n + 8, a, s) && Sums(a, s) == Raw(Sums(adler, sum2), buf[i..i + 8])
  {
    a, s := Do4(adler, sum2, buf, i, n);
    a, s := Do4(a, s, buf, i + 4, n + 4);
    RawSlices(Sums(adler, sum2), buf, i, i + 4, i + 8);
  }

  method Do16(adler: uint32, sum2: uint32, buf: seq<byte>, i: nat, ghost n: nat) returns (a: uint32, s: uint32)
    requires i + 16 <= |buf| && n + 16 <= NMAX && Within(n, adler, sum2)
    ensures Within(n + 16, a, s) && Sums(a, s) == Raw(Sums(adler, sum2), buf[i..i + 16])
  {
    a, s := Do8(adler, sum2, buf, i, n);
    a, s := Do8(a, s, buf, i + 8, n + 8);
    RawSlices(Sums(adler, sum2), buf, i, i + 8, i + 16);
  }

  lemma RawSlices(s: Sums, buf: seq<byte>, i: nat, j: nat, k: nat)
    requires i <= j <= k <= |buf|
    ensures Raw(s, buf[i..k]) == Raw(Raw(s, buf[i..j]), buf[j..k])
  {
    assert buf[i..k] == buf[i..j] + buf[j..k];
    RawConcat(s, buf[i..j], buf[j..k]);
  }

  // ----- adler32 -----

  /**
   The start values on which the code computes the definition: all of them from
   two bytes on, but a single byte is reduced by one subtraction only and the
   empty input is reduced although the definition leaves it alone.
   */
  ghost predicate Agrees(start: Sums, buf: seq<byte>) {
    |buf| >= 2
    || (|buf| == 1 && start.b + (start.a + buf[0]) % BASE < 2 * BASE)
    || (|buf| == 0 && Reduced(start))
  }

  /** Whole groups of sixteen bytes from p, while they last. */
  method Sixteens(adler: uint32, sum2: uint32, buf: seq<byte>, p: nat, n: nat)
    returns (a: uint32, s: uint32, len: nat)
    requires p + n <= |buf| && n <= NMAX && adler <= 0xFFFF && sum2 <= 0xFFFF
    ensures len < 16 && len <= n && Within(n - len, a, s)
    ensures Sums(a, s) == Raw(Sums(adler, sum2), buf[p..p + n - len])
  {
    a, s, len := adler, sum2, n;
    assert buf[p..p] == [] && Within(0, a, s);
    hide Within;
    while len >= 16
      invariant 0 <= len <= n && Within(n - len, a, s)
      invariant Sums(a, s) == Raw(Sums(adler, sum2), buf[p..p + n - len])
    {
      ghost var from := p + n - len;
      a, s := Do16(a, s, buf, p + n - len, n - len);
      len := len - 16;
      RawSlices(Sums(adler, sum2), buf, p, from, from + 16);
    }
  }

  /** The last bytes, one at a time. */
  method Singles(adler: uint32, sum2: uint32, buf: seq<byte>, p: nat, n: nat, ghost k: nat)
    returns (a: uint32, s: uint32)
    requires p + n <= |buf| && k + n <= NMAX && Within(k, adler, sum2)
    ensures Within(k + n, a, s) && Sums(a, s) == Raw(Sums(adler, sum2), buf[p..p + n])
  {
    hide Within;
    a, s := adler, sum2;
    var len := n;
    assert buf[p..p] == [];
    while len > 0
      invariant 0 <= len <= n && Within(k + n - len, a, s)
      invariant Sums(a, s) == Raw(Sums(adler, sum2), buf[p..p + n - len])
    {
      ghost var from := p + n - len;
      a, s := Do1(a, s, buf, p + n - len, k + n - len);
      len := len - 1;
      RawSlices(Sums(adler, sum2), buf, p, from, from + 1);
    }
  }

  /** One block of n bytes from p: the deferred sums, then a single reduction. */
  method Block(noDivide: bool, adler: uint32, sum2: uint32, buf: seq<byte>, p: nat, n: nat)
    returns (a: uint32, s: uint32)
    requires p + n <= |buf| && n <= NMAX && adler <= 0xFFFF && sum2 <= 0xFFFF
    ensures Sums(a, s) == Reduce(Raw(Sums(adler, sum2), buf[p..p + n]))
  {
    var len;
    a, s, len := Sixteens(adler, sum2, buf, p, n);
    a, s := Singles(a, s, buf, p + n - len, len, n - len);
    RawSlices(Sums(adler, sum2), buf, p, p + n - len, p + n);
    a := Mod(noDivide, a);
    s := Mod(noDivide, s);
  }

  /** Reducing after the bytes from p to q leaves the reduced total of the rest unchanged. */
  lemma BlockStep(buf: seq<byte>, s: Sums, p: nat, q: nat)
    requires p <= q <= |buf|
    ensures Reduce(Raw(s, buf[p..])) == Reduce(Raw(Reduce(Raw(s, buf[p..q])), buf[q..]))
  {
    hide Raw;
    RawSlices(s, buf, p, q, |buf|);
    assert buf[p..|buf|] == buf[p..] && buf[q..|buf|] == buf[q..];
    var u := Raw(s, buf[p..q]);
    assert Reduce(Reduce(u)) == Reduce(u);
    ReduceIsDeferrable(Reduce(u), u, buf[q..]);
  }

  method Once(x: uint32) returns (a: uint32)
    ensures a == if x >= BASE then x - BASE else x
    ensures a == x % BASE <==> x < 2 * BASE
  {
    a := x;
    if a >= BASE {
      a := a - BASE;
      ModShift(a, 1);
    }
  }

  lemma FoldOne(s: Sums, x: byte)
    ensures Fold(s, [x]) == Step(s, x)
  {
    hide Step;
    assert [x][1..] == [];
  }

  method OneByte(start: uint32, x: byte) returns (r: uint32)
    ensures r == Checksum(start, [x]) <==> Agrees(Split(start), [x])
  {
    var sum2: uint32 := start / 0x1_0000;
    var adler: uint32 := start % 0x1_0000;
    FoldOne(Sums(adler, sum2), x);
    adler := adler + x;
    adler := Once(adler);
    sum2 := sum2 + adler;
    sum2 := Once(sum2);
    r := Combined(Sums(adler, sum2));
    assert Split(r) == Sums(adler, sum2);
  }

  method FewBytes(noDivide: bool, start: uint32, buf: seq<byte>) returns (r: uint32)
    requires |buf| < 16
    ensures Split(r) == Reduce(Raw(Split(start), buf))
  {
    var sum2: uint32 := start / 0x1_0000;
    var adler: uint32 := start % 0x1_0000;
    var n := 0;
    while n < |buf|
      invariant n <= |buf| && Within(n, adler, sum2)
      invariant Sums(adler, sum2) == Raw(Split(start), buf[..n])
    {
      adler, sum2 := Do1(adler, sum2, buf, n, n);
      RawSlices(Split(start), buf, 0, n, n + 1);
      n := n + 1;
    }
    assert buf[..n] == buf;
    ShortSumsFit(n, adler, sum2);
    adler := Once(adler);
    sum2 := Mod4(noDivide, sum2);
    r := Combined(Sums(adler, sum2));
  }

  method ManyBytes(noDivide: bool, start: uint32, buf: seq<byte>) returns (r: uint32)
    requires |buf| >= 16
    ensures Split(r) == Reduce(Raw(Split(start), buf))
  {
    var sum2: uint32 := start / 0x1_0000;
    var adler: uint32 := start % 0x1_0000;
    var p := 0;
    assert buf[0..] == buf;
    while |buf| - p >= NMAX
      invariant p <= |buf| && adler <= 0xFFFF && sum2 <= 0xFFFF
      invariant p > 0 ==> Reduced(Sums(adler, sum2))
      invariant Reduce(Raw(Split(start), buf)) == Reduce(Raw(Sums(adler, sum2), buf[p..]))
    {
      ghost var before := Sums(adler, sum2);
      adler, sum2 := Block(noDivide, adler, sum2, buf, p, NMAX);
      BlockStep(buf, before, p, p + NMAX);
      p := p + NMAX;
    }
    if p < |buf| {
      ghost var before := Sums(adler, sum2);
      adler, sum2 := Block(noDivide, adler, sum2, buf, p, |buf| - p);
      BlockStep(buf, before, p, |buf|);
      p := |buf|;
    }
    assert buf[p..] == [];
    assert Reduce(Sums(adler, sum2)) == Sums(adler, sum2);
    r := Combined(Sums(adler, sum2));
  }

  /** A null buffer resets the checksum; otherwise `len` bytes are added to `start`. */
  method Compute(noDivide: bool, start: uint32, buf: Pointer, len: nat) returns (r: uint32)
    requires buf.Null? ==> len != 1
    requires buf.To? ==> len <= |buf.bytes|
    ensures buf.Null? ==> r == 1
    ensures buf.To? ==> (r == Checksum(start, buf.bytes[..len]) <==> Agrees(Split(start), buf.bytes[..len]))
  {
    if len == 1 {
      assert buf.bytes[..1] == [buf.bytes[0]];
      r := OneByte(start, buf.bytes[0]);
      return;
    }
    if buf.Null? {
      return 1;
    }
    if len < 16 {
      r := FewBytes(noDivide, start, buf.bytes[..len]);
    } else {
      r := ManyBytes(noDivide, start, buf.bytes[..len]);
    }
    ReducedTotal(start, buf.bytes[..len], r);
  }

  lemma ReducedTotal(start: uint32, data: seq<byte>, r: uint32)
    requires |data| != 1 && Split(r) == Reduce(Raw(Split(start), data))
    ensures r == Checksum(start, data) <==> Agrees(Split(start), data)
  {
    if data != [] || Reduced(Split(start)) {
      FoldIsReducedRaw(Split(start), data);
      assert r == Combined(Split(r));
    }
  }

  lemma ShortSumsFit(n: nat, a: nat, s: nat)
    requires n < 16 && Within(n, a, s)
    ensures a < 2 * BASE && s < 32 * BASE
  {
    LimitBClosedForm(0xFFFF, 15);
    LimitBMonotone(0xFFFF, n, 15);
  }

  /** Where the code and the definition part: a reduced start value never meets the condition's limit. */
  lemma ReducedStartAgrees(start: Sums, buf: seq<byte>)
    requires Reduced(start)
    ensures Agrees(start, buf)
  {
  }

  // ----- combining checksums -----

  lemma Distribute(n: nat, a: nat, x: nat)
    ensures n * (a + x) == n * a + n * x
    ensures (n + 1) * a == n * a + a
    ensures n * (a + x - a) == n * x
  {
  }

  /** The deferred sums of a concatenation, from those of its parts started at 1. */
  lemma {:induction false} RawShift(s: Sums, buf: seq<byte>)
    requires s.a >= 1
    ensures Raw(s, buf).a == s.a + Raw(Sums(1, 0), buf).a - 1
    ensures Raw(s, buf).b == s.b + Raw(Sums(1, 0), buf).b + |buf| * (s.a - 1)
    decreases |buf|
  {
    if buf != [] {
      var x: int := buf[0];
      RawShift(Sums(s.a + x, s.b + s.a + x), buf[1..]);
      RawShift(Sums(1 + x, 1 + x), buf[1..]);
      Distribute(|buf| - 1, s.a - 1, x);
    }
  }

  /** How `combine` writes a half: zero comes back as BASE. */
  ghost function NonZero(x: nat): nat { if x == 0 then BASE else x }

  ghost function Padded(s: Sums): (r: Sums)
    ensures Reduced(s) ==> UpToBase(r) && Reduce(r) == s
  {
    Sums(NonZero(s.a), NonZero(s.b))
  }

  /** The halves of what these functions return: reduced, but for a BASE that `combine` left. */
  ghost predicate UpToBase(s: Sums) { s.a <= BASE && s.b <= BASE }

  lemma NonZeroResidue(x: nat, y: nat, k: int)
    requires 1 <= y <= BASE && x == y + k * BASE
    ensures y == NonZero(x % BASE)
  {
    ModShift(y, k);
  }

  /** The halves of a concatenation in closed form over the halves of its parts. */
  ghost function Joined(x: Sums, y: Sums, len2: nat): (r: Sums)
    ensures Reduced(r)
  {
    Sums((x.a + y.a + BASE - 1) % BASE,
         ((len2 % BASE * x.a) % BASE + x.b + y.b + BASE - len2 % BASE) % BASE)
  }

  lemma MulMod(k: nat, a: nat)
    ensures (k * (a % BASE)) % BASE == (k * a) % BASE
    ensures ((k % BASE) * a) % BASE == (k * a) % BASE
  {
    var q, r := a / BASE, a % BASE;
    assert a == q * BASE + r;
    assert k * a == k * (q * BASE) + k * r == (k * q) * BASE + k * r;
    ModShift(k * r, k * q);
    var q2, r2 := k / BASE, k % BASE;
    assert k == q2 * BASE + r2;
    assert k * a == (q2 * BASE) * a + r2 * a == (q2 * a) * BASE + r2 * a;
    ModShift(r2 * a, q2 * a);
  }

  lemma JoinedHalf(n: nat, a: nat, b1: nat, b2: nat)
    ensures ((n % BASE * (a % BASE)) % BASE + b1 % BASE + b2 % BASE + BASE - n % BASE) % BASE
            == (n * a + b1 + b2 - n) % BASE
  {
    MulMod(n, a);
    MulMod(n, a % BASE);
    SumOfResidues(n * a, b1, b2, n);
  }

  lemma JoinedIsConcat(x: seq<byte>, y: seq<byte>)
    ensures Joined(Fold(Sums(1, 0), x), Fold(Sums(1, 0), y), |y|) == Fold(Sums(1, 0), x + y)
  {
    var one := Sums(1, 0);
    FoldIsReducedRaw(one, x);
    FoldIsReducedRaw(one, y);
    FoldIsReducedRaw(one, x + y);
    RawConcat(one, x, y);
    var s, t := Raw(one, x), Raw(one, y);
    LimitFromBelow(one, x);
    LimitFromBelow(one, y);
    RawShift(s, y);
    WholeHalves(s, t, |y|);
  }

  lemma WholeHalves(s: Sums, t: Sums, n: nat)
    requires s.a >= 1
    ensures Joined(Reduce(s), Reduce(t), n) == Sums((s.a + t.a - 1) % BASE, (s.b + t.b + n * (s.a - 1)) % BASE)
  {
    SumOfResidues(s.a, t.a, 0, 1);
    JoinedHalf(n, s.a, s.b, t.b);
    TimesPredecessor(n, s.a);
  }

  lemma TimesPredecessor(n: nat, a: nat)
    ensures n * (a - 1) == n * a - n
  {
  }

  lemma {:induction false} LimitFromBelow(s: Sums, buf: seq<byte>)
    ensures Raw(s, buf).a >= s.a
    decreases |buf|
  {
    if buf != [] {
      LimitFromBelow(Plus(s, buf[0]), buf[1..]);
    }
  }

  lemma SumOfResidues(p: nat, q: nat, r: nat, n: nat)
    ensures (p + q + r - n) % BASE == (p % BASE + q % BASE + r % BASE + BASE - n % BASE) % BASE
  {
    var k := p / BASE + q / BASE + r / BASE - 1 - n / BASE;
    var x := p % BASE + q % BASE + r % BASE + BASE - n % BASE;
    assert p + q + r - n == x + k * BASE;
    ModShift(x, k);
  }

  lemma Product(x: nat, y: nat, m: nat, n: nat)
    requires x <= m && y <= n
    ensures x * y <= m * n
  {
    assert x * y <= m * y;
  }

  method FirstHalf(sum: uint32) returns (r: uint32)
    requires BASE - 1 <= sum <= 3 * BASE
    ensures r == NonZero(sum % BASE)
  {
    r := sum;
    if r > BASE { r := r - BASE; }
    if r > BASE { r := r - BASE; }
    NonZeroResidue(sum, r, if sum <= BASE then 0 else if sum <= 2 * BASE then 1 else 2);
  }

  method SecondHalf(sum: uint32) returns (r: uint32)
    requires 1 <= sum <= 4 * BASE
    ensures r == NonZero(sum % BASE)
  {
    r := sum;
    if r > BASE * 2 { r := r - BASE * 2; }
    if r > BASE { r := r - BASE; }
    NonZeroResidue(sum, r,
                   if sum <= BASE then 0 else if sum <= 2 * BASE then 1 else if sum <= 3 * BASE then 2 else 3);
  }

  /** What `adler32_combine` returns. */
  ghost function CombinedValue(adler1: uint32, adler2: uint32, len2: nat): uint32 {
    Combined(Padded(Joined(Split(adler1), Split(adler2), len2)))
  }

  /** `adler32_combine` on two checksums: no sum wraps. */
  method Combine(noDivide: bool, adler1: uint32, adler2: uint32, len2: nat) returns (r: uint32)
    requires UpToBase(Split(adler1)) && UpToBase(Split(adler2))
    ensures r == CombinedValue(adler1, adler2, len2)
  {
    var rem: uint32 := len2 % BASE;
    var sum1: uint32 := adler1 % 0x1_0000;
    Product(rem, sum1, BASE - 1, BASE);
    var sum2: uint32 := rem * sum1;
    sum2 := Mod(noDivide, sum2);
    sum1 := sum1 + adler2 % 0x1_0000 + BASE - 1;
    sum2 := sum2 + adler1 / 0x1_0000 + adler2 / 0x1_0000 + BASE - rem;
    sum1 := FirstHalf(sum1);
    sum2 := SecondHalf(sum2);
    r := Combined(Sums(sum1, sum2));
  }

  /** A value that stands for the checksum of x: equal to it, but for a BASE in place of a zero half. */
  ghost predicate StandsFor(adler: uint32, x: seq<byte>) {
    UpToBase(Split(adler)) && Reduce(Split(adler)) == Split(Checksum(1, x))
  }

  lemma ChecksumStandsForItself(x: seq<byte>)
    ensures StandsFor(Checksum(1, x), x)
  {
    hide Fold;
    ReducedIsFixed(Fold(Sums(1, 0), x));
  }

  /** Only the residues of the halves count. */
  lemma JoinedOfResidues(x: Sums, y: Sums, len2: nat)
    ensures Joined(Reduce(x), Reduce(y), len2) == Joined(x, y, len2)
  {
    var m := len2 % BASE;
    JoinedFirst(x.a, y.a);
    MulMod(m, x.a);
    JoinedSecond((m * x.a) % BASE, x.b, y.b, m);
  }

  lemma JoinedFirst(p: nat, q: nat)
    ensures (p % BASE + q % BASE + BASE - 1) % BASE == (p + q + BASE - 1) % BASE
  {
    assert p + q + BASE - 1 == (p % BASE + q % BASE + BASE - 1) + (p / BASE + q / BASE) * BASE;
    ModShift(p % BASE + q % BASE + BASE - 1, p / BASE + q / BASE);
  }

  lemma JoinedSecond(p: nat, q: nat, r: nat, m: nat)
    requires m < BASE
    ensures (p + q % BASE + r % BASE + BASE - m) % BASE == (p + q + r + BASE - m) % BASE
  {
    assert p + q + r + BASE - m == (p + q % BASE + r % BASE + BASE - m) + (q / BASE + r / BASE) * BASE;
    ModShift(p + q % BASE + r % BASE + BASE - m, q / BASE + r / BASE);
  }

  /**
   Combining what stands for the checksums of two inputs gives what stands for
   that of their concatenation. It is that checksum exactly if neither half
   computed from the arguments is zero; a zero half comes back as BASE.
   */
  lemma CombineIsConcat(adler1: uint32, adler2: uint32, x: seq<byte>, y: seq<byte>)
    requires StandsFor(adler1, x) && StandsFor(adler2, y)
    ensures var r := CombinedValue(adler1, adler2, |y|);
            && StandsFor(r, x + y)
            && (r == Checksum(1, x + y)
                <==> var j := Joined(Split(adler1), Split(adler2), |y|); j.a != 0 && j.b != 0)
  {
    hide Joined, Fold, Reduce;
    JoinedOfResidues(Split(adler1), Split(adler2), |y|);
    JoinedIsConcat(x, y);
    var whole := Split(Checksum(1, x + y));
    assert Split(Combined(Padded(whole))) == Padded(whole);
  }

  /** Two empty inputs already fail: the zero half of their checksum comes back as BASE. */
  lemma EmptyPartsDiffer()
    ensures Checksum(1, [] + []) == 1
    ensures CombinedValue(Checksum(1, []), Checksum(1, []), 0) == 1 + 0x1_0000 * BASE
  {
    assert Split(1) == Sums(1, 0);
    assert Joined(Sums(1, 0), Sums(1, 0), 0) == Sums(1, 0);
  }

  /** The checksums of any number of parts, combined from the left. */
  ghost function CombinedAll(parts: seq<seq<byte>>): uint32 {
    if parts == [] then 1 else
      var n := |parts| - 1;
      CombinedValue(CombinedAll(parts[..n]), Checksum(1, parts[n]), |parts[n]|)
  }

  function Whole(parts: seq<seq<byte>>): seq<byte> {
    if parts == [] then [] else Whole(parts[..|parts| - 1]) + parts[|parts| - 1]
  }

  /** What combining returns can be combined again. */
  lemma {:induction false} AllPartsCombined(parts: seq<seq<byte>>)
    ensures StandsFor(CombinedAll(parts), Whole(parts))
    decreases |parts|
  {
    hide StandsFor, CombinedValue;
    if parts == [] {
      ChecksumStandsForItself([]);
      assert Checksum(1, []) == 1;
    } else {
      var n := |parts| - 1;
      AllPartsCombined(parts[..n]);
      ChecksumStandsForItself(parts[n]);
      CombineIsConcat(CombinedAll(parts[..n]), Checksum(1, parts[n]), Whole(parts[..n]), parts[n]);
    }
  }

  // ----- error detection -----

  lemma {:induction false} RawTotal(s: Sums, buf: seq<byte>, i: nat, v: byte)
    requires i < |buf|
    ensures Raw(s, buf[i := v]).a == Raw(s, buf).a + v - buf[i]
    decreases |buf|
  {
    if i > 0 {
      assert buf[i := v][1..] == buf[1..][i - 1 := v];
      RawTotal(Plus(s, buf[0]), buf[1..], i - 1, v);
    } else {
      assert buf[0 := v][1..] == buf[1..];
      var s1, s2 := Plus(s, buf[0]), Sums(s.a + v, s.b + s.a + v);
      RawAdds(s1, s2, buf[1..]);
    }
  }

  lemma {:induction false} RawAdds(s: Sums, t: Sums, buf: seq<byte>)
    ensures Raw(s, buf).a - s.a == Raw(t, buf).a - t.a
    decreases |buf|
  {
    if buf != [] {
      RawAdds(Plus(s, buf[0]), Plus(t, buf[0]), buf[1..]);
    }
  }

  lemma SmallShiftShows(x: nat, y: nat)
    requires x != y && x - BASE < y < x + BASE
    ensures x % BASE != y % BASE
  {
    if x % BASE == y % BASE {
      ModEqual(x, y);
    }
  }

  /** Changing any one byte of an input of any length changes its checksum. */
  lemma SingleByteDetected(start: uint32, buf: seq<byte>, i: nat, v: byte)
    requires i < |buf| && v != buf[i]
    ensures Checksum(start, buf[i := v]) != Checksum(start, buf)
  {
    var s := Split(start);
    FoldIsReducedRaw(s, buf);
    FoldIsReducedRaw(s, buf[i := v]);
    RawTotal(s, buf, i, v);
    SmallShiftShows(Raw(s, buf).a, Raw(s, buf[i := v]).a);
  }
}
