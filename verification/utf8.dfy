/**
 The UTF-8 codec of `native/mars/rapidjson/encodings.h` against the definition of
 UTF-8 in sections 3 and 4 of RFC 3629.
 */
module Utf8 {

  import opened Bytes
  import opened Options

  // ----- the definition -----

  /** A code point that is not a surrogate. */
  predicate IsScalar(cp: nat) { cp < 0xD800 || 0xE000 <= cp <= 0x10FFFF }

  predicate IsTail(b: byte) { 0x80 <= b <= 0xBF }

  /** The byte sequences of section 4 of RFC 3629. */
  predicate WellFormed(b: seq<byte>) {
    match |b|
    case 1 => b[0] <= 0x7F
    case 2 => 0xC2 <= b[0] <= 0xDF && IsTail(b[1])
    case 3 =>
      && IsTail(b[2])
      && ((b[0] == 0xE0 && 0xA0 <= b[1] <= 0xBF) || (0xE1 <= b[0] <= 0xEC && IsTail(b[1]))
          || (b[0] == 0xED && 0x80 <= b[1] <= 0x9F) || (0xEE <= b[0] <= 0xEF && IsTail(b[1])))
    case 4 =>
      && IsTail(b[2]) && IsTail(b[3])
      && ((b[0] == 0xF0 && 0x90 <= b[1] <= 0xBF) || (0xF1 <= b[0] <= 0xF3 && IsTail(b[1]))
          || (b[0] == 0xF4 && 0x80 <= b[1] <= 0x8F))
    case _ => false
  }

  /** The code point of a sequence, section 3 of RFC 3629: the free bits of lead and tail bytes. */
  function Value(b: seq<byte>): (cp: nat)
    requires WellFormed(b)
  {
    if |b| == 1 then b[0]
    else if |b| == 2 then Less(b[0], 0xC0) * 0x40 + Less(b[1], 0x80)
    else if |b| == 3 then Less(b[0], 0xE0) * 0x1000 + Less(b[1], 0x80) * 0x40 + Less(b[2], 0x80)
    else Less(b[0], 0xF0) * 0x4_0000 + Less(b[1], 0x80) * 0x1000 + Less(b[2], 0x80) * 0x40 + Less(b[3], 0x80)
  }

  function Less(b: byte, mark: nat): nat
    requires mark <= b
  {
    b - mark
  }

  // ----- encoding -----

  /** The bytes of a number of 21 bits; the masks and shifts as remainders and quotients. */
  function Encoded(cp: nat): (b: seq<byte>)
    requires cp < 0x20_0000
    ensures 1 <= |b| <= 4 && (|b| == 4 ==> cp >= 0x1_0000)
  {
    if cp <= 0x7F then [cp]
    else if cp <= 0x7FF then [0xC0 + cp / 0x40, 0x80 + cp % 0x40]
    else if cp <= 0xFFFF then [0xE0 + cp / 0x1000, 0x80 + cp / 0x40 % 0x40, 0x80 + cp % 0x40]
    else [0xF0 + cp / 0x4_0000, 0x80 + cp / 0x1000 % 0x40, 0x80 + cp / 0x40 % 0x40, 0x80 + cp % 0x40]
  }

  class OutStream {
    var data: seq<byte>

    constructor ()
      ensures data == []
    {
      data := [];
    }

    method Put(c: byte)
      modifies this
      ensures data == old(data) + [c]
    {
      data := data + [c];
    }
  }

  method Encode(os: OutStream, cp: nat)
    requires cp <= 0x10FFFF
    modifies os
    ensures os.data == old(os.data) + Encoded(cp)
  {
    if cp <= 0x7F {
      os.Put(cp);
    } else if cp <= 0x7FF {
      os.Put(0xC0 + cp / 0x40);
      os.Put(0x80 + cp % 0x40);
    } else if cp <= 0xFFFF {
      os.Put(0xE0 + cp / 0x1000);
      os.Put(0x80 + cp / 0x40 % 0x40);
      os.Put(0x80 + cp % 0x40);
    } else {
      os.Put(0xF0 + cp / 0x4_0000);
      os.Put(0x80 + cp / 0x1000 % 0x40);
      os.Put(0x80 + cp / 0x40 % 0x40);
      os.Put(0x80 + cp % 0x40);
    }
  }

  lemma Quotients(cp: nat)
    ensures cp / 0x1000 == cp / 0x40 / 0x40 && cp / 0x4_0000 == cp / 0x1000 / 0x40
  {
  }

  /** What is put for a code point is well-formed exactly if it is not a surrogate, and then it means the code point. */
  lemma EncodedIsWellFormed(cp: nat)
    requires cp <= 0x10FFFF
    ensures WellFormed(Encoded(cp)) <==> IsScalar(cp)
    ensures IsScalar(cp) ==> Value(Encoded(cp)) == cp
  {
    if cp <= 0x7FF {
    } else if cp <= 0xFFFF {
      ThreeAreWellFormed(cp);
    } else {
      FourAreWellFormed(cp);
    }
  }

  lemma ThreeAreWellFormed(cp: nat)
    requires 0x7FF < cp <= 0xFFFF
    ensures WellFormed(Encoded(cp)) <==> IsScalar(cp)
    ensures IsScalar(cp) ==> Value(Encoded(cp)) == cp
  {
    Quotients(cp);
    var q := cp / 0x40;
    var a, b, c: nat := q / 0x40, q % 0x40, cp % 0x40;
    assert cp == (a * 0x40 + b) * 0x40 + c;
    assert Encoded(cp) == [0xE0 + a, 0x80 + b, 0x80 + c];
  }

  lemma FourAreWellFormed(cp: nat)
    requires 0xFFFF < cp <= 0x10FFFF
    ensures WellFormed(Encoded(cp)) && IsScalar(cp) && Value(Encoded(cp)) == cp
  {
    Quotients(cp);
    var q := cp / 0x40;
    var r := q / 0x40;
    var a, b, c, d: nat := r / 0x40, r % 0x40, q % 0x40, cp % 0x40;
    assert cp == ((a * 0x40 + b) * 0x40 + c) * 0x40 + d;
    assert Encoded(cp) == [0xF0 + a, 0x80 + b, 0x80 + c, 0x80 + d];
  }

  lemma Join2(a: nat, b: nat)
    requires a < 0x20 && b < 0x40
    ensures (a * 0x40 + b) / 0x40 == a && (a * 0x40 + b) % 0x40 == b
  {
  }

  lemma Join3(a: nat, b: nat, c: nat)
    requires a < 0x10 && b < 0x40 && c < 0x40
    ensures var v := a * 0x1000 + b * 0x40 + c; v / 0x1000 == a && v / 0x40 % 0x40 == b && v % 0x40 == c
  {
    var v := a * 0x1000 + b * 0x40 + c;
    assert v / 0x40 == a * 0x40 + b;
  }

  lemma Join4(a: nat, b: nat, c: nat, d: nat)
    requires a < 8 && b < 0x40 && c < 0x40 && d < 0x40
    ensures var v := a * 0x4_0000 + b * 0x1000 + c * 0x40 + d;
            v / 0x4_0000 == a && v / 0x1000 % 0x40 == b && v / 0x40 % 0x40 == c && v % 0x40 == d
  {
    var v := a * 0x4_0000 + b * 0x1000 + c * 0x40 + d;
    assert v / 0x40 == (a * 0x40 + b) * 0x40 + c;
    assert v / 0x1000 == a * 0x40 + b;
  }

  lemma ThreeAreEncoded(b: seq<byte>)
    requires WellFormed(b) && |b| == 3
    ensures IsScalar(Value(b)) && Encoded(Value(b)) == b
  {
    var x, y, z := Less(b[0], 0xE0), Less(b[1], 0x80), Less(b[2], 0x80);
    Join3(x, y, z);
    var v := x * 0x1000 + y * 0x40 + z;
    assert Value(b) == v && 0x7FF < v <= 0xFFFF;
    assert Encoded(v) == [0xE0 + x, 0x80 + y, 0x80 + z];
  }

  lemma FourAreEncoded(b: seq<byte>)
    requires WellFormed(b) && |b| == 4
    ensures IsScalar(Value(b)) && Encoded(Value(b)) == b
  {
    var w, x, y, z := Less(b[0], 0xF0), Less(b[1], 0x80), Less(b[2], 0x80), Less(b[3], 0x80);
    Join4(w, x, y, z);
    var v := w * 0x4_0000 + x * 0x1000 + y * 0x40 + z;
    assert Value(b) == v && 0xFFFF < v <= 0x10FFFF;
    assert Encoded(v) == [0xF0 + w, 0x80 + x, 0x80 + y, 0x80 + z];
  }

  /** Every well-formed sequence is the encoding of its code point: there is no second one. */
  lemma WellFormedIsEncoded(b: seq<byte>)
    requires WellFormed(b)
    ensures IsScalar(Value(b)) && Encoded(Value(b)) == b
  {
    if |b| == 2 {
      Join2(Less(b[0], 0xC0), Less(b[1], 0x80));
    } else if |b| == 3 {
      ThreeAreEncoded(b);
    } else if |b| == 4 {
      FourAreEncoded(b);
    }
  }

  // ----- decoding -----

  /** The classes of `GetRange`; those of tail bytes are single bits. */
  function GetRange(c: byte): bv8 {
    if c < 0x80 then 0
    else if c < 0x90 then 0x10
    else if c < 0xA0 then 0x40
    else if c < 0xC0 then 0x20
    else if c < 0xC2 then 8
    else if c < 0xE0 then 2
    else if c == 0xE0 then 10
    else if c == 0xED then 4
    else if c < 0xF0 then 3
    else if c == 0xF0 then 11
    else if c < 0xF4 then 6
    else if c == 0xF4 then 5
    else 8
  }

  predicate InRange(c: byte, mask: bv8) { GetRange(c) & mask != 0 }

  lemma Masks(c: byte)
    ensures InRange(c, 0x70) <==> IsTail(c)
    ensures IsTail(c) ==> (InRange(c, 0x50) <==> c <= 0x9F)
    ensures IsTail(c) ==> (InRange(c, 0x10) <==> c <= 0x8F)
    ensures IsTail(c) ==> (InRange(c, 0x20) <==> 0xA0 <= c)
    ensures IsTail(c) ==> (InRange(c, 0x60) <==> 0x90 <= c)
    ensures !IsTail(c) ==> !InRange(c, 0x50) && !InRange(c, 0x10) && !InRange(c, 0x20) && !InRange(c, 0x60)
  {
  }

  /** The bytes a sequence takes that starts with c. */
  function Taken(c: byte): nat {
    if c < 0xC2 || c > 0xF4 then 1 else if c < 0xE0 then 2 else if c < 0xF0 then 3 else 4
  }

  class InStream {
    const data: seq<byte>
    var at: nat

    ghost predicate Valid()
      reads this
    {
      at <= |data|
    }

    constructor (data: seq<byte>)
      ensures Valid() && this.data == data && at == 0
    {
      this.data, at := data, 0;
    }

    /** At the end it gives zeros. */
    method Take() returns (c: byte)
      requires Valid()
      modifies this
      ensures Valid()
      ensures c == ByteAt(data, old(at)) && at == Advanced(data, old(at), 1)
    {
      if at == |data| {
        return 0;
      }
      at := at + 1;
      return data[at - 1];
    }
  }

  function ByteAt(s: seq<byte>, k: nat): byte { if k < |s| then s[k] else 0 }

  function Advanced(s: seq<byte>, k: nat, n: nat): nat
    requires k <= |s|
  {
    if k + n <= |s| then k + n else |s|
  }

  /** The n bytes taken from k on. */
  function BytesFrom(s: seq<byte>, k: nat, n: nat): (r: seq<byte>)
    ensures |r| == n
    decreases n
  {
    if n == 0 then [] else [ByteAt(s, k)] + BytesFrom(s, k + 1, n - 1)
  }

  lemma AdvancedTwice(s: seq<byte>, k: nat, n: nat, m: nat)
    requires k <= |s|
    ensures Advanced(s, Advanced(s, k, n), m) == Advanced(s, k, n + m)
    ensures ByteAt(s, Advanced(s, k, n)) == ByteAt(s, k + n)
  {
  }

  /** One tail byte: the code point so far, and whether it is in range. */
  method TakeTail(input: InStream, cp: nat, mask: bv8) returns (next: nat, ok: bool)
    requires input.Valid()
    modifies input
    ensures input.Valid() && input.at == Advanced(input.data, old(input.at), 1)
    ensures var c := ByteAt(input.data, old(input.at)); next == cp * 0x40 + c % 0x40 && ok == InRange(c, mask)
  {
    var c := input.Take();
    next := cp * 0x40 + c % 0x40;
    ok := InRange(c, mask);
  }

  method TakeTwo(input: InStream, cp: nat, mask: bv8) returns (next: nat, ok: bool)
    requires input.Valid()
    modifies input
    ensures input.Valid() && input.at == Advanced(input.data, old(input.at), 2)
    ensures var s, k := input.data, old(input.at); var c, d := ByteAt(s, k), ByteAt(s, k + 1);
            next == (cp * 0x40 + c % 0x40) * 0x40 + d % 0x40 && ok == (InRange(c, mask) && InRange(d, 0x70))
  {
    hide InRange;
    AdvancedTwice(input.data, input.at, 1, 1);
    next, ok := TakeTail(input, cp, mask);
    var r;
    next, r := TakeTail(input, next, 0x70);
    ok := ok && r;
  }

  method TakeThree(input: InStream, cp: nat, mask: bv8) returns (next: nat, ok: bool)
    requires input.Valid()
    modifies input
    ensures input.Valid() && input.at == Advanced(input.data, old(input.at), 3)
    ensures var s, k := input.data, old(input.at); var c, d, e := ByteAt(s, k), ByteAt(s, k + 1), ByteAt(s, k + 2);
            next == ((cp * 0x40 + c % 0x40) * 0x40 + d % 0x40) * 0x40 + e % 0x40
            && ok == (InRange(c, mask) && InRange(d, 0x70) && InRange(e, 0x70))
  {
    hide InRange;
    AdvancedTwice(input.data, input.at, 2, 1);
    next, ok := TakeTwo(input, cp, mask);
    var r;
    next, r := TakeTail(input, next, 0x70);
    ok := ok && r;
  }

  /**
   One call at a place in the stream. At the end of the stream it succeeds with 0;
   elsewhere exactly on a well-formed sequence, with its code point. It always
   takes as many bytes as the first one announces, as far as there are any.
   */
  method Decode(input: InStream) returns (ok: bool, cp: nat)
    requires input.Valid()
    modifies input
    ensures input.Valid()
    ensures old(input.at) == |input.data| ==> ok && cp == 0 && input.at == old(input.at)
    ensures old(input.at) < |input.data| ==>
              var n := Taken(input.data[old(input.at)]);
              && input.at == Advanced(input.data, old(input.at), n)
              && ok == WellFormed(BytesFrom(input.data, old(input.at), n))
              && (ok ==> cp == Value(BytesFrom(input.data, old(input.at), n)))
  {
    ghost var s, k := input.data, input.at;
    var c := input.Take();
    if c < 0x80 {
      assert k < |s| ==> BytesFrom(s, k, 1) == [c];
      return true, c;
    }
    hide InRange, WellFormed, GetRange, BytesFrom, Value, Taken;
    assert c == s[k] && input.at == k + 1;
    AdvancedTwice(s, k, 1, 1);
    AdvancedTwice(s, k, 1, 2);
    AdvancedTwice(s, k, 1, 3);
    FewBytes(s, k);
    ghost var x, y, z := ByteAt(s, k + 1), ByteAt(s, k + 2), ByteAt(s, k + 3);
    match GetRange(c) {
      case 2 =>
        cp, ok := TakeTail(input, c % 0x40, 0x70);
        TwoBytes(c, x);
      case 3 =>
        cp, ok := TakeTwo(input, c % 0x20, 0x70);
        ThreeBytes(c, x, y);
      case 4 =>
        cp, ok := TakeTwo(input, c % 0x10, 0x50);
        ThreeBytes(c, x, y);
      case 5 =>
        cp, ok := TakeThree(input, c % 0x8, 0x10);
        FourBytes(c, x, y, z);
      case 6 =>
        cp, ok := TakeThree(input, c % 0x4, 0x70);
        FourBytes(c, x, y, z);
      case 10 =>
        cp, ok := TakeTwo(input, 0, 0x20);
        ThreeBytes(c, x, y);
      case 11 =>
        cp, ok := TakeThree(input, 0, 0x60);
        FourBytes(c, x, y, z);
      case _ =>
        NoLead(c);
        return false, 0;
    }
  }

  lemma FewBytes(s: seq<byte>, k: nat)
    ensures var c, x, y, z := ByteAt(s, k), ByteAt(s, k + 1), ByteAt(s, k + 2), ByteAt(s, k + 3);
            BytesFrom(s, k, 1) == [c] && BytesFrom(s, k, 2) == [c, x] && BytesFrom(s, k, 3) == [c, x, y]
            && BytesFrom(s, k, 4) == [c, x, y, z]
  {
    hide ByteAt;
    assert BytesFrom(s, k + 1, 1) == [ByteAt(s, k + 1)] && BytesFrom(s, k + 2, 1) == [ByteAt(s, k + 2)];
    assert BytesFrom(s, k + 1, 2) == [ByteAt(s, k + 1), ByteAt(s, k + 2)];
    assert BytesFrom(s, k + 3, 1) == [ByteAt(s, k + 3)];
    assert BytesFrom(s, k + 2, 2) == [ByteAt(s, k + 2), ByteAt(s, k + 3)];
    assert BytesFrom(s, k + 1, 3) == [ByteAt(s, k + 1), ByteAt(s, k + 2), ByteAt(s, k + 3)];
  }

  lemma NoLead(c: byte)
    requires c >= 0x80 && GetRange(c) !in {2, 3, 4, 5, 6, 10, 11}
    ensures Taken(c) == 1 && !WellFormed([c])
  {
  }

  lemma TwoBytes(c: byte, x: byte)
    requires GetRange(c) == 2
    ensures Taken(c) == 2 && (WellFormed([c, x]) <==> InRange(x, 0x70))
    ensures WellFormed([c, x]) ==> Value([c, x]) == c % 0x40 * 0x40 + x % 0x40
  {
    Masks(x);
    hide InRange;
  }

  /** The mask for the first tail byte after a lead of the given class. */
  function FirstMask(kind: bv8): bv8 {
    if kind == 10 then 0x20 else if kind == 4 then 0x50 else if kind == 11 then 0x60
    else if kind == 5 then 0x10 else 0x70
  }

  /** The bits of the lead that the code point starts from. */
  function FirstBits(c: byte): nat {
    match GetRange(c)
    case 3 => c % 0x20
    case 4 => c % 0x10
    case 5 => c % 0x8
    case 6 => c % 0x4
    case _ => 0
  }

  lemma ThreeBytes(c: byte, x: byte, y: byte)
    requires GetRange(c) in {3, 4, 10}
    ensures Taken(c) == 3
    ensures WellFormed([c, x, y]) <==> InRange(x, FirstMask(GetRange(c))) && InRange(y, 0x70)
    ensures WellFormed([c, x, y]) ==> Value([c, x, y]) == (FirstBits(c) * 0x40 + x % 0x40) * 0x40 + y % 0x40
  {
    assert 0xE0 <= c <= 0xEF;
    Masks(x);
    Masks(y);
    hide InRange;
  }

  lemma FourBytes(c: byte, x: byte, y: byte, z: byte)
    requires GetRange(c) in {5, 6, 11}
    ensures Taken(c) == 4
    ensures WellFormed([c, x, y, z]) <==> InRange(x, FirstMask(GetRange(c))) && InRange(y, 0x70) && InRange(z, 0x70)
    ensures WellFormed([c, x, y, z]) ==>
              Value([c, x, y, z]) == ((FirstBits(c) * 0x40 + x % 0x40) * 0x40 + y % 0x40) * 0x40 + z % 0x40
  {
    hide InRange;
    assert 0xF0 <= c <= 0xF4;
    Masks(x);
    Masks(y);
    Masks(z);
  }

  // ----- validating -----

  method CopyTail(input: InStream, os: OutStream, mask: bv8) returns (ok: bool)
    requires input.Valid()
    modifies input, os
    ensures input.Valid() && input.at == Advanced(input.data, old(input.at), 1)
    ensures var c := ByteAt(input.data, old(input.at)); os.data == old(os.data) + [c] && ok == InRange(c, mask)
  {
    var c := input.Take();
    os.Put(c);
    ok := InRange(c, mask);
  }

  predicate TailsInRange(s: seq<byte>, k: nat, n: nat) {
    (n >= 1 ==> InRange(ByteAt(s, k), 0x70)) && (n >= 2 ==> InRange(ByteAt(s, k + 1), 0x70))
  }

  method CopyTails(input: InStream, os: OutStream, n: nat) returns (ok: bool)
    requires input.Valid() && n <= 2
    modifies input, os
    ensures input.Valid() && input.at == Advanced(input.data, old(input.at), n)
    ensures os.data == old(os.data) + BytesFrom(input.data, old(input.at), n)
    ensures ok == TailsInRange(input.data, old(input.at), n)
  {
    hide InRange, ByteAt;
    ghost var s, k := input.data, input.at;
    FewBytes(s, k);
    AdvancedTwice(s, k, 1, 1);
    ok := true;
    if n >= 1 {
      ok := CopyTail(input, os, 0x70);
    }
    if n >= 2 {
      var r := CopyTail(input, os, 0x70);
      ok := ok && r;
    }
  }

  /** `Validate`: the verdict of `Decode`, the bytes copied instead of decoded. */
  method Validate(input: InStream, os: OutStream) returns (ok: bool)
    requires input.Valid()
    modifies input, os
    ensures input.Valid()
    ensures old(input.at) == |input.data| ==> ok && os.data == old(os.data) + [0] && input.at == old(input.at)
    ensures old(input.at) < |input.data| ==>
              var n := Taken(input.data[old(input.at)]);
              && input.at == Advanced(input.data, old(input.at), n)
              && ok == WellFormed(BytesFrom(input.data, old(input.at), n))
              && os.data == old(os.data) + BytesFrom(input.data, old(input.at), n)
  {
    ghost var s, k, was := input.data, input.at, os.data;
    var c := input.Take();
    os.Put(c);
    if c < 0x80 {
      FewBytes(s, k);
      return true;
    }
    hide InRange, WellFormed, GetRange, BytesFrom, Taken;
    var kind := GetRange(c);
    if kind !in {2, 3, 4, 5, 6, 10, 11} {
      FewBytes(s, k);
      NoLead(c);
      return false;
    }
    ghost var x, y, z := ByteAt(s, k + 1), ByteAt(s, k + 2), ByteAt(s, k + 3);
    var tails := if kind == 2 then 0 else if kind == 3 || kind == 4 || kind == 10 then 1 else 2;
    ok := CopyTail(input, os, FirstMask(kind));
    var r := CopyTails(input, os, tails);
    ok := ok && r;
    CopiedParts(s, k, was, tails);
    TailsByKind(s, k, tails);
  }

  lemma CopiedParts(s: seq<byte>, k: nat, was: seq<byte>, n: nat)
    requires k < |s| && n <= 2
    ensures was + [s[k]] + [ByteAt(s, k + 1)] + BytesFrom(s, k + 2, n) == was + BytesFrom(s, k, n + 2)
    ensures Advanced(s, Advanced(s, k + 1, 1), n) == Advanced(s, k, n + 2)
    ensures ByteAt(s, Advanced(s, k, 1)) == ByteAt(s, k + 1)
  {
    FewBytes(s, k);
    FewBytes(s, k + 2);
  }

  lemma TailsByKind(s: seq<byte>, k: nat, n: nat)
    requires k < |s| && GetRange(s[k]) in {2, 3, 4, 5, 6, 10, 11}
    requires n == (if GetRange(s[k]) == 2 then 0 else if GetRange(s[k]) in {3, 4, 10} then 1 else 2)
    ensures Taken(s[k]) == n + 2
    ensures WellFormed(BytesFrom(s, k, n + 2)) <==>
              InRange(ByteAt(s, k + 1), FirstMask(GetRange(s[k]))) && TailsInRange(s, k + 2, n)
  {
    hide InRange;
    FewBytes(s, k);
    var c, x, y, z := s[k], ByteAt(s, k + 1), ByteAt(s, k + 2), ByteAt(s, k + 3);
    if n == 0 {
      TwoBytes(c, x);
    } else if n == 1 {
      ThreeBytes(c, x, y);
    } else {
      FourBytes(c, x, y, z);
    }
  }

  // ----- streams -----

  predicate AreScalars(cps: seq<nat>) { forall i :: 0 <= i < |cps| ==> IsScalar(cps[i]) }

  function EncodedAll(cps: seq<nat>): seq<byte>
    requires forall i :: 0 <= i < |cps| ==> cps[i] <= 0x10FFFF
  {
    if cps == [] then [] else Encoded(cps[0]) + EncodedAll(cps[1..])
  }

  /** The code points of a stream that is well-formed throughout. */
  function DecodedAll(s: seq<byte>): Option<seq<nat>>
    decreases |s|
  {
    if s == [] then Some([]) else
      var n := Taken(s[0]);
      if n > |s| || !WellFormed(s[..n]) then None else
        match DecodedAll(s[n..])
        case None => None
        case Some(cps) => Some([Value(s[..n])] + cps)
  }

  lemma TakenOfWellFormed(b: seq<byte>)
    requires WellFormed(b)
    ensures Taken(b[0]) == |b|
  {
  }

  /** Decoding inverts encoding on every list of scalar values. */
  lemma {:induction false} StreamRoundTrip(cps: seq<nat>)
    requires AreScalars(cps)
    ensures DecodedAll(EncodedAll(cps)) == Some(cps)
    decreases |cps|
  {
    hide WellFormed, Value, Encoded;
    if cps != [] {
      var b, rest := Encoded(cps[0]), EncodedAll(cps[1..]);
      var s := b + rest;
      EncodedIsWellFormed(cps[0]);
      TakenOfWellFormed(b);
      assert s[0] == b[0] && s[..|b|] == b && s[|b|..] == rest;
      StreamRoundTrip(cps[1..]);
      assert [cps[0]] + cps[1..] == cps;
    }
  }

  /** What is decoded are scalar values, and encoding them gives exactly the stream again. */
  lemma {:induction false} StreamIsCanonical(s: seq<byte>)
    requires DecodedAll(s).Some?
    ensures AreScalars(DecodedAll(s).value) && EncodedAll(DecodedAll(s).value) == s
    decreases |s|
  {
    hide WellFormed, Value, Encoded;
    if s != [] {
      var n := Taken(s[0]);
      WellFormedIsEncoded(s[..n]);
      StreamIsCanonical(s[n..]);
      var cps := DecodedAll(s[n..]).value;
      assert ([Value(s[..n])] + cps)[1..] == cps;
      assert s[..n] + s[n..] == s;
    }
  }

  lemma BytesAreSlice(s: seq<byte>, k: nat, n: nat)
    requires k < |s| && n == Taken(s[k])
    ensures k + n <= |s| ==> BytesFrom(s, k, n) == s[k..k + n]
    ensures k + n > |s| ==> !WellFormed(BytesFrom(s, k, n))
  {
    FewBytes(s, k);
  }

  /** The step from one place in the stream to the next. */
  lemma DecodedFrom(s: seq<byte>, k: nat)
    requires k < |s|
    ensures var n := Taken(s[k]); var b := BytesFrom(s, k, n);
            DecodedAll(s[k..]) == if WellFormed(b) then Prefixed([Value(b)], DecodedAll(s[k + n..])) else None
    ensures WellFormed(BytesFrom(s, k, Taken(s[k]))) ==> k + Taken(s[k]) <= |s|
  {
    hide WellFormed, Value, BytesFrom;
    var n := Taken(s[k]);
    BytesAreSlice(s, k, n);
    assert k + n <= |s| ==> s[k..][..n] == s[k..k + n] && s[k..][n..] == s[k + n..];
  }

  ghost function Prefixed(x: seq<nat>, rest: Option<seq<nat>>): Option<seq<nat>> {
    match rest
    case None => None
    case Some(y) => Some(x + y)
  }

  lemma PrefixedTwice(x: seq<nat>, y: seq<nat>, rest: Option<seq<nat>>)
    ensures Prefixed(x, Prefixed(y, rest)) == Prefixed(x + y, rest)
    ensures Prefixed([], rest) == rest
  {
    if rest.Some? {
      assert x + (y + rest.value) == x + y + rest.value;
      assert [] + rest.value == rest.value;
    }
  }

  /** Call after call to the end of the stream. */
  method DecodeStream(s: seq<byte>) returns (ok: bool, cps: seq<nat>)
    ensures ok == DecodedAll(s).Some?
    ensures ok ==> cps == DecodedAll(s).value
  {
    hide WellFormed, Value, BytesFrom, DecodedAll, Prefixed, Taken;
    var input := new InStream(s);
    cps, ok := [], true;
    assert s[0..] == s;
    PrefixedTwice([], [], DecodedAll(s));
    while input.at < |s|
      invariant input.Valid() && fresh(input) && input.data == s && ok
      invariant DecodedAll(s) == Prefixed(cps, DecodedAll(s[input.at..]))
      decreases |s| - input.at
    {
      ghost var k := input.at;
      DecodedFrom(s, k);
      TakenIsPositive(s[k]);
      var cp;
      ok, cp := Decode(input);
      if !ok {
        PrefixedNone(cps);
        return;
      }
      PrefixedTwice(cps, [cp], DecodedAll(s[input.at..]));
      cps := cps + [cp];
    }
    assert s[|s|..] == [];
    NothingLeft(cps);
  }

  lemma TakenIsPositive(c: byte)
    ensures Taken(c) > 0
  {
  }

  lemma PrefixedNone(x: seq<nat>)
    ensures Prefixed(x, None) == None
  {
  }

  lemma NothingLeft(x: seq<nat>)
    ensures Prefixed(x, DecodedAll([])) == Some(x)
  {
    assert x + [] == x;
  }
}
