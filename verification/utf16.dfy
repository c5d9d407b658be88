/**
 The UTF-16 codecs and the transcoder of `native/mars/rapidjson/encodings.h`;
 section 2 of RFC 2781.
 */
module Utf16 {

  import opened Bytes
  import opened Options
  import U8 = Utf8
  import opened Utf8

  type CodeUnit = n: int | 0 <= n < 0x1_0000 witness 0

  /** The units `Encode` puts for a scalar value. */
  function Encoded(cp: nat): (u: seq<CodeUnit>)
    requires IsScalar(cp)
    ensures 1 <= |u| <= 2
  {
    if cp <= 0xFFFF then [cp] else [0xD800 + (cp - 0x1_0000) / 0x400, 0xDC00 + (cp - 0x1_0000) % 0x400]
  }

  predicate IsHigh(u: CodeUnit) { 0xD800 <= u <= 0xDBFF }

  predicate IsLow(u: CodeUnit) { 0xDC00 <= u <= 0xDFFF }

  /** A unit that is no surrogate, or a high surrogate with a low one. */
  predicate WellFormed(u: seq<CodeUnit>) {
    (|u| == 1 && !IsHigh(u[0]) && !IsLow(u[0])) || (|u| == 2 && IsHigh(u[0]) && IsLow(u[1]))
  }

  function Value(u: seq<CodeUnit>): nat
    requires WellFormed(u)
  {
    if |u| == 1 then u[0] else Bits(u[0], 0xD800) * 0x400 + Bits(u[1], 0xDC00) + 0x1_0000
  }

  function Bits(u: CodeUnit, mark: nat): nat
    requires mark <= u
  {
    u - mark
  }

  lemma EncodedIsWellFormed(cp: nat)
    requires IsScalar(cp)
    ensures WellFormed(Encoded(cp)) && Value(Encoded(cp)) == cp
  {
  }

  lemma Join(a: nat, b: nat)
    requires a < 0x400 && b < 0x400
    ensures (a * 0x400 + b) / 0x400 == a && (a * 0x400 + b) % 0x400 == b
  {
  }

  lemma WellFormedIsEncoded(u: seq<CodeUnit>)
    requires WellFormed(u)
    ensures IsScalar(Value(u)) && Encoded(Value(u)) == u
  {
    if |u| == 2 {
      Join(Bits(u[0], 0xD800), Bits(u[1], 0xDC00));
    }
  }

  // ----- unit streams -----

  class UnitInStream {
    const data: seq<CodeUnit>
    var at: nat

    ghost predicate Valid()
      reads this
    {
      at <= |data|
    }

    constructor (data: seq<CodeUnit>)
      ensures Valid() && this.data == data && at == 0
    {
      this.data, at := data, 0;
    }

    /** At the end it gives zeros. */
    method Take() returns (c: CodeUnit)
      requires Valid()
      modifies this
      ensures Valid()
      ensures c == UnitAt(data, old(at)) && at == Moved(data, old(at), 1)
    {
      if at == |data| {
        return 0;
      }
      at := at + 1;
      return data[at - 1];
    }
  }

  function UnitAt(s: seq<CodeUnit>, k: nat): CodeUnit { if k < |s| then s[k] else 0 }

  function Moved(s: seq<CodeUnit>, k: nat, n: nat): nat
    requires k <= |s|
  {
    if k + n <= |s| then k + n else |s|
  }

  class UnitOutStream {
    var data: seq<CodeUnit>

    constructor ()
      ensures data == []
    {
      data := [];
    }

    method Put(c: CodeUnit)
      modifies this
      ensures data == old(data) + [c]
    {
      data := data + [c];
    }
  }

  method Encode(os: UnitOutStream, cp: nat)
    requires IsScalar(cp)
    modifies os
    ensures os.data == old(os.data) + Encoded(cp)
  {
    if cp <= 0xFFFF {
      os.Put(cp);
    } else {
      var v: nat := cp - 0x1_0000;
      os.Put(v / 0x400 + 0xD800);
      os.Put(v % 0x400 + 0xDC00);
    }
  }

  /** The units a sequence takes that starts with c. */
  function Taken(c: CodeUnit): nat { if IsHigh(c) then 2 else 1 }

  function Units(s: seq<CodeUnit>, k: nat, n: nat): seq<CodeUnit> {
    if n == 2 then [UnitAt(s, k), UnitAt(s, k + 1)] else [UnitAt(s, k)]
  }

  /** At the end of the stream it succeeds with 0; elsewhere exactly on a well-formed sequence, with its code point. */
  method Decode(input: UnitInStream) returns (ok: bool, cp: nat)
    requires input.Valid()
    modifies input
    ensures input.Valid()
    ensures old(input.at) == |input.data| ==> ok && cp == 0 && input.at == old(input.at)
    ensures old(input.at) < |input.data| ==>
              var n := Taken(input.data[old(input.at)]);
              && input.at == Moved(input.data, old(input.at), n)
              && ok == WellFormed(Units(input.data, old(input.at), n))
              && (ok ==> cp == Value(Units(input.data, old(input.at), n)))
  {
    var c := input.Take();
    if c < 0xD800 || c > 0xDFFF {
      return true, c;
    } else if c <= 0xDBFF {
      var high: nat := c % 0x400;
      c := input.Take();
      var low: nat := c % 0x400;
      cp := high * 0x400 + low + 0x1_0000;
      return c >= 0xDC00 && c <= 0xDFFF, cp;
    }
    return false, 0;
  }

  method Validate(input: UnitInStream, os: UnitOutStream) returns (ok: bool)
    requires input.Valid()
    modifies input, os
    ensures input.Valid()
    ensures old(input.at) == |input.data| ==> ok && os.data == old(os.data) + [0] && input.at == old(input.at)
    ensures old(input.at) < |input.data| ==>
              var n := Taken(input.data[old(input.at)]);
              && input.at == Moved(input.data, old(input.at), n)
              && ok == WellFormed(Units(input.data, old(input.at), n))
              && os.data == old(os.data) + Units(input.data, old(input.at), n)
  {
    var c := input.Take();
    os.Put(c);
    if c < 0xD800 || c > 0xDFFF {
      return true;
    } else if c <= 0xDBFF {
      ghost var first := c;
      c := input.Take();
      os.Put(c);
      assert old(os.data) + [first] + [c] == old(os.data) + [first, c];
      return c >= 0xDC00 && c <= 0xDFFF;
    }
    return false;
  }

  function EncodedAll(cps: seq<nat>): seq<CodeUnit>
    requires AreScalars(cps)
  {
    if cps == [] then [] else Encoded(cps[0]) + EncodedAll(cps[1..])
  }

  function DecodedAll(s: seq<CodeUnit>): Option<seq<nat>>
    decreases |s|
  {
    if s == [] then Some([]) else
      var n := Taken(s[0]);
      if n > |s| || !WellFormed(s[..n]) then None else
        match DecodedAll(s[n..])
        case None => None
        case Some(cps) => Some([Value(s[..n])] + cps)
  }

  /** Decoding inverts encoding on every list of scalar values. */
  lemma {:induction false} StreamRoundTrip(cps: seq<nat>)
    requires AreScalars(cps)
    ensures DecodedAll(EncodedAll(cps)) == Some(cps)
    decreases |cps|
  {
    hide Value, Encoded;
    if cps != [] {
      var b, rest := Encoded(cps[0]), EncodedAll(cps[1..]);
      var s := b + rest;
      EncodedIsWellFormed(cps[0]);
      assert s[0] == b[0] && s[..|b|] == b && s[|b|..] == rest;
      StreamRoundTrip(cps[1..]);
      assert [cps[0]] + cps[1..] == cps;
    }
  }

  /** What is decoded are scalar values, and encoding them gives exactly the stream again. */
  lemma {:induction false} StreamIsCanonical(s: seq<CodeUnit>)
    requires DecodedAll(s).Some?
    ensures AreScalars(DecodedAll(s).value) && EncodedAll(DecodedAll(s).value) == s
    decreases |s|
  {
    hide WellFormed, Value, Encoded, Taken;
    if s != [] {
      var n := Taken(s[0]);
      WellFormedIsEncoded(s[..n]);
      StreamIsCanonical(s[n..]);
      var cps := DecodedAll(s[n..]).value;
      assert ([Value(s[..n])] + cps)[1..] == cps;
      assert s[..n] + s[n..] == s;
    }
  }

  lemma UnitsAreSlice(s: seq<CodeUnit>, k: nat, n: nat)
    requires k < |s| && (n == 1 || n == 2)
    ensures k + n <= |s| ==> Units(s, k, n) == s[k..k + n]
    ensures k + n > |s| ==> !WellFormed(Units(s, k, n))
  {
  }

  lemma DecodedFrom(s: seq<CodeUnit>, k: nat)
    requires k < |s|
    ensures var n := Taken(s[k]); var u := Units(s, k, n);
            DecodedAll(s[k..])
            == if WellFormed(u) && k + n <= |s| then Prefixed([Value(u)], DecodedAll(s[k + n..])) else None
    ensures WellFormed(Units(s, k, Taken(s[k]))) ==> k + Taken(s[k]) <= |s|
  {
    hide WellFormed, Value, Units;
    var n := Taken(s[k]);
    UnitsAreSlice(s, k, n);
    assert k + n <= |s| ==> s[k..][..n] == s[k..k + n] && s[k..][n..] == s[k + n..];
  }

  /** Call after call of `Decode` to the end of the stream. */
  method DecodeStream(s: seq<CodeUnit>) returns (ok: bool, cps: seq<nat>)
    ensures ok == DecodedAll(s).Some?
    ensures ok ==> cps == DecodedAll(s).value
  {
    hide WellFormed, Value, Units, DecodedAll, Prefixed, Taken;
    var input := new UnitInStream(s);
    cps, ok := [], true;
    assert s[0..] == s;
    PrefixedTwice([], [], DecodedAll(s));
    while input.at < |s|
      invariant input.Valid() && fresh(input) && input.data == s && ok
      invariant DecodedAll(s) == Prefixed(cps, DecodedAll(s[input.at..]))
      decreases |s| - input.at
    {
      DecodedFrom(s, input.at);
      TakesUnits(s[input.at]);
      var cp;
      ok, cp := Decode(input);
      if !ok {
        PrefixedNone(cps);
        return;
      }
      PrefixedTwice(cps, [cp], DecodedAll(s[input.at..]));
      cps := cps + [cp];
    }
    assert s[|s|..] == [];
    EndDecoded(cps);
  }

  lemma TakesUnits(c: CodeUnit)
    ensures Taken(c) > 0
  {
  }

  lemma EndDecoded(x: seq<nat>)
    ensures Prefixed(x, DecodedAll([])) == Some(x)
  {
    assert x + [] == x;
  }

  // ----- byte order -----

  datatype Order = LittleEndian | BigEndian

  function UnitBytes(u: CodeUnit, order: Order): seq<byte> {
    if order == LittleEndian then [u % 0x100, u / 0x100] else [u / 0x100, u % 0x100]
  }

  method PutUnit(os: OutStream, u: CodeUnit, order: Order)
    modifies os
    ensures os.data == old(os.data) + UnitBytes(u, order)
  {
    match order {
      case LittleEndian =>
        os.Put(u % 0x100);
        os.Put(u / 0x100);
      case BigEndian =>
        os.Put(u / 0x100);
        os.Put(u % 0x100);
    }
  }

  function UnitOf(first: byte, second: byte, order: Order): CodeUnit {
    if order == LittleEndian then first + second * 0x100 else first * 0x100 + second
  }

  method TakeUnit(input: InStream, order: Order) returns (u: CodeUnit)
    requires input.Valid()
    modifies input
    ensures input.Valid() && input.at == Advanced(input.data, old(input.at), 2)
    ensures u == UnitOf(ByteAt(input.data, old(input.at)), ByteAt(input.data, old(input.at) + 1), order)
  {
    AdvancedTwice(input.data, input.at, 1, 1);
    var first := input.Take();
    var second := input.Take();
    u := UnitOf(first, second, order);
  }

  function UnitsBytes(us: seq<CodeUnit>, order: Order): seq<byte> {
    if us == [] then [] else UnitBytes(us[0], order) + UnitsBytes(us[1..], order)
  }

  /** The units taken from a byte stream; a last odd byte is completed by a zero. */
  function UnitsOf(bs: seq<byte>, order: Order): seq<CodeUnit>
    decreases |bs|
  {
    if bs == [] then []
    else [UnitOf(bs[0], ByteAt(bs, 1), order)] + UnitsOf(if |bs| == 1 then [] else bs[2..], order)
  }

  /** Call after call of `Take` to the end of a byte stream. */
  method TakeUnits(bs: seq<byte>, order: Order) returns (us: seq<CodeUnit>)
    ensures us == UnitsOf(bs, order)
  {
    hide UnitsOf, UnitOf;
    var input := new InStream(bs);
    us := [];
    assert bs[0..] == bs;
    while input.at < |bs|
      invariant input.Valid() && fresh(input) && input.data == bs
      invariant UnitsOf(bs, order) == us + UnitsOf(bs[input.at..], order)
      decreases |bs| - input.at
    {
      UnitFrom(bs, input.at, order);
      ghost var rest := UnitsOf(bs[Advanced(bs, input.at, 2)..], order);
      var u := TakeUnit(input, order);
      assert us + ([u] + rest) == (us + [u]) + rest;
      us := us + [u];
    }
    assert bs[|bs|..] == [];
    NoUnitsLeft(order);
  }

  lemma UnitFrom(bs: seq<byte>, k: nat, order: Order)
    requires k < |bs|
    ensures UnitsOf(bs[k..], order)
            == [UnitOf(ByteAt(bs, k), ByteAt(bs, k + 1), order)] + UnitsOf(bs[Advanced(bs, k, 2)..], order)
  {
    hide UnitOf;
    var t := bs[k..];
    assert t[0] == bs[k] && (|t| > 1 ==> t[1] == bs[k + 1] && t[2..] == bs[k + 2..]);
    assert bs[|bs|..] == [];
  }

  lemma NoUnitsLeft(order: Order)
    ensures UnitsOf([], order) == []
  {
  }

  /** Call after call of `Put`. */
  method PutUnits(us: seq<CodeUnit>, order: Order) returns (bs: seq<byte>)
    ensures bs == UnitsBytes(us, order)
  {
    hide UnitsBytes, UnitBytes;
    var os := new OutStream();
    assert us[0..] == us && [] + UnitsBytes(us, order) == UnitsBytes(us, order);
    for i := 0 to |us|
      invariant fresh(os) && os.data + UnitsBytes(us[i..], order) == UnitsBytes(us, order)
    {
      UnitNext(us, i, order);
      ghost var before, rest := os.data, UnitsBytes(us[i + 1..], order);
      PutUnit(os, us[i], order);
      assert before + (UnitBytes(us[i], order) + rest) == os.data + rest;
    }
    assert us[|us|..] == [];
    UnitNone(order);
    assert os.data + [] == os.data;
    bs := os.data;
  }

  lemma UnitNext(us: seq<CodeUnit>, i: nat, order: Order)
    requires i < |us|
    ensures UnitsBytes(us[i..], order) == UnitBytes(us[i], order) + UnitsBytes(us[i + 1..], order)
  {
    hide UnitBytes;
    assert us[i..][1..] == us[i + 1..];
  }

  lemma UnitNone(order: Order)
    ensures UnitsBytes([], order) == []
  {
  }

  /** A byte stream decoded: what was encoded in the same byte order comes back. */
  method DecodeByteStream(bs: seq<byte>, order: Order) returns (ok: bool, cps: seq<nat>)
    ensures ok == DecodedAll(UnitsOf(bs, order)).Some?
    ensures ok ==> cps == DecodedAll(UnitsOf(bs, order)).value
    ensures forall xs: seq<nat> :: AreScalars(xs) && bs == UnitsBytes(EncodedAll(xs), order) ==> ok && cps == xs
  {
    hide DecodedAll, UnitsOf, UnitsBytes, EncodedAll, AreScalars;
    var us := TakeUnits(bs, order);
    ok, cps := DecodeStream(us);
    forall xs: seq<nat> | AreScalars(xs) && bs == UnitsBytes(EncodedAll(xs), order)
      ensures ok && cps == xs
    {
      ByteStreamRoundTrip(xs, order);
    }
  }

  /** Units survive being written as bytes in either order. */
  lemma {:induction false} ByteOrderRoundTrip(us: seq<CodeUnit>, order: Order)
    ensures UnitsOf(UnitsBytes(us, order), order) == us
    decreases |us|
  {
    if us != [] {
      var bs := UnitsBytes(us, order);
      assert bs[2..] == UnitsBytes(us[1..], order);
      assert UnitOf(bs[0], bs[1], order) == us[0];
      ByteOrderRoundTrip(us[1..], order);
    }
  }

  /** And so do scalar values. */
  lemma ByteStreamRoundTrip(cps: seq<nat>, order: Order)
    requires AreScalars(cps)
    ensures DecodedAll(UnitsOf(UnitsBytes(EncodedAll(cps), order), order)) == Some(cps)
  {
    ByteOrderRoundTrip(EncodedAll(cps), order);
    StreamRoundTrip(cps);
  }

  // ----- transcoding -----

  /** One code point, from UTF-8 to UTF-16; at the end of the input it is 0. */
  method Transcode(input: InStream, os: UnitOutStream) returns (ok: bool, ghost cp: nat)
    requires input.Valid()
    modifies input, os
    ensures input.Valid()
    ensures old(input.at) == |input.data| ==> ok && os.data == old(os.data) + [0] && input.at == old(input.at)
    ensures old(input.at) < |input.data| ==>
              var b := BytesFrom(input.data, old(input.at), U8.Taken(input.data[old(input.at)]));
              && input.at == Advanced(input.data, old(input.at), |b|)
              && ok == U8.WellFormed(b)
              && (ok ==> cp == U8.Value(b) && IsScalar(cp) && os.data == old(os.data) + Encoded(cp))
    ensures !ok ==> os.data == old(os.data)
  {
    hide U8.Value, U8.WellFormed, BytesFrom;
    var c;
    ok, c := U8.Decode(input);
    cp := c;
    if !ok {
      return;
    }
    if old(input.at) < |input.data| {
      U8.WellFormedIsEncoded(BytesFrom(input.data, old(input.at), U8.Taken(input.data[old(input.at)])));
    }
    Encode(os, c);
  }

  /** A whole stream, as long as its sequences are well-formed. */
  method TranscodeStream(s: seq<byte>) returns (ok: bool, units: seq<CodeUnit>)
    ensures ok == U8.DecodedAll(s).Some?
    ensures ok ==> AreScalars(U8.DecodedAll(s).value) && units == EncodedAll(U8.DecodedAll(s).value)
  {
    hide U8.WellFormed, U8.Value, BytesFrom, U8.DecodedAll, Prefixed, U8.Taken, Encoded, EncodedAll;
    var input := new InStream(s);
    var os := new UnitOutStream();
    ghost var cps: seq<nat> := [];
    ok := true;
    assert s[0..] == s;
    PrefixedTwice([], [], U8.DecodedAll(s));
    NoUnits();
    while input.at < |s|
      invariant input.Valid() && fresh(input) && fresh(os) && input.data == s && ok
      invariant U8.DecodedAll(s) == Prefixed(cps, U8.DecodedAll(s[input.at..]))
      invariant AreScalars(cps) && os.data == EncodedAll(cps)
      decreases |s| - input.at
    {
      U8.DecodedFrom(s, input.at);
      TakenIsPositive(s[input.at]);
      ghost var cp;
      ok, cp := Transcode(input, os);
      if !ok {
        PrefixedNone(cps);
        return false, os.data;
      }
      PrefixedTwice(cps, [cp], U8.DecodedAll(s[input.at..]));
      EncodedAllLast(cps, cp);
      cps := cps + [cp];
    }
    assert s[|s|..] == [];
    NothingLeft(cps);
    units := os.data;
  }

  lemma NoUnits()
    ensures EncodedAll([]) == []
  {
  }

  lemma {:induction false} EncodedAllLast(cps: seq<nat>, cp: nat)
    requires AreScalars(cps + [cp]) && AreScalars(cps) && IsScalar(cp)
    ensures EncodedAll(cps + [cp]) == EncodedAll(cps) + Encoded(cp)
    decreases |cps|
  {
    if cps == [] {
      assert [] + [cp] == [cp] && [cp][1..] == [] && Encoded(cp) + [] == Encoded(cp);
    } else {
      assert (cps + [cp])[1..] == cps[1..] + [cp];
      EncodedAllLast(cps[1..], cp);
    }
  }

  /** From UTF-8 to UTF-16 and back is the identity on every well-formed stream. */
  lemma TranscodingIsIdentity(s: seq<byte>)
    requires U8.DecodedAll(s).Some?
    ensures AreScalars(U8.DecodedAll(s).value)
    ensures var units := EncodedAll(U8.DecodedAll(s).value);
            DecodedAll(units).Some? && AreScalars(DecodedAll(units).value)
            && U8.EncodedAll(DecodedAll(units).value) == s
  {
    U8.StreamIsCanonical(s);
    StreamRoundTrip(U8.DecodedAll(s).value);
  }

  /** From UTF-16 to UTF-8 and back likewise. */
  lemma TranscodingBackIsIdentity(units: seq<CodeUnit>)
    requires DecodedAll(units).Some?
    ensures AreScalars(DecodedAll(units).value)
    ensures var s := U8.EncodedAll(DecodedAll(units).value);
            U8.DecodedAll(s).Some? && AreScalars(U8.DecodedAll(s).value)
            && EncodedAll(U8.DecodedAll(s).value) == units
  {
    StreamIsCanonical(units);
    U8.StreamRoundTrip(DecodedAll(units).value);
  }
}
