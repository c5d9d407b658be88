/**
 The long-link packet of `native/mars/comm/basepacker.cc`: a 16-byte header,
 the url and the payload. The sender checksums url and payload in two pieces,
 the receiver in one.
 */
module LongLinkPacker {

  import opened Bytes
  import opened AutoBuffers
  import Adler32

  const HEADER: nat := 16
  const MAX_TOTAL: nat := 1024 * 1024
  const MAX_URL: nat := 128

  /** The header fields in wire order. */
  datatype Header = Header(magic: byte, ver: byte, headLength: byte, urlLength: byte,
                           totalLength: uint32, sequence: uint32, hash: uint32)

  /** Network byte order. */
  function Be16(x: nat): seq<byte>
    requires x < 0x1_0000
  {
    [x / 0x100, x % 0x100]
  }

  function Be32(x: uint32): (s: seq<byte>)
    ensures |s| == 4
  {
    Be16(x / 0x1_0000) + Be16(x % 0x1_0000)
  }

  function FromBe16(s: seq<byte>): (x: nat)
    requires |s| == 2
    ensures x < 0x1_0000
  {
    var high: int := s[0];
    high * 0x100 + s[1]
  }

  function FromBe32(s: seq<byte>): uint32
    requires |s| == 4
  {
    FromBe16(s[..2]) * 0x1_0000 + FromBe16(s[2..])
  }

  function Wire(h: Header): (s: seq<byte>)
    ensures |s| == HEADER
  {
    [h.magic, h.ver, h.headLength, h.urlLength] + Be32(h.totalLength) + Be32(h.sequence) + Be32(h.hash)
  }

  function FromWire(s: seq<byte>): Header
    requires |s| >= HEADER
  {
    Header(s[0], s[1], s[2], s[3], FromBe32(s[4..8]), FromBe32(s[8..12]), FromBe32(s[12..16]))
  }

  lemma Be32RoundTrip(x: uint32)
    ensures FromBe32(Be32(x)) == x
  {
    assert Be32(x)[..2] == Be16(x / 0x1_0000) && Be32(x)[2..] == Be16(x % 0x1_0000);
  }

  lemma WireRoundTrip(h: Header, rest: seq<byte>)
    ensures FromWire(Wire(h) + rest) == h
  {
    var s := Wire(h) + rest;
    assert s[4..8] == Be32(h.totalLength);
    assert s[8..12] == Be32(h.sequence);
    assert s[12..16] == Be32(h.hash);
    Be32RoundTrip(h.totalLength);
    Be32RoundTrip(h.sequence);
    Be32RoundTrip(h.hash);
  }

  // ----- packing -----

  /** What is sent of a url: at most its first 128 bytes. */
  function SentUrl(url: seq<byte>): (s: seq<byte>)
    ensures |s| <= MAX_URL && s <= url
  {
    url[..Min(|url|, MAX_URL)]
  }

  function Total(url: seq<byte>, data: seq<byte>): nat { HEADER + |SentUrl(url)| + |data| }

  /** The hash over url and payload taken in one pass; lengths are cast to 32 bits. */
  function Hash(url: seq<byte>, data: seq<byte>, doHash: bool): uint32 {
    if doHash then Adler32.Checksum(0, SentUrl(url) + data[..|data| % 0x1_0000_0000]) else 0
  }

  function HeaderOf(url: seq<byte>, sequence: uint32, data: seq<byte>, doHash: bool): Header {
    var total := Total(url, data) % 0x1_0000_0000;
    Header((HEADER + |SentUrl(url)| + total) % 0x100, 1, HEADER, |SentUrl(url)|, total, sequence,
           Hash(url, data, doHash))
  }

  function Packet(url: seq<byte>, sequence: uint32, data: seq<byte>, doHash: bool): seq<byte> {
    Wire(HeaderOf(url, sequence, data, doHash)) + SentUrl(url) + data
  }

  method HashInTwoParts(url: seq<byte>, data: seq<byte>, doHash: bool) returns (hash: uint32)
    ensures hash == Hash(url, data, doHash)
  {
    hash := 0;
    if doHash {
      TwoPartHash(SentUrl(url), data[..|data| % 0x1_0000_0000]);
      hash := Adler32.Compute(false, 0, Adler32.To(url), Min(|url|, MAX_URL));
      if |data| > 0 {
        hash := Adler32.Compute(false, hash, Adler32.To(data), |data| % 0x1_0000_0000);
      }
    }
  }

  /** The header, filled field by field. */
  method FillHeader(url: seq<byte>, sequence: uint32, data: seq<byte>, doHash: bool) returns (st: Header)
    ensures st == HeaderOf(url, sequence, data, doHash)
  {
    hide Hash;
    var urlSize := Min(|url|, MAX_URL);
    st := Header(0, 1, HEADER, urlSize, 0, 0, 0);
    st := st.(totalLength := (HEADER + urlSize + |data|) % 0x1_0000_0000);
    st := st.(sequence := sequence);
    st := st.(magic := (HEADER + urlSize + st.totalLength) % 0x100);
    var hash := HashInTwoParts(url, data, doHash);
    st := st.(hash := hash);
  }

  /** `Packer_Pack`: reserves the packet, then writes header, url and payload at the position. */
  method Pack(url: seq<byte>, sequence: uint32, data: seq<byte>, out: AutoBuffer<byte>, doHash: bool)
    requires out.Valid()
    modifies out, out.parray_
    ensures out.Valid() && (out.parray_ == old(out.parray_) || fresh(out.parray_))
    ensures out.Contents() == Spliced(old(out.Contents()), old(out.pos_), Packet(url, sequence, data, doHash))
    ensures out.pos_ == old(out.pos_) + HEADER + |SentUrl(url)| + |data|
  {
    var st := FillHeader(url, sequence, data, doHash);
    TotalLengthOf(url, sequence, data, doHash);
    hide Hash, Wire, HeaderOf, Spliced;
    out.AllocWrite(st.totalLength, true);
    ghost var reserved := out.Contents();
    WriteParts(out, Wire(st), SentUrl(url), data);
    ReservedIsOverwritten(old(out.Contents()), reserved, old(out.pos_), Packet(url, sequence, data, doHash));
  }

  method WriteParts(out: AutoBuffer<byte>, x: seq<byte>, y: seq<byte>, z: seq<byte>)
    requires out.Valid()
    modifies out, out.parray_
    ensures out.Valid() && (out.parray_ == old(out.parray_) || fresh(out.parray_))
    ensures out.Contents() == Spliced(old(out.Contents()), old(out.pos_), x + y + z)
    ensures out.pos_ == old(out.pos_) + |x| + |y| + |z|
  {
    hide Spliced;
    out.Write(x);
    out.Write(y);
    SplicedTwice(old(out.Contents()), old(out.pos_), x, y);
    out.Write(z);
    SplicedTwice(old(out.Contents()), old(out.pos_), x + y, z);
  }

  lemma TotalLengthOf(url: seq<byte>, sequence: uint32, data: seq<byte>, doHash: bool)
    ensures HeaderOf(url, sequence, data, doHash).totalLength <= Total(url, data)
  {
  }

  /** Hashing url then payload is hashing both at once, and no start value on the way is exceptional. */
  lemma TwoPartHash(x: seq<byte>, y: seq<byte>)
    ensures Adler32.Checksum(Adler32.Checksum(0, x), y) == Adler32.Checksum(0, x + y)
    ensures Adler32.Agrees(Adler32.Split(0), x) && Adler32.Agrees(Adler32.Split(Adler32.Checksum(0, x)), y)
    ensures y == [] ==> Adler32.Checksum(0, x + y) == Adler32.Checksum(0, x)
  {
    Adler32.ChecksumConcat(0, x, y);
    Adler32.ReducedStartAgrees(Adler32.Split(0), x);
    Adler32.ReducedStartAgrees(Adler32.Split(Adler32.Checksum(0, x)), y);
    if y == [] {
      assert x + y == x;
    }
  }

  lemma ReservedIsOverwritten<T>(s: seq<T>, reserved: seq<T>, p: nat, data: seq<T>)
    requires p <= |s| <= |reserved| <= Max(|s|, p + |data|) && reserved[..|s|] == s
    ensures Spliced(reserved, p, data) == Spliced(s, p, data)
  {
    var l, r := Spliced(reserved, p, data), Spliced(s, p, data);
    assert reserved[..p] == s[..p];
    if p + |data| <= |s| {
      assert reserved == s;
    }
  }

  // ----- unpacking -----

  /**
   The outcome of one attempt on the bytes received so far. Url, sequence and
   length are set as soon as the whole header and url are there.
   */
  datatype Unpacked =
    | Continue
    | ContinueHead
    | ContinueData(url: seq<byte>, sequence: uint32, length: nat)
    | BadMagic
    | BadLength
    | TooLong
    | BadHash(url: seq<byte>, sequence: uint32, length: nat)
    | Ok(url: seq<byte>, sequence: uint32, length: nat, data: seq<byte>)

  function UnpackResult(raw: seq<byte>): Unpacked {
    if |raw| < HEADER then Continue else
    var h := FromWire(raw);
    var start := h.headLength + h.urlLength;
    if (start + h.totalLength) % 0x100 != h.magic then BadMagic
    else if start > h.totalLength then BadLength
    else if MAX_TOTAL < h.totalLength then TooLong
    else if start > |raw| then ContinueHead
    else
      var url := raw[h.headLength..start];
      if h.totalLength > |raw| then ContinueData(url, h.sequence, h.totalLength)
      else if h.hash != 0 && h.hash != Adler32.Checksum(0, raw[h.headLength..h.totalLength])
      then BadHash(url, h.sequence, h.totalLength)
      else Ok(url, h.sequence, h.totalLength, raw[start..h.totalLength])
  }

  /** A hash of 0 is not checked. */
  method HashMatches(raw: seq<byte>, st: Header) returns (ok: bool)
    requires st.headLength <= st.totalLength <= |raw|
    ensures ok == (st.hash == 0 || st.hash == Adler32.Checksum(0, raw[st.headLength..st.totalLength]))
  {
    if st.hash == 0 {
      return true;
    }
    var n := st.totalLength - st.headLength;
    assert raw[st.headLength..][..n] == raw[st.headLength..st.totalLength];
    Adler32.ReducedStartAgrees(Adler32.Split(0), raw[st.headLength..][..n]);
    var hash := Adler32.Compute(false, 0, Adler32.To(raw[st.headLength..]), n);
    return st.hash == hash;
  }

  /** `Packer_Unpack`: the payload goes to `data` at its position, on success only. */
  method Unpack(raw: seq<byte>, data: AutoBuffer<byte>) returns (r: Unpacked)
    requires data.Valid()
    modifies data, data.parray_
    ensures data.Valid() && r == UnpackResult(raw)
    ensures data.Contents() == if r.Ok? then Spliced(old(data.Contents()), old(data.pos_), r.data)
                               else old(data.Contents())
  {
    if |raw| < HEADER {
      return Continue;
    }
    hide FromBe32, FromBe16;
    var st := FromWire(raw);
    if (st.headLength + st.urlLength + st.totalLength) % 0x100 != st.magic {
      return BadMagic;
    }
    if st.urlLength + st.headLength > st.totalLength {
      return BadLength;
    }
    if MAX_TOTAL < st.totalLength {
      return TooLong;
    }
    if st.urlLength + st.headLength > |raw| {
      return ContinueHead;
    }
    var url := raw[st.headLength..st.headLength + st.urlLength];
    if st.totalLength > |raw| {
      return ContinueData(url, st.sequence, st.totalLength);
    }
    var intact := HashMatches(raw, st);
    if !intact {
      return BadHash(url, st.sequence, st.totalLength);
    }
    var payload := raw[st.headLength + st.urlLength..st.totalLength];
    data.Write(payload);
    return Ok(url, st.sequence, st.totalLength, payload);
  }

  // ----- what is accepted and what is refused, byte by byte -----

  /** The number four bytes spell, most significant first. */
  function Spelt(s: seq<byte>, k: nat): nat
    requires k + 4 <= |s|
  {
    var most: int := s[k];
    ((most * 0x100 + s[k + 1]) * 0x100 + s[k + 2]) * 0x100 + s[k + 3]
  }

  /** The lengths of header and url together, which is where the payload starts. */
  function PayloadStart(raw: seq<byte>): nat
    requires |raw| >= HEADER
  {
    var head: int := raw[2];
    head + raw[3]
  }

  /** The first byte is the low byte of the sum of both lengths in the header and the total length. */
  predicate Sealed(raw: seq<byte>)
    requires |raw| >= HEADER
  {
    (PayloadStart(raw) + raw[7]) % 0x100 == raw[0]
  }

  /** The header is one of a packet that may be received: lengths within the total, the total within 1 MiB. */
  predicate Receivable(raw: seq<byte>)
    requires |raw| >= HEADER
  {
    Sealed(raw) && PayloadStart(raw) <= Spelt(raw, 4) <= 1024 * 1024
  }

  lemma SpeltBytes(raw: seq<byte>, k: nat)
    requires k + 4 <= |raw|
    ensures FromBe32(raw[k..k + 4]) == Spelt(raw, k)
  {
    var s := raw[k..k + 4];
    assert s[..2] == [raw[k], raw[k + 1]] && s[2..] == [raw[k + 2], raw[k + 3]];
  }

  lemma LowByte(x: nat, w: nat, v: nat)
    ensures (v + (x * 0x100 + w)) % 0x100 == (v + w) % 0x100
  {
  }

  lemma SealedHeader(raw: seq<byte>)
    requires |raw| >= HEADER
    ensures var h := FromWire(raw);
            && h.totalLength == Spelt(raw, 4) && h.sequence == Spelt(raw, 8) && h.hash == Spelt(raw, 12)
            && ((h.headLength + h.urlLength + h.totalLength) % 0x100 == h.magic <==> Sealed(raw))
  {
    SpeltBytes(raw, 4);
    SpeltBytes(raw, 8);
    SpeltBytes(raw, 12);
    var most: int := raw[4];
    LowByte((most * 0x100 + raw[5]) * 0x100 + raw[6], raw[7], PayloadStart(raw));
  }

  /** Every byte of what is sent. */
  lemma PacketInBytes(url: seq<byte>, sequence: uint32, data: seq<byte>, doHash: bool)
    requires |data| < 0x1_0000_0000 - 0x100
    ensures var p := Packet(url, sequence, data, doHash); var n := if |url| < 128 then |url| else 128;
            && |p| == 16 + n + |data| && Sealed(p)
            && p[1] == 1 && p[2] == 16 && p[3] == n && Spelt(p, 4) == |p| && Spelt(p, 8) == sequence
            && Spelt(p, 12) == (if doHash then Adler32.Checksum(0, url[..n] + data) else 0)
            && p[16..] == url[..n] + data
  {
    hide Wire, FromWire, Spelt, Sealed, Adler32.Checksum;
    var p := Packet(url, sequence, data, doHash);
    PacketLayout(url, sequence, data, doHash, []);
    assert p + [] == p && data[..|data|] == data;
    SealedHeader(p);
    HeaderBytes(p);
    assert p == Wire(HeaderOf(url, sequence, data, doHash)) + (SentUrl(url) + data);
  }

  /** Every outcome, for every input, in terms of its bytes. */
  lemma OutcomeInBytes(raw: seq<byte>)
    ensures UnpackResult(raw) == Continue <==> |raw| < HEADER
    ensures UnpackResult(raw) == BadMagic <==> |raw| >= HEADER && !Sealed(raw)
    ensures UnpackResult(raw) == BadLength <==> |raw| >= HEADER && Sealed(raw) && Spelt(raw, 4) < PayloadStart(raw)
    ensures UnpackResult(raw) == TooLong <==>
              |raw| >= HEADER && Sealed(raw) && PayloadStart(raw) <= Spelt(raw, 4) && 1024 * 1024 < Spelt(raw, 4)
    ensures UnpackResult(raw) == ContinueHead <==> |raw| >= HEADER && Receivable(raw) && |raw| < PayloadStart(raw)
    ensures UnpackResult(raw).ContinueData? <==>
              |raw| >= HEADER && Receivable(raw) && PayloadStart(raw) <= |raw| < Spelt(raw, 4)
    ensures UnpackResult(raw).Ok? <==>
              && |raw| >= HEADER && Receivable(raw) && Spelt(raw, 4) <= |raw|
              && (Spelt(raw, 12) == 0 || Spelt(raw, 12) == Adler32.Checksum(0, raw[raw[2]..Spelt(raw, 4)]))
  {
    hide FromWire, Spelt, Sealed, PayloadStart, Adler32.Checksum;
    if |raw| >= HEADER {
      SealedHeader(raw);
      HeaderBytes(raw);
    }
  }

  lemma HeaderBytes(raw: seq<byte>)
    requires |raw| >= HEADER
    ensures FromWire(raw).ver == raw[1] && FromWire(raw).headLength == raw[2] && FromWire(raw).urlLength == raw[3]
    ensures FromWire(raw).headLength + FromWire(raw).urlLength == PayloadStart(raw)
  {
  }

  /** Whatever the bytes: what is delivered are the bytes between the lengths the header spells. */
  lemma DeliveredBytes(raw: seq<byte>)
    requires UnpackResult(raw).Ok? || UnpackResult(raw).BadHash? || UnpackResult(raw).ContinueData?
    ensures var r, u := UnpackResult(raw), PayloadStart(raw);
            && |raw| >= HEADER && u <= |raw|
            && r.url == raw[raw[2]..u] && r.sequence == Spelt(raw, 8) && r.length == Spelt(raw, 4)
            && (r.Ok? ==> u <= Spelt(raw, 4) <= |raw| && r.data == raw[u..Spelt(raw, 4)])
  {
    hide FromWire, Spelt, Sealed, PayloadStart, Adler32.Checksum;
    SealedHeader(raw);
    HeaderBytes(raw);
  }

  /**
   Changing the first byte, the low byte of the total length or either of the
   other lengths is never accepted nor waited for, in a whole packet or a part.
   */
  lemma ChangedHeaderRefused(raw: seq<byte>, i: nat, v: byte)
    requires |raw| >= HEADER && UnpackResult(raw) != BadMagic
    requires (i == 0 || i == 2 || i == 3 || i == 7) && v != raw[i]
    ensures UnpackResult(raw[i := v]) == BadMagic
  {
    hide UnpackResult, Spelt, Sealed, PayloadStart, Receivable;
    OutcomeInBytes(raw);
    SealBroken(raw, i, v);
    OutcomeInBytes(raw[i := v]);
  }

  lemma SealBroken(raw: seq<byte>, i: nat, v: byte)
    requires |raw| >= HEADER && Sealed(raw)
    requires (i == 0 || i == 2 || i == 3 || i == 7) && v != raw[i]
    ensures !Sealed(raw[i := v])
  {
  }

  // ----- packets on a stream -----

  /** The three parts of a packet followed by anything, and what the header reads back as. */
  lemma PacketLayout(url: seq<byte>, sequence: uint32, data: seq<byte>, doHash: bool, rest: seq<byte>)
    ensures var p := Packet(url, sequence, data, doHash) + rest;
            var u := HEADER + |SentUrl(url)|;
            && |Packet(url, sequence, data, doHash)| == Total(url, data)
            && p[HEADER..u] == SentUrl(url) && p[u..Total(url, data)] == data
            && p[HEADER..Total(url, data)] == SentUrl(url) + data
            && FromWire(p) == HeaderOf(url, sequence, data, doHash)
  {
    var h := HeaderOf(url, sequence, data, doHash);
    var p := Packet(url, sequence, data, doHash) + rest;
    assert p == Wire(h) + (SentUrl(url) + data + rest);
    WireRoundTrip(h, SentUrl(url) + data + rest);
  }

  /**
   A packet is recovered from the front of a stream exactly when its total
   length is at most 1 MiB; longer ones are refused or misread.
   */
  lemma RoundTrip(url: seq<byte>, sequence: uint32, data: seq<byte>, doHash: bool, rest: seq<byte>)
    ensures Total(url, data) <= MAX_TOTAL <==>
            UnpackResult(Packet(url, sequence, data, doHash) + rest)
            == Ok(SentUrl(url), sequence, Total(url, data), data)
  {
    PacketLayout(url, sequence, data, doHash, rest);
    if Total(url, data) <= MAX_TOTAL {
      assert data[..|data| % 0x1_0000_0000] == data;
    }
  }

  /** A packet cut short asks for exactly what is missing: header, url or payload. */
  lemma PrefixContinues(url: seq<byte>, sequence: uint32, data: seq<byte>, doHash: bool, n: nat)
    requires n < Total(url, data) <= MAX_TOTAL
    ensures |Packet(url, sequence, data, doHash)| == Total(url, data)
    ensures UnpackResult(Packet(url, sequence, data, doHash)[..n])
            == if n < HEADER then Continue
               else if n < HEADER + |SentUrl(url)| then ContinueHead
               else ContinueData(SentUrl(url), sequence, Total(url, data))
  {
    hide Wire, FromWire, Hash;
    var p := Packet(url, sequence, data, doHash);
    PacketLayout(url, sequence, data, doHash, []);
    assert p + [] == p;
    if n >= HEADER {
      assert p[..n] == Wire(HeaderOf(url, sequence, data, doHash)) + p[HEADER..n];
      WireRoundTrip(HeaderOf(url, sequence, data, doHash), p[HEADER..n]);
      if n >= HEADER + |SentUrl(url)| {
        assert p[..n][HEADER..HEADER + |SentUrl(url)|] == p[HEADER..HEADER + |SentUrl(url)|];
      }
    }
  }

  datatype Message = Message(url: seq<byte>, sequence: uint32, data: seq<byte>, doHash: bool)

  function Stream(ms: seq<Message>): seq<byte> {
    if ms == [] then [] else
      Packet(ms[0].url, ms[0].sequence, ms[0].data, ms[0].doHash) + Stream(ms[1..])
  }

  datatype Received = Received(url: seq<byte>, sequence: uint32, data: seq<byte>)

  /** Unpacking from the front until an attempt does not yield a packet; what is left over. */
  function Receive(raw: seq<byte>): (seq<Received>, seq<byte>)
    decreases |raw|
  {
    match UnpackResult(raw)
    case Ok(url, sequence, length, data) =>
      if length == 0 then ([], raw) else
        var (more, rest) := Receive(raw[length..]);
        ([Received(url, sequence, data)] + more, rest)
    case _ => ([], raw)
  }

  function Sent(ms: seq<Message>): seq<Received> {
    seq(|ms|, i requires 0 <= i < |ms| => Received(SentUrl(ms[i].url), ms[i].sequence, ms[i].data))
  }

  lemma ReceiveOne(m: Message, rest: seq<byte>)
    requires Total(m.url, m.data) <= MAX_TOTAL
    ensures Receive(Packet(m.url, m.sequence, m.data, m.doHash) + rest)
            == ([Received(SentUrl(m.url), m.sequence, m.data)] + Receive(rest).0, Receive(rest).1)
  {
    hide Packet;
    var p := Packet(m.url, m.sequence, m.data, m.doHash);
    RoundTrip(m.url, m.sequence, m.data, m.doHash, rest);
    PacketLayout(m.url, m.sequence, m.data, m.doHash, rest);
    assert (p + rest)[|p|..] == rest;
  }

  /**
   Any number of packets in a row followed by an incomplete one: all of them are
   recovered in order and the incomplete bytes are left for the next attempt.
   */
  lemma {:induction false} StreamRoundTrip(ms: seq<Message>, last: Message, n: nat)
    requires forall m :: m in ms ==> Total(m.url, m.data) <= MAX_TOTAL
    requires n < Total(last.url, last.data) <= MAX_TOTAL
    requires n <= |Packet(last.url, last.sequence, last.data, last.doHash)|
    ensures var tail := Packet(last.url, last.sequence, last.data, last.doHash)[..n];
            Receive(Stream(ms) + tail) == (Sent(ms), tail)
    decreases |ms|
  {
    hide UnpackResult, Packet;
    var tail := Packet(last.url, last.sequence, last.data, last.doHash)[..n];
    if ms == [] {
      assert Stream(ms) + tail == tail && Sent(ms) == [];
      PrefixContinues(last.url, last.sequence, last.data, last.doHash, n);
    } else {
      var m := ms[0];
      assert Stream(ms) + tail == Packet(m.url, m.sequence, m.data, m.doHash) + (Stream(ms[1..]) + tail);
      ReceiveOne(m, Stream(ms[1..]) + tail);
      StreamRoundTrip(ms[1..], last, n);
      assert Sent(ms) == [Received(SentUrl(m.url), m.sequence, m.data)] + Sent(ms[1..]);
    }
  }

  /** A packet's header in front of any bytes of the right number: only the hash decides. */
  lemma HashDecides(url: seq<byte>, sequence: uint32, data: seq<byte>, doHash: bool, other: seq<byte>)
    requires Total(url, data) <= MAX_TOTAL && |other| == |SentUrl(url)| + |data|
    ensures var r := UnpackResult(Wire(HeaderOf(url, sequence, data, doHash)) + other);
            var bad := Hash(url, data, doHash) != 0 && Hash(url, data, doHash) != Adler32.Checksum(0, other);
            r.BadHash? == bad && r.Ok? == !bad
  {
    hide Wire, FromWire, Hash, Adler32.Checksum;
    var h := HeaderOf(url, sequence, data, doHash);
    WireRoundTrip(h, other);
    assert (Wire(h) + other)[HEADER..h.totalLength] == other;
  }

  /**
   Changing one byte of url or payload is detected exactly when the packet
   carries a nonzero hash.
   */
  lemma CorruptionDetected(url: seq<byte>, sequence: uint32, data: seq<byte>, doHash: bool, i: nat, v: byte)
    requires HEADER <= i < Total(url, data) <= MAX_TOTAL
    requires |Packet(url, sequence, data, doHash)| == Total(url, data) && v != Packet(url, sequence, data, doHash)[i]
    ensures UnpackResult(Packet(url, sequence, data, doHash)[i := v]).BadHash? <==> Hash(url, data, doHash) != 0
    ensures UnpackResult(Packet(url, sequence, data, doHash)[i := v]).Ok? <==> Hash(url, data, doHash) == 0
  {
    hide Wire, FromWire, UnpackResult, HeaderOf, Adler32.Checksum;
    var h, body := HeaderOf(url, sequence, data, doHash), SentUrl(url) + data;
    assert Packet(url, sequence, data, doHash) == Wire(h) + body;
    ChangedBody(Wire(h), body, i - HEADER, v);
    HashDecides(url, sequence, data, doHash, body[i - HEADER := v]);
    assert data[..|data| % 0x1_0000_0000] == data;
    Adler32.SingleByteDetected(0, body, i - HEADER, v);
  }

  lemma ChangedBody(head: seq<byte>, body: seq<byte>, k: nat, v: byte)
    requires k < |body|
    ensures (head + body)[|head| + k := v] == head + body[k := v]
  {
  }
}
