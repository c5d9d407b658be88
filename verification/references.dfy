/** What `native/mars/comm/tinyxml2.cc` writes for character references, against RFC 3629. */
module CharacterReferences {

  import opened Bytes
  import XmlText
  import Utf8

  /** Above Unicode the lead byte or the one behind it is out of range. */
  lemma BeyondUnicode(v: nat)
    requires v > 0x10FFFF
    ensures !Utf8.WellFormed(XmlText.CodeBytes(v))
  {
    var x := XmlText.CodeBytes(v);
    if v < 0x20_0000 {
      assert v / 0x1000 == v / 0x4_0000 * 0x40 + v / 0x1000 % 0x40;
      assert x[0] == 0xF0 + v / 0x4_0000 && x[1] == 0x80 + v / 0x1000 % 0x40;
    }
  }

  /** A character reference is written as UTF-8 exactly if it names a scalar value, and then it means that. */
  lemma ReferenceIsUtf8(v: nat)
    ensures Utf8.WellFormed(XmlText.CodeBytes(v)) <==> Utf8.IsScalar(v)
    ensures Utf8.IsScalar(v) ==> Utf8.Value(XmlText.CodeBytes(v)) == v
  {
    if v <= 0x10FFFF {
      Utf8.EncodedIsWellFormed(v);
    } else {
      BeyondUnicode(v);
    }
  }

  function Above(b: byte, mark: int): int { b as int - mark }

  /** How many bytes there are, and that they hold the code six bits a byte, from 2^21 on none. */
  lemma CodeLayout(v: nat)
    ensures var b := XmlText.CodeBytes(v);
            && |b| == (if v < 0x80 then 1 else if v < 0x800 then 2 else if v < 0x1_0000 then 3
                       else if v < 0x20_0000 then 4 else 0)
            && (forall i :: 1 <= i < |b| ==> 0x80 <= b[i] < 0xC0)
            && (|b| == 1 ==> v == b[0])
            && (|b| == 2 ==> v == Above(b[0], 0xC0) * 0x40 + Above(b[1], 0x80))
            && (|b| == 3 ==> v == Above(b[0], 0xE0) * 0x1000 + Above(b[1], 0x80) * 0x40 + Above(b[2], 0x80))
            && (|b| == 4 ==> v == Above(b[0], 0xF0) * 0x4_0000 + Above(b[1], 0x80) * 0x1000
                                  + Above(b[2], 0x80) * 0x40 + Above(b[3], 0x80))
  {
    assert v == v / 0x40 * 0x40 + v % 0x40;
    assert v / 0x40 == v / 0x1000 * 0x40 + v / 0x40 % 0x40;
    assert v / 0x1000 == v / 0x4_0000 * 0x40 + v / 0x1000 % 0x40;
  }
}
