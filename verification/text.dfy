/**
 The lazily decoded strings of `native/mars/comm/tinyxml2.cc`: `StrPair` marks
 a span of the parse buffer and rewrites it in place when it is first read.
 Characters are bytes; a span holds no NUL and ends before one.
 */
module XmlText {

  import opened Bytes
  import opened Options
  import opened Strings
  import Utf8

  datatype Flags = Flags(entities: bool, newlines: bool, collapse: bool)

  // ----- character references -----

  function Chars(bs: seq<byte>): (s: string)
    ensures |s| == |bs|
  {
    seq(|bs|, i requires 0 <= i < |bs| => bs[i] as char)
  }

  /** The bytes written for a code: none from 0x200000 on. */
  function CodeBytes(v: nat): (s: seq<byte>)
    ensures |s| <= 4 && (|s| == 4 ==> v >= 0x1_0000)
  {
    if v < 0x20_0000 then Utf8.Encoded(v) else []
  }

  /** `ConvertUTF32ToUTF8`: writes the bytes from the last to the first. */
  method ConvertUTF32ToUTF8(code: nat) returns (output: seq<byte>)
    ensures output == CodeBytes(code)
  {
    var input: nat, length: nat := code, 0;
    if input < 0x80 {
      length := 1;
    } else if input < 0x800 {
      length := 2;
    } else if input < 0x1_0000 {
      length := 3;
    } else if input < 0x20_0000 {
      length := 4;
    } else {
      return [];
    }
    output := [];
    if length >= 4 {
      output := [0x80 + input % 0x40] + output;
      input := input / 0x40;
    }
    assert input < 0x1_0000;
    if length >= 3 {
      output := [0x80 + input % 0x40] + output;
      input := input / 0x40;
    }
    assert input < 0x800;
    if length >= 2 {
      output := [0x80 + input % 0x40] + output;
      input := input / 0x40;
    }
    var mark := if length == 1 then 0 else if length == 2 then 0xC0 else if length == 3 then 0xE0 else 0xF0;
    assert length == 4 ==> input < 8;
    assert length == 3 ==> input < 0x10;
    assert length == 2 ==> input < 0x20;
    output := [mark + input] + output;
  }

  function DigitOf(c: char, hex: bool): (d: Option<nat>)
    ensures d.Some? ==> d.value < if hex then 16 else 10
  {
    if '0' <= c <= '9' then Some(c as int - '0' as int)
    else if hex && 'a' <= c <= 'f' then Some(c as int - 'a' as int + 10)
    else if hex && 'A' <= c <= 'F' then Some(c as int - 'A' as int + 10)
    else None
  }

  function BaseOf(hex: bool): nat { if hex then 16 else 10 }

  function StopOf(hex: bool): char { if hex then 'x' else '#' }

  const WORD: nat := 0x1_0000_0000

  /**
   The digits from q leftwards to the nearest stop character, summed with a
   32-bit multiplier that wraps; none if another character is met.
   */
  function ScanBack(s: string, low: nat, q: nat, hex: bool, mult: nat, ucs: nat): Option<nat>
    requires low <= q < |s| && s[low] == StopOf(hex)
    decreases q
  {
    if s[q] == StopOf(hex) then Some(ucs) else
    match DigitOf(s[q], hex)
    case None => None
    case Some(d) =>
      ScanBack(s, low, q - 1, hex, mult * BaseOf(hex) % WORD, ucs + mult * d % WORD)
  }

  datatype Reference = Literal | Ref(length: nat, bytes: string)

  /** What `GetCharacterRef` makes of text starting with "&#". */
  function CharRef(s: string): (r: Reference)
    requires |s| >= 2 && s[1] == '#'
    ensures r.Ref? ==> 1 <= r.length <= |s| && |r.bytes| <= r.length
  {
    if |s| == 2 then Ref(1, "") else
    var hex := s[2] == 'x';
    var low := if hex then 2 else 1;
    var semi := IndexOf(s, low + 1, ';');
    if (hex && |s| == 3) || semi == |s| then Literal else
    match ScanBack(s, low, semi - 1, hex, 1, 0)
    case None => Literal
    case Some(ucs) => Ref(semi + 1, Chars(CodeBytes(ucs)))
  }

  /** From k to the end the buffer still shows the text t, whose terminator follows. */
  ghost predicate Shows(buf: array<char>, t: string, k: nat)
    reads buf
  {
    && |t| < buf.Length && buf[|t|] == NUL
    && forall i :: k <= i < |t| ==> buf[i] == t[i] != NUL
  }

  /** `strchr` for a semicolon: stops at the terminator. */
  method FindSemicolon(buf: array<char>, p: nat, from: nat, ghost t: string) returns (q: nat)
    requires p <= from <= |t| && Shows(buf, t, p)
    ensures from <= q <= |t| && q - p == IndexOf(t[p..], from - p, ';')
  {
    q := from;
    while buf[q] != NUL && buf[q] != ';'
      invariant from <= q <= |t| && IndexOf(t[p..], q - p, ';') == IndexOf(t[p..], from - p, ';')
      decreases |t| - q
    {
      q := q + 1;
    }
  }

  method ScanDigits(buf: array<char>, p: nat, low: nat, last: nat, hex: bool, ghost t: string) returns (r: Option<nat>)
    requires p <= low <= last < |t| && Shows(buf, t, p) && buf[low] == StopOf(hex)
    ensures r == ScanBack(t[p..], low - p, last - p, hex, 1, 0)
  {
    var q := last;
    var ucs: nat, mult: nat := 0, 1;
    while buf[q] != StopOf(hex)
      invariant low <= q < |t|
      invariant ScanBack(t[p..], low - p, q - p, hex, mult, ucs) == ScanBack(t[p..], low - p, last - p, hex, 1, 0)
      decreases q
    {
      var d := DigitOf(buf[q], hex);
      if d == None {
        return None;
      }
      ucs := ucs + mult * d.value % WORD;
      mult := mult * BaseOf(hex) % WORD;
      q := q - 1;
    }
    return Some(ucs);
  }

  method GetCharacterRef(buf: array<char>, p: nat, ghost t: string) returns (r: Reference)
    requires p + 2 <= |t| && Shows(buf, t, p) && buf[p + 1] == '#'
    ensures r == CharRef(t[p..])
  {
    hide ScanBack, CodeBytes;
    if buf[p + 2] == NUL {
      return Ref(1, "");
    }
    var hex := buf[p + 2] == 'x';
    var low := if hex then p + 2 else p + 1;
    if hex && buf[p + 3] == NUL {
      return Literal;
    }
    var q := FindSemicolon(buf, p, low + 1, t);
    if buf[q] == NUL {
      return Literal;
    }
    var ucs := ScanDigits(buf, p, low, q - 1, hex, t);
    if ucs == None {
      return Literal;
    }
    var bytes := ConvertUTF32ToUTF8(ucs.value);
    return Ref(q - p + 1, Chars(bytes));
  }

  // ----- what a reference denotes -----

  predicate AllDigits(s: string, hex: bool) {
    forall c :: c in s ==> DigitOf(c, hex).Some?
  }

  function Numeral(s: string, hex: bool): nat
    requires AllDigits(s, hex)
  {
    if s == "" then 0
    else Numeral(s[..|s| - 1], hex) * (if hex then 16 else 10) + DigitOf(s[|s| - 1], hex).value
  }

  /** Every digit times its power of the base, of which 32 bits are kept. */
  function WrappedSum(s: string, hex: bool, power: nat): nat
    requires AllDigits(s, hex)
  {
    if s == "" then 0
    else WrappedSum(s[..|s| - 1], hex, power * if hex then 16 else 10)
         + power * DigitOf(s[|s| - 1], hex).value % 0x1_0000_0000
  }

  lemma MulModWord(x: nat, y: nat)
    ensures (x % WORD) * y % WORD == x * y % WORD
  {
    var k := x / WORD;
    assert x * y == (x % WORD) * y + (k * y) * WORD by {
      assert x == x % WORD + k * WORD;
      assert (k * WORD) * y == (k * y) * WORD;
    }
    AddMultiple((x % WORD) * y, k * y);
  }

  lemma AddMultiple(x: nat, k: nat)
    ensures (x + k * WORD) % WORD == x % WORD
  {
  }

  /** What the backward scan adds up. */
  lemma {:induction false} ScanBackIsSum(s: string, low: nat, digits: string, hex: bool, power: nat, ucs: nat)
    requires AllDigits(digits, hex) && low + |digits| < |s|
    requires s[low] == StopOf(hex) && s[low + 1..low + 1 + |digits|] == digits
    ensures ScanBack(s, low, low + |digits|, hex, power % WORD, ucs) == Some(ucs + WrappedSum(digits, hex, power))
    decreases |digits|
  {
    hide ScanBack;
    if digits == "" {
      ScanStops(s, low, hex, power % WORD, ucs);
    } else {
      var n := |digits| - 1;
      var d := DigitOf(digits[n], hex).value;
      assert s[low + 1 + n] == digits[n];
      assert s[low + 1..low + 1 + n] == digits[..n];
      ScanDigit(s, low, low + |digits|, hex, power % WORD, ucs, d);
      MulModWord(power, BaseOf(hex));
      MulModWord(power, d);
      ScanBackIsSum(s, low, digits[..n], hex, power * BaseOf(hex), ucs + power * d % WORD);
    }
  }

  /** That is the value the digits spell as long as it fits 32 bits, leading zeros included. */
  lemma {:induction false} SumIsNumeral(digits: string, hex: bool, power: nat)
    requires AllDigits(digits, hex) && Numeral(digits, hex) * power < WORD
    ensures WrappedSum(digits, hex, power) == Numeral(digits, hex) * power
    decreases |digits|
  {
    if digits != "" {
      var n := |digits| - 1;
      var v, d := Numeral(digits[..n], hex), DigitOf(digits[n], hex).value;
      TermFits(v, BaseOf(hex), d, power);
      SumIsNumeral(digits[..n], hex, power * BaseOf(hex));
    }
  }

  lemma ScanStops(s: string, low: nat, hex: bool, mult: nat, ucs: nat)
    requires low < |s| && s[low] == StopOf(hex)
    ensures ScanBack(s, low, low, hex, mult, ucs) == Some(ucs)
  {
  }

  lemma ScanDigit(s: string, low: nat, q: nat, hex: bool, mult: nat, ucs: nat, d: nat)
    requires low < q < |s| && s[low] == StopOf(hex) && DigitOf(s[q], hex) == Some(d)
    ensures ScanBack(s, low, q, hex, mult, ucs)
            == ScanBack(s, low, q - 1, hex, mult * BaseOf(hex) % WORD, ucs + mult * d % WORD)
  {
  }

  lemma TermFits(v: nat, b: nat, d: nat, power: nat)
    requires (v * b + d) * power < WORD
    ensures power * b >= 0 && (v * b + d) * power == v * (power * b) + power * d
    ensures v * (power * b) < WORD && power * d % WORD == power * d
  {
    assert (v * b + d) * power == v * (power * b) + power * d by {
      assert (v * b) * power == v * (power * b);
    }
    Nonnegative(power, b);
    Nonnegative(v, power * b);
    Nonnegative(power, d);
  }

  lemma Nonnegative(x: nat, y: nat)
    ensures x * y >= 0
  {
  }

  /** Where the scan starts from does not matter beyond the first stop character. */
  lemma {:induction false} ScanBackFrom(s: string, low: nat, stop: nat, q: nat, hex: bool, mult: nat, ucs: nat)
    requires low <= stop <= q < |s| && s[low] == StopOf(hex) && s[stop] == StopOf(hex)
    ensures ScanBack(s, low, q, hex, mult, ucs) == ScanBack(s, stop, q, hex, mult, ucs)
    decreases q
  {
    if s[q] != StopOf(hex) && DigitOf(s[q], hex).Some? {
      var d := DigitOf(s[q], hex).value;
      ScanBackFrom(s, low, stop, q - 1, hex, mult * BaseOf(hex) % WORD, ucs + mult * d % WORD);
    }
  }

  lemma {:induction false} ScanBackFails(s: string, low: nat, tail: string, hex: bool, mult: nat, ucs: nat)
    requires low + |tail| < |s| && s[low] == StopOf(hex) && s[low + 1..low + 1 + |tail|] == tail
    requires StopOf(hex) !in tail && !AllDigits(tail, hex)
    ensures ScanBack(s, low, low + |tail|, hex, mult, ucs) == None
    decreases |tail|
  {
    var n := |tail| - 1;
    assert s[low + 1 + n] == tail[n] && tail[n] in tail;
    if DigitOf(tail[n], hex).Some? {
      var d := DigitOf(tail[n], hex).value;
      assert s[low + 1..low + 1 + n] == tail[..n] && tail == tail[..n] + [tail[n]];
      ScanBackFails(s, low, tail[..n], hex, mult * BaseOf(hex) % WORD, ucs + mult * d % WORD);
    }
  }

  /** What stands between "&#" and the semicolon, up to the last 'x' or '#' in it, and behind that. */
  predicate SplitReference(pre: string, tail: string, hex: bool) {
    && ';' !in pre && ';' !in tail && StopOf(hex) !in tail
    && if hex then pre != "" && pre[0] == 'x' == pre[|pre| - 1]
       else if pre == "" then tail == "" || tail[0] != 'x' else pre[0] != 'x' && pre[|pre| - 1] == '#'
  }

  /**
   A numeric reference is one exactly if nothing but digits stand behind its last
   'x' or '#': it denotes the code point of their sum, which below 2^32 is the
   one they spell, and whatever stands before is dropped.
   */
  lemma NumericReference(pre: string, digits: string, hex: bool, rest: string)
    requires SplitReference(pre, digits, hex)
    ensures var text := "&#" + (pre + (digits + ";"));
            && (!AllDigits(digits, hex) ==> CharRef(text + rest) == Literal)
            && (AllDigits(digits, hex) ==>
                  CharRef(text + rest) == Ref(|text|, Chars(CodeBytes(WrappedSum(digits, hex, 1)))))
  {
    var text := "&#" + (pre + (digits + ";"));
    var s := text + rest;
    var low, stop := if hex then 2 else 1, 1 + |pre|;
    var semi := stop + 1 + |digits|;
    hide CodeBytes, WrappedSum, Chars, ScanBack, AllDigits;
    assert s[stop] == StopOf(hex) && s[low] == StopOf(hex) by {
      assert pre != "" ==> s[2] == pre[0] && s[stop] == pre[|pre| - 1];
    }
    assert s[stop + 1..semi] == digits && s[semi] == ';' && |s| > 2;
    assert (s[2] == 'x') == hex by {
      assert pre == "" ==> s[2] == (digits + ";")[0];
    }
    assert ';' !in s[low + 1..semi] by {
      assert s[2..semi] == pre + digits;
      assert s[low + 1..semi] == s[2..semi][low - 1..];
    }
    FirstIndex(s, low + 1, semi, ';');
    ScanBackFrom(s, low, stop, semi - 1, hex, 1, 0);
    if AllDigits(digits, hex) {
      ScanBackIsSum(s, stop, digits, hex, 1, 0);
    } else {
      ScanBackFails(s, stop, digits, hex, 1, 0);
    }
  }

  /** Without a semicolon there is no reference, and "&#" at the end of a text is dropped to its '#'. */
  lemma UnendedReference(s: string)
    requires ';' !in s
    ensures CharRef("&#" + s) == if s == "" then Ref(1, "") else Literal
  {
    var t := "&#" + s;
    if s != "" {
      var low := if t[2] == 'x' then 2 else 1;
      assert forall i :: low + 1 <= i < |t| ==> t[i] == s[i - 2];
      NoIndex(t, low + 1, ';');
    }
  }

  /** Digits in decimal, and in hexadecimal of either case; nothing else is one. */
  lemma DigitsInOrder(d: nat, c: char, hex: bool)
    requires d < 16
    ensures DigitOf("0123456789abcdef"[d], true) == Some(d) && DigitOf("0123456789ABCDEF"[d], true) == Some(d)
    ensures DigitOf("0123456789abcdef"[d], false) == if d < 10 then Some(d) else None
    ensures DigitOf(c, hex).Some? <==> c in "0123456789" || (hex && (c in "abcdef" || c in "ABCDEF"))
  {
  }

  // ----- decoding -----

  /** The entity table, in the order it is searched. */
  const ENTITIES: seq<(string, char)> := [("quot", '"'), ("amp", '&'), ("apos", '\''), ("lt", '<'), ("gt", '>')]

  /** The first table entry from i on that the text after the ampersand spells, up to its semicolon. */
  function EntityFrom(s: string, i: nat): (e: Option<nat>)
    requires i <= |ENTITIES| && |s| > 0
    ensures e.Some? ==> e.value < |ENTITIES| && |ENTITIES[e.value].0| + 2 <= |s|
    decreases |ENTITIES| - i
  {
    if i == |ENTITIES| then None
    else if ENTITIES[i].0 + ";" <= s[1..] then Some(i)
    else EntityFrom(s, i + 1)
  }

  /**
   One step of decoding: how much of s is consumed and what is produced. An
   ampersand that starts nothing known moves both pointers without a store, so
   what it produces is the character already at the write position, `stale`.
   */
  function Unit(f: Flags, s: string, stale: char): (r: (nat, string))
    requires |s| > 0
    ensures 1 <= r.0 <= |s| && |r.1| <= r.0
  {
    if f.newlines && s[0] == CR then (if |s| > 1 && s[1] == LF then 2 else 1, [LF])
    else if f.newlines && s[0] == LF then (if |s| > 1 && s[1] == CR then 2 else 1, [LF])
    else if f.entities && s[0] == '&' then
      if |s| > 1 && s[1] == '#' then
        match CharRef(s)
        case Literal => (1, "&")
        case Ref(length, bytes) => (length, bytes)
      else
        match EntityFrom(s, 0)
        case Some(i) => (|ENTITIES[i].0| + 2, [ENTITIES[i].1])
        case None => (1, [stale])
    else (1, [s[0]])
  }

  /** What the loop of `GetStr` leaves, from read position p with `out` written. */
  function Decode(f: Flags, s: string, p: nat, out: string): (r: string)
    requires |out| <= p <= |s|
    ensures |r| <= |s|
    decreases |s| - p
  {
    if p == |s| then out else
    var (n, bytes) := Unit(f, s[p..], s[|out|]);
    Decode(f, s, p + n, out + bytes)
  }

  /** Decoding as documented: newlines folded, references replaced, any other ampersand kept. */
  function Meaning(f: Flags, s: string): string
    decreases |s|
  {
    if s == "" then "" else
    var (n, bytes) := Unit(f, s, '&');
    bytes + Meaning(f, s[n..])
  }

  /** An ampersand that starts no reference. */
  predicate LoneAmpersand(f: Flags, s: string) {
    && s != "" && f.entities && s[0] == '&'
    && !(|s| > 1 && s[1] == '#')
    && EntityFrom(s, 0).None?
  }

  /** Every lone ampersand is read where the write position still shows an ampersand. */
  predicate AmpersandsSurvive(f: Flags, s: string, p: nat, o: nat)
    requires o <= p <= |s|
    decreases |s| - p
  {
    p == |s| ||
    var (n, bytes) := Unit(f, s[p..], s[o]);
    (LoneAmpersand(f, s[p..]) ==> s[o] == '&') && AmpersandsSurvive(f, s, p + n, o + |bytes|)
  }

  /**
   Decoding in place gives the documented meaning exactly when every lone
   ampersand falls on an ampersand.
   */
  lemma {:induction false} DecodeIsMeaning(f: Flags, s: string, p: nat, out: string)
    requires |out| <= p <= |s|
    ensures Decode(f, s, p, out) == out + Meaning(f, s[p..]) <==> AmpersandsSurvive(f, s, p, |out|)
    decreases |s| - p
  {
    hide Unit, LoneAmpersand, Decode, Meaning, AmpersandsSurvive;
    if p < |s| {
      var (n, bytes) := Unit(f, s[p..], s[|out|]);
      var (m, clean) := Unit(f, s[p..], '&');
      UnitDiffers(f, s[p..], s[|out|]);
      DecodeNext(f, s, p, out);
      MeaningNext(f, s[p..]);
      SurviveNext(f, s, p, |out|);
      assert s[p..][n..] == s[p + n..];
      DecodeIsMeaning(f, s, p + n, out + bytes);
      var rest := Meaning(f, s[p + n..]);
      DecodeExtends(f, s, p + n, out + bytes);
      NextDecides(out, bytes, clean, rest, Decode(f, s, p + n, out + bytes));
    } else {
      AllDecoded(f, s, out);
      assert s[p..] == "" && out + "" == out;
    }
  }

  lemma AllDecoded(f: Flags, s: string, out: string)
    requires |out| <= |s|
    ensures Decode(f, s, |s|, out) == out && Meaning(f, "") == "" && AmpersandsSurvive(f, s, |s|, |out|)
  {
  }

  lemma MeaningNext(f: Flags, s: string)
    requires s != ""
    ensures var (n, bytes) := Unit(f, s, '&'); Meaning(f, s) == bytes + Meaning(f, s[n..])
  {
    hide Unit;
  }

  lemma SurviveNext(f: Flags, s: string, p: nat, o: nat)
    requires o <= p < |s|
    ensures var (n, bytes) := Unit(f, s[p..], s[o]);
            AmpersandsSurvive(f, s, p, o)
            <==> (LoneAmpersand(f, s[p..]) ==> s[o] == '&') && AmpersandsSurvive(f, s, p + n, o + |bytes|)
  {
    hide Unit, LoneAmpersand;
  }

  lemma NextDecides(out: string, bytes: string, clean: string, rest: string, r: string)
    requires |bytes| == |clean| && out + bytes <= r
    ensures r == out + (clean + rest) <==> bytes == clean && r == out + bytes + rest
  {
    var n := |out| + |bytes|;
    assert r[..n] == out + bytes;
    if r == out + (clean + rest) {
      assert r[..n] == out + clean;
      assert bytes == r[..n][|out|..] == clean;
    }
    assert out + bytes + rest == out + (bytes + rest);
  }

  /** The stale character shows through in a lone ampersand only. */
  lemma UnitDiffers(f: Flags, s: string, stale: char)
    requires s != ""
    ensures Unit(f, s, stale).0 == Unit(f, s, '&').0
    ensures if LoneAmpersand(f, s) && stale != '&'
            then Unit(f, s, stale).1 == [stale] && Unit(f, s, '&').1 == ['&']
            else Unit(f, s, stale).1 == Unit(f, s, '&').1
  {
  }

  lemma {:induction false} DecodeExtends(f: Flags, s: string, p: nat, out: string)
    requires |out| <= p <= |s|
    ensures out <= Decode(f, s, p, out)
    decreases |s| - p
  {
    hide Unit;
    if p < |s| {
      var (n, bytes) := Unit(f, s[p..], s[|out|]);
      DecodeExtends(f, s, p + n, out + bytes);
    }
  }

  lemma LoneEntity()
    ensures EntityFrom("&lt;&x", 0) == Some(3) && EntityFrom("&x", 0) == None
  {
    var s := "&lt;&x";
    var t := s[1..];
    assert t == "lt;&x" && t[0] == 'l' && ENTITIES[3].0 + ";" == "lt;" <= t;
    assert (ENTITIES[0].0 + ";")[0] == 'q' && (ENTITIES[1].0 + ";")[0] == 'a' && (ENTITIES[2].0 + ";")[0] == 'a';
    assert EntityFrom(s, 3) == Some(3);
    assert EntityFrom(s, 2) == Some(3);
    assert EntityFrom(s, 1) == Some(3);
    assert EntityFrom(s, 0) == Some(3);
    NoEntityShort("&x", 0);
  }

  lemma LoneUnits(f: Flags, stale: char)
    requires f.entities && f.newlines
    ensures Unit(f, "&lt;&x", stale) == (4, "<")
    ensures Unit(f, "&x", stale) == (1, [stale]) && Unit(f, "x", stale) == (1, "x")
  {
    hide EntityFrom, CharRef;
    LoneEntity();
    UnitAmpersand(f, "&lt;&x", stale);
    UnitAmpersand(f, "&x", stale);
  }

  /** The smallest failing family member: the lone ampersand comes back as a leftover letter. */
  lemma LoneAmpersandLost()
    ensures Meaning(Flags(true, true, false), "&lt;&x") == "<&x"
    ensures Decode(Flags(true, true, false), "&lt;&x", 0, "") == "<lx"
  {
    hide Unit, EntityFrom;
    var f, s := Flags(true, true, false), "&lt;&x";
    LoneUnits(f, '&');
    LoneUnits(f, 'l');
    LoneUnits(f, 't');
    assert s[0..] == s && s[4..] == "&x" && s[5..] == "x" && "&x"[1..] == "x" && "x"[1..] == "";
    assert Meaning(f, "x") == "x" && Meaning(f, "&x") == "&x";
    assert Decode(f, s, 6, "<lx") == "<lx";
    assert Decode(f, s, 5, "<l") == "<lx" by { assert s[2] == 't' && "<l" + "x" == "<lx"; }
    assert Decode(f, s, 4, "<") == "<lx" by { assert s[1] == 'l' && "<" + "l" == "<l"; }
    assert "" + "<" == "<";
  }

  lemma {:induction false} NoEntityShort(s: string, i: nat)
    requires 0 < |s| <= 3 && i <= |ENTITIES|
    ensures EntityFrom(s, i) == None
    decreases |ENTITIES| - i
  {
    if i < |ENTITIES| {
      NoEntityShort(s, i + 1);
    }
  }

  /** One unit of the loop. */
  lemma DecodeNext(f: Flags, s: string, p: nat, out: string)
    requires |out| <= p < |s|
    ensures var (n, bytes) := Unit(f, s[p..], s[|out|]); Decode(f, s, p, out) == Decode(f, s, p + n, out + bytes)
  {
    hide Unit;
  }

  // ----- whitespace collapsing -----

  function SkipWhiteSpace(t: string): (r: string)
    ensures |r| <= |t|
    ensures t != "" && IsWhiteSpace(t[0]) ==> |r| < |t|
  {
    if t == "" || !IsWhiteSpace(t[0]) then t else SkipWhiteSpace(t[1..])
  }

  lemma SkipStops(t: string)
    ensures var r := SkipWhiteSpace(t); r != "" ==> !IsWhiteSpace(r[0])
  {
  }

  /** A gap between words becomes one space; a trailing gap nothing. */
  function Squeeze(t: string): string
    decreases |t|
  {
    if t == "" then ""
    else if IsWhiteSpace(t[0]) then
      var r := SkipWhiteSpace(t);
      SkipStops(t);
      if r == "" then "" else " " + Squeeze(r)
    else [t[0]] + Squeeze(t[1..])
  }

  function Collapse(t: string): string { Squeeze(SkipWhiteSpace(t)) }

  function WordLength(t: string): (n: nat)
    ensures n <= |t|
  {
    if t == "" || IsWhiteSpace(t[0]) then 0 else 1 + WordLength(t[1..])
  }

  /** The maximal runs of characters other than whitespace. */
  function Words(t: string): seq<string>
    decreases |t|
  {
    var r := SkipWhiteSpace(t);
    if r == "" then [] else
      SkipStops(t);
      [r[..WordLength(r)]] + Words(r[WordLength(r)..])
  }

  function JoinWords(ws: seq<string>): string {
    if ws == [] then "" else if |ws| == 1 then ws[0] else ws[0] + " " + JoinWords(ws[1..])
  }

  lemma FirstCharacter(t: string)
    requires t != ""
    ensures if IsWhiteSpace(t[0])
            then SkipWhiteSpace(t) == SkipWhiteSpace(t[1..]) && WordLength(t) == 0
            else SkipWhiteSpace(t) == t && WordLength(t) == 1 + WordLength(t[1..])
                 && Squeeze(t) == [t[0]] + Squeeze(t[1..])
  {
  }

  lemma {:induction false} WordHasNoSpace(t: string, k: nat)
    requires k < WordLength(t)
    ensures !IsWhiteSpace(t[k])
    decreases k
  {
    if k > 0 {
      WordHasNoSpace(t[1..], k - 1);
    }
  }

  lemma {:induction false} WordEnds(t: string)
    ensures WordLength(t) < |t| ==> IsWhiteSpace(t[WordLength(t)])
    decreases |t|
  {
    if t != "" {
      WordEnds(t[1..]);
    }
  }

  lemma {:induction false} SqueezeWord(t: string, n: nat)
    requires n <= |t| && forall k :: 0 <= k < n ==> !IsWhiteSpace(t[k])
    ensures Squeeze(t) == t[..n] + Squeeze(t[n..])
    decreases n
  {
    hide Squeeze, IsWhiteSpace;
    if n == 0 {
      assert t[0..] == t;
    } else {
      SqueezeWord(t, n - 1);
      FirstCharacter(t[n - 1..]);
      assert t[n - 1..][1..] == t[n..];
      assert t[..n - 1] + ([t[n - 1]] + Squeeze(t[n..])) == t[..n] + Squeeze(t[n..]);
    }
  }

  lemma SqueezeGap(t: string)
    requires t == "" || IsWhiteSpace(t[0])
    ensures var r := SkipWhiteSpace(t);
            Squeeze(t) == if r == "" then "" else " " + Squeeze(r)
  {
    hide SkipWhiteSpace, IsWhiteSpace;
  }

  lemma JoinFirst(w: string, ws: seq<string>)
    ensures JoinWords([w] + ws) == if ws == [] then w else w + (" " + JoinWords(ws))
  {
    assert ([w] + ws)[1..] == ws;
    assert w + " " + JoinWords(ws) == w + (" " + JoinWords(ws));
  }

  /** Collapsing leaves the words joined by single spaces. */
  lemma {:induction false} CollapseJoinsWords(t: string)
    ensures Collapse(t) == JoinWords(Words(t))
    decreases |t|
  {
    hide IsWhiteSpace, SkipWhiteSpace, Squeeze, JoinWords;
    var r := SkipWhiteSpace(t);
    if r == "" {
      SqueezeGap("");
      NoWords();
    } else {
      var n := WordLength(r);
      forall k | 0 <= k < n
        ensures !IsWhiteSpace(r[k])
      {
        WordHasNoSpace(r, k);
      }
      WordEnds(r);
      SkipStops(t);
      SqueezeWord(r, n);
      SqueezeGap(r[n..]);
      CollapseJoinsWords(r[n..]);
      JoinFirst(r[..n], Words(r[n..]));
    }
  }

  lemma NoWords()
    ensures JoinWords([]) == "" && SkipWhiteSpace("") == ""
  {
  }

  // ----- the string pair -----

  /** The C string at k: up to the first NUL. */
  function CStringAt(s: string, k: nat): string
    requires k <= |s|
  {
    s[k..IndexOf(s, k, NUL)]
  }

  /** The value a span with pending flags reads as. */
  function Value(f: Flags, span: string): string {
    if !f.entities && !f.newlines && !f.collapse then span else
    var decoded := CStringAt(Decode(f, span, 0, ""), 0);
    if f.collapse then Collapse(decoded) else decoded
  }

  /** With collapsing on, what is read without it comes as its words joined by single spaces. */
  lemma ValueCollapsed(f: Flags, span: string)
    requires NUL !in span
    ensures Value(f.(collapse := true), span) == JoinWords(Words(Value(f.(collapse := false), span)))
  {
    hide Words, JoinWords, Collapse, Decode;
    var plain := f.(collapse := false);
    var decoded := CStringAt(Decode(plain, span, 0, ""), 0);
    DecodeKeepsFlags(f, span, 0, "");
    if !f.entities && !f.newlines {
      DecodeUntouched(plain, span, 0);
      assert span[..0] == "" && span[0..] == span;
      NoIndex(span, 0, NUL);
    }
    assert Value(plain, span) == decoded;
    CollapseJoinsWords(decoded);
  }

  lemma {:induction false} DecodeKeepsFlags(f: Flags, s: string, p: nat, out: string)
    requires |out| <= p <= |s|
    ensures Decode(f.(collapse := true), s, p, out) == Decode(f.(collapse := false), s, p, out)
    decreases |s| - p
  {
    hide Unit;
    if p < |s| {
      var (n, bytes) := Unit(f.(collapse := false), s[p..], s[|out|]);
      UnitKeepsFlags(f, s[p..], s[|out|]);
      DecodeKeepsFlags(f, s, p + n, out + bytes);
    }
  }

  lemma UnitKeepsFlags(f: Flags, s: string, stale: char)
    requires s != ""
    ensures Unit(f.(collapse := true), s, stale) == Unit(f.(collapse := false), s, stale)
  {
    hide CharRef, EntityFrom;
  }

  /** Without flags every character stays. */
  lemma {:induction false} DecodeUntouched(f: Flags, s: string, p: nat)
    requires p <= |s| && !f.entities && !f.newlines
    ensures Decode(f, s, p, s[..p]) == s
    decreases |s| - p
  {
    if p < |s| {
      assert s[..p] + [s[p]] == s[..p + 1];
      DecodeUntouched(f, s, p + 1);
    } else {
      assert s[..p] == s;
    }
  }

  /** `strncmp` against a pattern: stops at the first difference, so never passes the terminator. */
  method StartsAt(buf: array<char>, k: nat, pattern: string, ghost t: string) returns (b: bool)
    requires k <= |t| && Shows(buf, t, k) && NUL !in pattern
    ensures b <==> pattern <= t[k..]
  {
    var i := 0;
    while i < |pattern|
      invariant 0 <= i <= |pattern| && k + i <= |t|
      invariant forall j :: 0 <= j < i ==> pattern[j] == t[k..][j]
    {
      if buf[k + i] != pattern[i] {
        assert k + i < |t| ==> t[k..][i] == buf[k + i];
        return false;
      }
      assert pattern[i] in pattern;
      i := i + 1;
    }
    assert pattern == t[k..][..i];
    return true;
  }

  method FindEntity(buf: array<char>, p: nat, ghost t: string) returns (e: Option<nat>)
    requires p < |t| && Shows(buf, t, p)
    ensures e == EntityFrom(t[p..], 0)
  {
    assert t[p..][1..] == t[p + 1..];
    var i := 0;
    while i < |ENTITIES|
      invariant 0 <= i <= |ENTITIES| && EntityFrom(t[p..], i) == EntityFrom(t[p..], 0)
    {
      var found := StartsAt(buf, p + 1, ENTITIES[i].0 + ";", t);
      if found {
        return Some(i);
      }
      i := i + 1;
    }
    return None;
  }

  /** What an ampersand is read as. */
  lemma UnitAmpersand(f: Flags, s: string, stale: char)
    requires f.entities && s != "" && s[0] == '&'
    ensures |s| > 1 && s[1] == '#' ==>
              Unit(f, s, stale) == match CharRef(s) case Literal => (1, "&") case Ref(length, bytes) => (length, bytes)
    ensures !(|s| > 1 && s[1] == '#') ==>
              Unit(f, s, stale) == match EntityFrom(s, 0)
                                   case Some(i) => (|ENTITIES[i].0| + 2, [ENTITIES[i].1])
                                   case None => (1, [stale])
  {
    hide CharRef, EntityFrom, ENTITIES;
  }

  /** The ampersand case of one round: read at p, write at q. */
  method DecodeAmpersand(buf: array<char>, f: Flags, p: nat, q: nat, ghost t: string) returns (p': nat, q': nat)
    requires q <= p < |t| && Shows(buf, t, p)
    requires f.entities && buf[p] == '&'
    modifies buf
    ensures var (n, bytes) := Unit(f, t[p..], old(buf[q]));
            p' == p + n <= |t| && q' == q + |bytes| <= p' && buf[q..q'] == bytes
    ensures forall k :: 0 <= k < buf.Length && !(q <= k < q') ==> buf[k] == old(buf[k])
  {
    hide CharRef, EntityFrom, Unit;
    ghost var s := t[p..];
    assert s[0] == '&' && (buf[p + 1] == '#' <==> |s| > 1 && s[1] == '#');
    UnitAmpersand(f, s, buf[q]);
    if buf[p + 1] == '#' {
      var r := GetCharacterRef(buf, p, t);
      if r.Literal? {
        buf[q] := buf[p];
        p', q' := p + 1, q + 1;
      } else {
        p' := p + r.length;
        forall k | 0 <= k < |r.bytes| {
          buf[q + k] := r.bytes[k];
        }
        q' := q + |r.bytes|;
        assert buf[q..q'] == r.bytes;
      }
    } else {
      var e := FindEntity(buf, p, t);
      if e.Some? {
        buf[q] := ENTITIES[e.value].1;
        p', q' := p + |ENTITIES[e.value].0| + 2, q + 1;
      } else {
        p', q' := p + 1, q + 1;
      }
      assert buf[q..q'] == [buf[q]];
    }
  }

  /** One round of the loop of `GetStr`: read at p, write at q. */
  method DecodeStep(buf: array<char>, f: Flags, p: nat, q: nat, ghost t: string) returns (p': nat, q': nat)
    requires q <= p < |t| && Shows(buf, t, p)
    modifies buf
    ensures var (n, bytes) := Unit(f, t[p..], old(buf[q]));
            p' == p + n <= |t| && q' == q + |bytes| <= p' && buf[q..q'] == bytes
    ensures forall k :: 0 <= k < buf.Length && !(q <= k < q') ==> buf[k] == old(buf[k])
  {
    hide CharRef, EntityFrom;
    if f.newlines && buf[p] == CR {
      p' := if buf[p + 1] == LF then p + 2 else p + 1;
      buf[q] := LF;
      q' := q + 1;
    } else if f.newlines && buf[p] == LF {
      p' := if buf[p + 1] == CR then p + 2 else p + 1;
      buf[q] := LF;
      q' := q + 1;
    } else if f.entities && buf[p] == '&' {
      p', q' := DecodeAmpersand(buf, f, p, q, t);
    } else {
      buf[q] := buf[p];
      p', q' := p + 1, q + 1;
    }
  }

  /** The decoding loop: what was read is always at least what was written. */
  method DecodeInPlace(buf: array<char>, f: Flags, start: nat, end: nat, ghost t: string) returns (q: nat)
    requires start <= end == |t| && Shows(buf, t, start)
    modifies buf
    ensures start <= q <= |t| && buf[q] == NUL
    ensures buf[start..q] == Decode(f, t[start..], 0, "")
    ensures forall k :: 0 <= k < buf.Length && !(start <= k <= q) ==> buf[k] == old(buf[k])
  {
    hide Unit, CharRef, EntityFrom;
    ghost var s := t[start..];
    var p := start;
    q := start;
    ghost var out := "";
    while p < end
      invariant start <= q <= p <= |t| && Shows(buf, t, q)
      invariant buf[start..q] == out && Decode(f, s, p - start, out) == Decode(f, s, 0, "")
      invariant forall k :: 0 <= k < buf.Length && !(start <= k < q) ==> buf[k] == old(buf[k])
      decreases |t| - p
    {
      assert t[p..] == s[p - start..] && buf[q] == s[q - start];
      var p1, q1 := DecodeStep(buf, f, p, q, t);
      ghost var bytes := buf[q..q1];
      assert buf[start..q1] == out + bytes;
      p, q, out := p1, q1, out + bytes;
    }
    buf[q] := NUL;
    assert buf[start..q] == out;
  }

  method SkipInPlace(buf: array<char>, start: nat, ghost t: string) returns (p: nat)
    requires start <= |t| && Shows(buf, t, start)
    ensures start <= p <= |t| && t[p..] == SkipWhiteSpace(t[start..])
    ensures buf[p] == NUL <==> p == |t|
  {
    hide SkipWhiteSpace;
    p := start;
    while IsWhiteSpace(buf[p])
      invariant start <= p <= |t|
      invariant SkipWhiteSpace(t[p..]) == SkipWhiteSpace(t[start..])
      decreases |t| - p
    {
      FirstCharacter(t[p..]);
      assert t[p..][1..] == t[p + 1..];
      p := p + 1;
    }
    if p < |t| {
      FirstCharacter(t[p..]);
    } else {
      NoWords();
    }
  }

  /** A gap becomes one space at q; a trailing one nothing. */
  method SkipGap(buf: array<char>, p: nat, q: nat, ghost t: string) returns (p': nat, q': nat, more: bool)
    requires q <= p < |t| && Shows(buf, t, p) && IsWhiteSpace(t[p])
    modifies buf
    ensures more ==> p < p' < |t| && !IsWhiteSpace(t[p']) && t[p'..] == SkipWhiteSpace(t[p..])
    ensures more ==> q' == q + 1 && buf[q] == ' ' && Shows(buf, t, p')
    ensures !more ==> q' == q && p <= p' <= |t| && Squeeze(t[p..]) == ""
    ensures forall k :: 0 <= k < buf.Length && !(q <= k < q') ==> buf[k] == old(buf[k])
  {
    hide SkipWhiteSpace, Squeeze, IsWhiteSpace;
    FirstCharacter(t[p..]);
    SqueezeGap(t[p..]);
    SkipStops(t[p..]);
    q' := q;
    p' := SkipInPlace(buf, p, t);
    more := buf[p'] != NUL;
    if more {
      buf[q] := ' ';
      q' := q + 1;
    }
  }

  /** One round of `CollapseWhitespace`: read at p, write at q; the end is met in a trailing gap. */
  method CollapseStep(buf: array<char>, p: nat, q: nat, ghost t: string) returns (p': nat, q': nat, more: bool)
    requires q <= p < |t| && Shows(buf, t, p)
    modifies buf
    ensures q <= q' <= p' <= |t|
    ensures more ==> p < p' && Squeeze(t[p..]) == buf[q..q'] + Squeeze(t[p'..])
    ensures !more ==> q' == q && Squeeze(t[p..]) == ""
    ensures forall k :: 0 <= k < buf.Length && !(q <= k < q') ==> buf[k] == old(buf[k])
  {
    hide SkipWhiteSpace, Squeeze, IsWhiteSpace;
    p', q' := p, q;
    FirstCharacter(t[p..]);
    if IsWhiteSpace(buf[p]) {
      p', q', more := SkipGap(buf, p, q, t);
      if !more {
        return;
      }
    }
    CopiedCharacter(t, p, p');
    buf[q'] := buf[p'];
    p', q' := p' + 1, q' + 1;
    if q' == q + 2 {
      assert buf[q..q'] == [' ', t[p' - 1]];
    } else {
      assert buf[q..q'] == [t[p' - 1]];
    }
    more := true;
  }

  /** What one round adds: the next word character, after a space if a gap was skipped. */
  lemma CopiedCharacter(t: string, p: nat, r: nat)
    requires p <= r < |t| && !IsWhiteSpace(t[r]) && t[r..] == SkipWhiteSpace(t[p..])
    ensures Squeeze(t[p..]) == (if IsWhiteSpace(t[p]) then [' ', t[r]] else [t[r]]) + Squeeze(t[r + 1..])
  {
    hide SkipWhiteSpace, Squeeze;
    FirstCharacter(t[p..]);
    FirstCharacter(t[r..]);
    assert t[r..][1..] == t[r + 1..];
    if IsWhiteSpace(t[p]) {
      SqueezeGap(t[p..]);
      assert " " + ([t[r]] + Squeeze(t[r + 1..])) == [' ', t[r]] + Squeeze(t[r + 1..]);
    }
  }

  /** The copying loop of `CollapseWhitespace`. */
  method SqueezeInPlace(buf: array<char>, start: nat, ghost t: string) returns (q: nat)
    requires start <= |t| && Shows(buf, t, start)
    modifies buf
    ensures start <= q <= |t| && buf[q] == NUL && buf[start..q] == Squeeze(t[start..])
    ensures forall k :: 0 <= k < buf.Length && !(start <= k <= q) ==> buf[k] == old(buf[k])
  {
    hide Squeeze;
    var p := start;
    q := start;
    ghost var out := "";
    assert "" + Squeeze(t[p..]) == Squeeze(t[p..]);
    while buf[p] != NUL
      invariant start <= q <= p <= |t| && Shows(buf, t, p)
      invariant buf[start..q] == out && out + Squeeze(t[p..]) == Squeeze(t[start..])
      invariant forall k :: 0 <= k < buf.Length && !(start <= k < q) ==> buf[k] == old(buf[k])
      decreases |t| - p
    {
      var p1, q1, more := CollapseStep(buf, p, q, t);
      ghost var bytes := buf[q..q1];
      assert buf[start..q1] == out + bytes;
      if !more {
        break;
      }
      assert out + (bytes + Squeeze(t[p1..])) == (out + bytes) + Squeeze(t[p1..]);
      p, q, out := p1, q1, out + bytes;
    }
    EmptySqueeze();
    assert p == |t| ==> t[p..] == "";
    assert Squeeze(t[p..]) == "" && out + "" == out;
    buf[q] := NUL;
    assert buf[start..q] == out;
  }

  /** `CollapseWhitespace` on the C string at `start`: returns the moved start. */
  method CollapseInPlace(buf: array<char>, start: nat, ghost t: string) returns (start': nat)
    requires start <= |t| && Shows(buf, t, start)
    modifies buf
    ensures start <= start' <= |t| && Reads(buf[..], start', Collapse(t[start..]), |t|)
    ensures forall k :: 0 <= k < buf.Length && !(start <= k <= |t|) ==> buf[k] == old(buf[k])
  {
    assert NUL !in t[start..];
    start' := SkipInPlace(buf, start, t);
    assert forall c :: c in t[start'..] ==> c in t[start..];
    hide Squeeze;
    SqueezeHasNoNul(t[start'..]);
    var q := SqueezeInPlace(buf, start', t);
    assert buf[..][start'..q] == buf[start'..q];
  }

  lemma EmptySqueeze()
    ensures Squeeze("") == ""
  {
  }

  lemma {:induction false} SqueezeHasNoNul(t: string)
    requires NUL !in t
    ensures NUL !in SkipWhiteSpace(t) && NUL !in Squeeze(t)
    decreases |t|, 1
  {
    if t != "" {
      assert forall c :: c in t[1..] ==> c in t;
      FirstCharacter(t);
      SqueezeHasNoNul(t[1..]);
      if IsWhiteSpace(t[0]) {
        SqueezeGap(t);
        SqueezeHasNoNul(SkipWhiteSpace(t));
      }
    }
  }

  lemma EndsAtNul(s: string, k: nat, i: nat)
    requires k <= i < |s| && s[i] == NUL && NUL !in s[k..i]
    ensures CStringAt(s, k) == s[k..i]
  {
    FirstIndex(s, k, i, NUL);
  }

  /** From k on, s shows the text v and its terminator, up to limit at most. */
  ghost predicate Reads(s: string, k: nat, v: string, limit: nat) {
    k + |v| <= limit < |s| && s[k..k + |v|] == v && s[k + |v|] == NUL && NUL !in v
  }

  lemma ReadsCString(s: string, k: nat, v: string, limit: nat)
    requires Reads(s, k, v, limit)
    ensures CStringAt(s, k) == v
  {
    EndsAtNul(s, k, k + |v|);
  }

  class StrPair {
    const buf: array<char>
    const end: nat
    var start: nat
    var flush: bool
    var flags: Flags

    /** Where the span began and what it denotes. */
    ghost const first: nat
    ghost const value: string

    /** With s in the buffer, the pair is still to denote its value or shows it already. */
    ghost predicate ValidIn(s: string)
      reads this
    {
      && first <= start <= end < |s|
      && if flush then start == first && NUL !in s[first..end] && value == Value(flags, s[first..end])
         else Reads(s, start, value, end)
    }

    ghost predicate Valid()
      reads this, buf
    {
      ValidIn(buf[..])
    }

    /** `Set`: marks a span for decoding on first use. */
    constructor (buf: array<char>, start: nat, end: nat, flags: Flags)
      requires start <= end < buf.Length && NUL !in buf[start..end]
      ensures Valid() && flush && this.buf == buf && first == start && this.end == end
      ensures value == Value(flags, buf[start..end])
    {
      this.buf, this.start, this.end, this.flush, this.flags := buf, start, end, true, flags;
      this.first, this.value := start, Value(flags, buf[start..end]);
      new;
      assert buf[..][start..end] == buf[start..end];
    }

    /**
     `GetStr`: whether it is the first call or not, the value stands at the
     returned place; only the span and its terminator are written.
     */
    method GetStr() returns (at: nat)
      requires Valid()
      modifies this, buf
      ensures Valid() && !flush && at == start && CStringAt(buf[..], at) == value
      ensures forall k :: 0 <= k < buf.Length && !(first <= k <= end) ==> buf[k] == old(buf[k])
      ensures !old(flush) ==> buf[..] == old(buf[..])
    {
      if flush {
        ghost var text := buf[..end];
        assert text[start..] == buf[..][first..end];
        assert forall k :: start <= k < end ==> buf[k] in buf[..][first..end];
        buf[end] := NUL;
        flush := false;
        start := DecodeSpan(buf, flags, start, end, text);
        flags := Flags(false, false, false);
      }
      at := start;
      ReadsCString(buf[..], at, value, end);
    }
  }

  /** The first read of a span: decode, then collapse. */
  method DecodeSpan(buf: array<char>, flags: Flags, start: nat, end: nat, ghost text: string) returns (start': nat)
    requires start <= end == |text| && Shows(buf, text, start)
    modifies buf
    ensures start <= start' && Reads(buf[..], start', Value(flags, text[start..]), end)
    ensures forall k :: 0 <= k < buf.Length && !(start <= k <= end) ==> buf[k] == old(buf[k])
  {
    hide Decode, Collapse;
    start' := start;
    if flags.entities || flags.newlines || flags.collapse {
      var q := DecodeInPlace(buf, flags, start, end, text);
      ghost var decoded := Decode(flags, text[start..], 0, "");
      ghost var t := CStringAt(decoded, 0);
      DecodedText(buf[..], start, q, decoded);
      if flags.collapse {
        ghost var shown := buf[..start + |t|];
        ShowsText(buf, start, t);
        start' := CollapseInPlace(buf, start, shown);
      }
    } else {
      assert buf[..][start..end] == text[start..];
      assert NUL !in text[start..];
    }
  }

  lemma ShowsText(buf: array<char>, start: nat, t: string)
    requires Reads(buf[..], start, t, start + |t|)
    ensures buf[..start + |t|][start..] == t && Shows(buf, buf[..start + |t|], start)
  {
    var s := buf[..start + |t|];
    assert s[start..] == t;
    assert forall i :: start <= i < |s| ==> s[i] == t[i - start];
  }

  /** The C string left by decoding ends at the first NUL a reference produced, if any. */
  lemma DecodedText(s: string, k: nat, q: nat, decoded: string)
    requires k <= q < |s| && s[k..q] == decoded && s[q] == NUL
    ensures Reads(s, k, CStringAt(decoded, 0), q)
  {
    var n := IndexOf(decoded, 0, NUL);
    assert decoded[0..n] == s[k..k + n];
    assert n < |decoded| ==> s[k + n] == decoded[n];
  }
}
