/**
 The string work under `native/mars/comm/http.cc`: bounded search in a buffer,
 trimming and splitting (`native/mars/comm/strutil.h`, `strutil.cc`) and the C
 library's number conversions.
 */
module HttpText {

  import opened Options
  import opened Strings

  const CRLF: string := "\r\n"
  const BLANK: string := "\r\n\r\n"

  // ----- searching a buffer -----

  /** The buffer as `strnlen` sees it. */
  function CPart(s: string): string { s[..IndexOf(s, 0, NUL)] }

  /** `string_strnstr`: the first occurrence before any NUL. */
  function StrnStr(s: string, pat: string): (r: Option<nat>)
    requires pat != ""
    ensures r.Some? ==> r.value + |pat| <= |s|
  {
    var i := FindTag(CPart(s), pat, 0);
    if i == |CPart(s)| then None else Some(i)
  }

  predicate At(s: string, pat: string, i: nat) { i + |pat| <= |s| && s[i..i + |pat|] == pat }

  /** pat occurs at i, not earlier, and no NUL comes before its end. */
  ghost predicate FirstAt(s: string, pat: string, i: nat) {
    At(s, pat, i) && (forall j :: 0 <= j < i ==> !At(s, pat, j)) && NUL !in s[..i + |pat|]
  }

  lemma PrefixIsAt(s: string, pat: string, k: nat)
    requires k <= |s|
    ensures pat <= s[k..] <==> At(s, pat, k)
  {
    if k + |pat| <= |s| {
      assert s[k..][..|pat|] == s[k..k + |pat|];
    }
  }

  lemma {:induction false} FindTagIsFirst(s: string, pat: string, k: nat)
    requires pat != "" && k <= |s|
    ensures var i := FindTag(s, pat, k);
            (i < |s| ==> At(s, pat, i)) && forall j :: k <= j < i ==> !At(s, pat, j)
    decreases |s| - k
  {
    hide At, FindTag;
    PrefixIsAt(s, pat, k);
    FindTagStep(s, pat, k);
    if k < |s| && !At(s, pat, k) {
      FindTagIsFirst(s, pat, k + 1);
    }
  }

  lemma FindTagStep(s: string, pat: string, k: nat)
    requires k <= |s|
    ensures FindTag(s, pat, k) == if k == |s| || pat <= s[k..] then k else FindTag(s, pat, k + 1)
  {
  }

  /** The search result is the first occurrence, and any first occurrence is the result. */
  lemma StrnStrIsFirst(s: string, pat: string, i: nat)
    requires pat != "" && NUL !in pat
    ensures StrnStr(s, pat) == Some(i) <==> FirstAt(s, pat, i)
  {
    var c := CPart(s);
    FindTagIsFirst(c, pat, 0);
    CPartHasNoNul(s);
    forall j: nat
      ensures At(c, pat, j) ==> At(s, pat, j)
      ensures At(s, pat, j) && j + |pat| <= |c| ==> At(c, pat, j)
    {
      assert j + |pat| <= |c| ==> c[j..j + |pat|] == s[j..j + |pat|];
    }
    if FirstAt(s, pat, i) {
      CPartReaches(s, i + |pat|);
      assert At(c, pat, i);
    }
    if StrnStr(s, pat) == Some(i) {
      assert s[..i + |pat|] == c[..i + |pat|];
    }
  }

  lemma CPartHasNoNul(s: string)
    ensures NUL !in CPart(s)
  {
    assert CPart(s) == s[0..IndexOf(s, 0, NUL)];
  }

  lemma CPartReaches(s: string, n: nat)
    requires n <= |s| && NUL !in s[..n]
    ensures n <= |CPart(s)|
  {
    var i := IndexOf(s, 0, NUL);
    assert i < |s| ==> s[i] == NUL;
    assert forall k :: 0 <= k < n ==> s[k] == s[..n][k] != NUL;
  }

  lemma AtPrefix(s: string, more: string, pat: string, j: nat)
    requires j + |pat| <= |s|
    ensures At(s + more, pat, j) <==> At(s, pat, j)
  {
    assert (s + more)[j..j + |pat|] == s[j..j + |pat|];
  }

  /** More bytes behind do not change what was found. */
  lemma FoundIsStable(s: string, more: string, pat: string)
    requires pat != "" && NUL !in pat && StrnStr(s, pat).Some?
    ensures StrnStr(s + more, pat) == StrnStr(s, pat)
  {
    var i := StrnStr(s, pat).value;
    StrnStrIsFirst(s, pat, i);
    forall j | 0 <= j <= i
      ensures At(s + more, pat, j) <==> At(s, pat, j)
    {
      AtPrefix(s, more, pat, j);
    }
    assert (s + more)[..i + |pat|] == s[..i + |pat|];
    StrnStrIsFirst(s + more, pat, i);
  }

  /** What has not arrived completely is not found. */
  lemma NotYetFound(t: string, pat: string, i: nat, n: nat)
    requires pat != "" && NUL !in pat && FirstAt(t, pat, i) && n < i + |pat|
    ensures StrnStr(t[..n], pat) == None
  {
    var s := t[..n];
    assert t == s + t[n..];
    var j := match StrnStr(s, pat) case Some(j) => j case None => 0;
    if StrnStr(s, pat) == Some(j) {
      FoundIsStable(s, t[n..], pat);
      StrnStrIsFirst(t, pat, i);
    }
  }

  // ----- trimming -----

  function TrimLeft(s: string): (r: string)
    ensures |r| <= |s|
  {
    if s == "" || !IsWhiteSpace(s[0]) then s else TrimLeft(s[1..])
  }

  function TrimRight(s: string): (r: string)
    ensures |r| <= |s|
  {
    if s == "" || !IsWhiteSpace(s[|s| - 1]) then s else TrimRight(s[..|s| - 1])
  }

  function Trim(s: string): string { TrimRight(TrimLeft(s)) }

  predicate Trimmed(s: string) {
    s == "" || (!IsWhiteSpace(s[0]) && !IsWhiteSpace(s[|s| - 1]))
  }

  lemma TrimOfTrimmed(s: string)
    requires Trimmed(s)
    ensures Trim(s) == s && Trim(" " + s) == s
  {
    assert (" " + s)[1..] == s;
  }

  /** Whitespace on either side is dropped, and nothing else. */
  lemma {:induction false} TrimGaps(a: string, s: string, b: string)
    requires IsGap(a) && IsGap(b) && Trimmed(s)
    ensures Trim(a + (s + b)) == s
    decreases |a| + |b|
  {
    if a != "" {
      assert (a + (s + b))[1..] == a[1..] + (s + b) && a[0] in a;
      assert forall c :: c in a[1..] ==> c in a;
      TrimGaps(a[1..], s, b);
    } else {
      assert a + (s + b) == s + b;
      if s == "" {
        assert s + b == b;
        GapIsTrimmed(b);
      } else {
        assert (s + b)[0] == s[0];
        TrimEnd(s, b);
      }
    }
  }

  lemma {:induction false} GapIsTrimmed(b: string)
    requires IsGap(b)
    ensures TrimLeft(b) == ""
  {
    if b != "" {
      assert b[0] in b && forall c :: c in b[1..] ==> c in b;
      GapIsTrimmed(b[1..]);
    }
  }

  lemma {:induction false} TrimEnd(s: string, b: string)
    requires IsGap(b) && Trimmed(s)
    ensures TrimRight(s + b) == s
    decreases |b|
  {
    if b == "" {
      assert s + b == s;
    } else {
      var n := |b| - 1;
      assert (s + b)[..|s + b| - 1] == s + b[..n] && b[n] in b;
      assert forall c :: c in b[..n] ==> c in b;
      TrimEnd(s, b[..n]);
    }
  }

  // ----- tokens -----

  /** `Tokenizer` with a single delimiter: the maximal runs of other characters. */
  function Tokens(s: string, d: char): seq<string>
    decreases |s|
  {
    if s == "" then []
    else if s[0] == d then Tokens(s[1..], d)
    else
      var j := IndexOf(s, 0, d);
      [s[..j]] + Tokens(s[j..], d)
  }

  /** `MergeToken` with a single-character delimiter. */
  function Merge(ts: seq<string>, d: char): string {
    if ts == [] then "" else if |ts| == 1 then ts[0] else ts[0] + ([d] + Merge(ts[1..], d))
  }

  predicate IsToken(t: string, d: char) { t != "" && d !in t }

  lemma FirstToken(t: string, rest: string, d: char)
    requires IsToken(t, d) && (rest == "" || rest[0] == d)
    ensures Tokens(t + rest, d) == [t] + Tokens(rest, d)
  {
    var s := t + rest;
    assert s[0] in t;
    if rest == "" {
      assert s == t && t[0..] == t;
      NoIndex(s, 0, d);
      assert s[..|s|] == t && s[|s|..] == "";
    } else {
      assert s[0..|t|] == t;
      FirstIndex(s, 0, |t|, d);
      assert s[..|t|] == t && s[|t|..] == rest;
    }
  }

  /** Splitting inverts merging of nonempty tokens free of the delimiter. */
  lemma {:induction false} SplitMerge(ts: seq<string>, d: char)
    requires forall t :: t in ts ==> IsToken(t, d)
    ensures Tokens(Merge(ts, d), d) == ts
    decreases |ts|
  {
    if ts == [] {
    } else if |ts| == 1 {
      assert ts[0] + "" == ts[0];
      FirstToken(ts[0], "", d);
    } else {
      var rest := [d] + Merge(ts[1..], d);
      FirstToken(ts[0], rest, d);
      assert rest[1..] == Merge(ts[1..], d);
      SplitMerge(ts[1..], d);
    }
  }

  /** No token is empty or holds the delimiter, and nothing but delimiters is lost. */
  lemma {:induction false} TokensAreTokens(s: string, d: char)
    ensures forall t :: t in Tokens(s, d) ==> IsToken(t, d)
    ensures Concat(Tokens(s, d)) == Without(s, d)
    decreases |s|
  {
    if s == "" {
    } else if s[0] == d {
      TokensAreTokens(s[1..], d);
    } else {
      var j := IndexOf(s, 0, d);
      assert s[..j] == s[0..j];
      TokensAreTokens(s[j..], d);
      WithoutConcat(s[..j], s[j..], d);
      assert s[..j] + s[j..] == s;
      WithoutNothing(s[..j], d);
    }
  }

  /** A delimiter between two texts only separates their tokens. */
  lemma {:induction false} TokensApart(x: string, y: string, d: char)
    ensures Tokens(x + ([d] + y), d) == Tokens(x, d) + Tokens(y, d)
    decreases |x|
  {
    var s := x + ([d] + y);
    if x == "" {
      assert s[1..] == y && [] + Tokens(y, d) == Tokens(y, d);
    } else if x[0] == d {
      assert s[1..] == x[1..] + ([d] + y);
      TokensApart(x[1..], y, d);
    } else {
      var j := IndexOf(x, 0, d);
      var t, rest := x[..j], x[j..] + ([d] + y);
      assert s == t + rest && x == t + x[j..] && t == x[0..j];
      assert rest[0] == d;
      FirstToken(t, rest, d);
      FirstToken(t, x[j..], d);
      TokensApart(x[j..], y, d);
    }
  }

  function Concat(ts: seq<string>): string {
    if ts == [] then "" else ts[0] + Concat(ts[1..])
  }

  function Without(s: string, d: char): string {
    if s == "" then "" else (if s[0] == d then "" else [s[0]]) + Without(s[1..], d)
  }

  lemma {:induction false} WithoutConcat(x: string, y: string, d: char)
    ensures Without(x + y, d) == Without(x, d) + Without(y, d)
  {
    if x == "" {
      assert x + y == y;
    } else {
      assert (x + y)[1..] == x[1..] + y;
      WithoutConcat(x[1..], y, d);
    }
  }

  lemma {:induction false} WithoutNothing(x: string, d: char)
    requires d !in x
    ensures Without(x, d) == x
  {
    if x != "" {
      assert x[0] in x && forall c :: c in x[1..] ==> c in x;
      WithoutNothing(x[1..], d);
      assert x == [x[0]] + x[1..];
    }
  }

  // ----- numbers -----

  function DigitChar(d: nat): char
    requires d < 16
  {
    if d < 10 then '0' + d as char else 'a' + (d - 10) as char
  }

  function DigitValue(c: char, base: nat): (d: Option<nat>)
    ensures d.Some? ==> d.value < base
  {
    var v := if '0' <= c <= '9' then c as int - '0' as int
             else if 'a' <= c <= 'z' then c as int - 'a' as int + 10
             else if 'A' <= c <= 'Z' then c as int - 'A' as int + 10
             else base;
    if v < base then Some(v) else None
  }

  /** Positional notation without leading zeros, as `printf` writes it. */
  function Numeral(n: nat, base: nat): (s: string)
    requires 2 <= base <= 16
    ensures s != ""
    decreases n
  {
    if n < base then [DigitChar(n)] else
      QuotientSmaller(n, base);
      Numeral(n / base, base) + [DigitChar(n % base)]
  }

  /** The value of the longest run of digits, continuing from acc. */
  function DigitsValue(s: string, base: nat, acc: nat): nat
  {
    if s == "" || DigitValue(s[0], base).None? then acc
    else DigitsValue(s[1..], base, acc * base + DigitValue(s[0], base).value)
  }

  const ULLONG_MAX: nat := 0xFFFF_FFFF_FFFF_FFFF

  /** What `strtoull` and `strtol` skip before the digits: spaces, a sign, "0x" in base 16. */
  function Digits(s: string, base: nat): (bool, string) {
    var t := TrimLeft(s);
    var negative := t != "" && t[0] == '-';
    var u := if t != "" && (t[0] == '-' || t[0] == '+') then t[1..] else t;
    var v := if base == 16 && |u| > 2 && u[0] == '0' && (u[1] == 'x' || u[1] == 'X') && DigitValue(u[2], 16).Some?
             then u[2..] else u;
    (negative, v)
  }

  function Strtoull(s: string, base: nat): (n: nat)
    ensures n <= ULLONG_MAX
  {
    var (negative, digits) := Digits(s, base);
    var v := DigitsValue(digits, base, 0);
    if v > ULLONG_MAX then ULLONG_MAX
    else if negative then (ULLONG_MAX + 1 - v) % (ULLONG_MAX + 1) else v
  }

  // ----- numbers as people write them -----

  const SMALL_DIGITS: string := "0123456789abcdef"
  const CAPITAL_DIGITS: string := "0123456789ABCDEF"

  /** The number with these digits, most significant first. */
  function Positional(ds: seq<nat>, base: nat): nat {
    if ds == [] then 0 else Positional(ds[..|ds| - 1], base) * base + ds[|ds| - 1]
  }

  /** s spells these digits, in either case. */
  predicate Spells(s: string, ds: seq<nat>, base: nat)
    requires base <= 16
  {
    && |s| == |ds|
    && forall i :: 0 <= i < |ds| ==>
         ds[i] < base && (s[i] == SMALL_DIGITS[ds[i]] || s[i] == CAPITAL_DIGITS[ds[i]])
  }

  lemma DigitsInOrder(d: nat, base: nat)
    requires d < base <= 16
    ensures DigitValue(SMALL_DIGITS[d], base) == Some(d) && DigitValue(CAPITAL_DIGITS[d], base) == Some(d)
    ensures !IsWhiteSpace(SMALL_DIGITS[d]) && !IsWhiteSpace(CAPITAL_DIGITS[d])
  {
  }

  lemma {:induction false} SpelledValue(s: string, ds: seq<nat>, base: nat, rest: string)
    requires base <= 16 && Spells(s, ds, base)
    ensures DigitsValue(s + rest, base, 0) == DigitsValue(rest, base, Positional(ds, base))
    decreases |s|
  {
    hide SMALL_DIGITS, CAPITAL_DIGITS, DigitValue;
    if s == "" {
      assert s + rest == rest;
    } else {
      var n := |s| - 1;
      SpelledValue(s[..n], ds[..n], base, [s[n]] + rest);
      DigitsInOrder(ds[n], base);
      assert s + rest == s[..n] + ([s[n]] + rest) && ([s[n]] + rest)[1..] == rest;
    }
  }

  lemma {:induction false} GapBefore(gap: string, t: string)
    requires IsGap(gap) && t != "" && !IsWhiteSpace(t[0])
    ensures TrimLeft(gap + t) == t
  {
    if gap == "" {
      assert gap + t == t;
    } else {
      assert (gap + t)[1..] == gap[1..] + t && gap[0] in gap && forall c :: c in gap[1..] ==> c in gap;
      GapBefore(gap[1..], t);
    }
  }

  /** No digit in this base; in base 16 no 'x' either. */
  predicate NoMoreDigits(rest: string, base: nat) {
    rest == "" || (DigitValue(rest[0], base).None? && rest[0] != 'x' && rest[0] != 'X')
  }

  lemma NotADigit(c: char, d: nat, base: nat)
    requires d < base <= 16
    requires c == SMALL_DIGITS[d] || c == CAPITAL_DIGITS[d]
    ensures c != '-' && c != '+' && c != 'x' && c != 'X' && !IsWhiteSpace(c)
  {
  }

  /**
   A number in decimal or hexadecimal digits of either case, with any leading
   zeros and whitespace in front, is read as its value, up to the largest.
   */
  lemma SpelledNumber(gap: string, s: string, ds: seq<nat>, base: nat, rest: string)
    requires (base == 10 || base == 16) && IsGap(gap) && s != "" && Spells(s, ds, base) && NoMoreDigits(rest, base)
    ensures var n := Positional(ds, base);
            Strtoull(gap + (s + rest), base) == if n > ULLONG_MAX then ULLONG_MAX else n
  {
    hide SMALL_DIGITS, CAPITAL_DIGITS, DigitValue, TrimLeft, DigitsValue, Positional;
    var t := s + rest;
    NotADigit(s[0], ds[0], base);
    if |s| > 1 {
      NotADigit(s[1], ds[1], base);
    }
    assert t[0] == s[0] && (|s| > 1 ==> t[1] == s[1]) && (|s| == 1 && rest != "" ==> t[1] == rest[0]);
    GapBefore(gap, t);
    SpelledValue(s, ds, base, rest);
    NoDigits(rest, base, Positional(ds, base));
  }

  /** A sign or "0x" in front: a minus wraps round. */
  lemma SignedNumber(gap: string, s: string, ds: seq<nat>, base: nat, rest: string)
    requires (base == 10 || base == 16) && IsGap(gap) && s != "" && Spells(s, ds, base) && NoMoreDigits(rest, base)
    ensures var n := Positional(ds, base);
            n <= ULLONG_MAX ==>
              && Strtoull(gap + ("+" + (s + rest)), base) == n
              && Strtoull(gap + ("-" + (s + rest)), base) == (if n == 0 then 0 else 0x1_0000_0000_0000_0000 - n)
              && (base == 16 ==> Strtoull(gap + ("0x" + (s + rest)), base) == n)
              && (base == 16 ==> Strtoull(gap + ("0X" + (s + rest)), base) == n)
  {
    hide SMALL_DIGITS, CAPITAL_DIGITS, Digits, DigitsValue, Positional, DigitValue;
    var t := s + rest;
    NotADigit(s[0], ds[0], base);
    DigitsInOrder(ds[0], base);
    if |s| > 1 {
      NotADigit(s[1], ds[1], base);
    }
    assert t[0] == s[0] && (|s| > 1 ==> t[1] == s[1]) && (|s| == 1 && rest != "" ==> t[1] == rest[0]);
    SpelledValue(s, ds, base, rest);
    NoDigits(rest, base, Positional(ds, base));
    SignRead(gap, t, base);
    if base == 16 {
      PrefixRead(gap, t);
    }
  }

  lemma SignRead(gap: string, t: string, base: nat)
    requires IsGap(gap) && t != "" && (|t| > 1 ==> t[1] != 'x' && t[1] != 'X')
    ensures Digits(gap + ("+" + t), base) == (false, t) && Digits(gap + ("-" + t), base) == (true, t)
  {
    hide TrimLeft, DigitValue;
    GapBefore(gap, "+" + t);
    GapBefore(gap, "-" + t);
    assert ("+" + t)[1..] == t && ("-" + t)[1..] == t;
  }

  lemma PrefixRead(gap: string, t: string)
    requires IsGap(gap) && t != "" && DigitValue(t[0], 16).Some?
    ensures Digits(gap + ("0x" + t), 16) == (false, t) && Digits(gap + ("0X" + t), 16) == (false, t)
  {
    hide TrimLeft, DigitValue;
    GapBefore(gap, "0x" + t);
    GapBefore(gap, "0X" + t);
    assert ("0x" + t)[2..] == t && ("0X" + t)[2..] == t;
  }

  lemma NoDigits(rest: string, base: nat, acc: nat)
    requires rest == "" || DigitValue(rest[0], base).None?
    ensures DigitsValue(rest, base, acc) == acc
  {
  }

  /** The cast of a `long` result to `int`. */
  function Strtol(s: string): int {
    var (negative, digits) := Digits(s, 10);
    var v: int := DigitsValue(digits, 10, 0);
    var l: int := if negative then (if v > 0x8000_0000_0000_0000 then -0x8000_0000_0000_0000 else -v)
             else if v > 0x7FFF_FFFF_FFFF_FFFF then 0x7FFF_FFFF_FFFF_FFFF else v;
    (l + 0x8000_0000) % 0x1_0000_0000 - 0x8000_0000
  }

  /** `printf` of an int. */
  function Decimal(n: int): string {
    if n < 0 then "-" + Numeral(-n, 10) else Numeral(n, 10)
  }

  predicate NoDigitAhead(rest: string, base: nat) { rest == "" || DigitValue(rest[0], base).None? }

  lemma DigitRoundTrip(d: nat, base: nat)
    requires d < base <= 16
    ensures DigitValue(DigitChar(d), base) == Some(d)
    ensures !IsWhiteSpace(DigitChar(d)) && DigitChar(d) != '-' && DigitChar(d) != '+'
    ensures d > 0 ==> DigitChar(d) != '0'
  {
  }

  lemma {:induction false} NumeralValue(n: nat, base: nat, rest: string)
    requires 2 <= base <= 16
    ensures DigitsValue(Numeral(n, base) + rest, base, 0) == DigitsValue(rest, base, n)
    decreases n
  {
    var d := DigitChar(n % base);
    DigitRoundTrip(n % base, base);
    assert ([d] + rest)[1..] == rest;
    if n >= base {
      QuotientSmaller(n, base);
      NumeralValue(n / base, base, [d] + rest);
      assert Numeral(n, base) + rest == Numeral(n / base, base) + ([d] + rest);
    }
  }

  lemma QuotientSmaller(n: nat, base: nat)
    requires 2 <= base <= n
    ensures n / base < n && n / base * base + n % base == n
  {
  }

  lemma {:induction false} NumeralStart(n: nat, base: nat)
    requires 2 <= base <= 16
    ensures DigitValue(Numeral(n, base)[0], base).Some?
    ensures n > 0 ==> Numeral(n, base)[0] != '0'
    decreases n
  {
    hide DigitValue, DigitChar, Numeral;
    DigitRoundTrip(n % base, base);
    NumeralDigits(n, base);
    if n >= base {
      QuotientSmaller(n, base);
      NumeralStart(n / base, base);
      assert n / base > 0;
      assert Numeral(n, base)[0] == Numeral(n / base, base)[0];
    } else {
      assert n % base == n;
    }
  }

  lemma NumeralDigits(n: nat, base: nat)
    requires 2 <= base <= 16
    ensures n < base ==> Numeral(n, base) == [DigitChar(n)]
    ensures n >= base ==> n / base < n && Numeral(n, base) == Numeral(n / base, base) + [DigitChar(n % base)]
  {
    if n >= base {
      QuotientSmaller(n, base);
    }
  }

  /** Reading back a printed number, whatever non-digit follows. */
  lemma StrtoullRoundTrip(n: nat, base: nat, rest: string)
    requires (base == 10 || base == 16) && n <= ULLONG_MAX && NoDigitAhead(rest, base)
    requires base == 16 ==> rest == "" || (rest[0] != 'x' && rest[0] != 'X')
    ensures Strtoull(Numeral(n, base) + rest, base) == n
  {
    var s := Numeral(n, base) + rest;
    NumeralStart(n, base);
    assert s[0] == Numeral(n, base)[0];
    assert TrimLeft(s) == s;
    if n == 0 {
      assert s == "0" + rest;
    }
    NumeralValue(n, base, rest);
  }

  lemma StrtolRoundTrip(n: int)
    requires -0x8000_0000 <= n < 0x8000_0000
    ensures Strtol(Decimal(n)) == n
  {
    var m: nat := if n < 0 then -n else n;
    var s := Decimal(n);
    NumeralStart(m, 10);
    NumeralValue(m, 10, "");
    assert Numeral(m, 10) + "" == Numeral(m, 10);
    assert TrimLeft(s) == s;
    assert n < 0 ==> s[1..] == Numeral(m, 10);
  }
}
