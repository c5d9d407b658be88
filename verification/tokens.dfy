/** `char_separator` of `native/mars/boost/token_functions.hpp`. */
module CharSeparators {

  import opened Sequences

  /** The characters kept as tokens and those dropped; a character in both is kept. */
  datatype Delims = Delims(kept: set<char>, dropped: set<char>)

  predicate IsDelim(d: Delims, c: char) { c in d.kept || c in d.dropped }

  /** From k on, the first delimiter or the end. */
  function FieldEnd(d: Delims, s: string, k: nat): (i: nat)
    requires k <= |s|
    ensures k <= i <= |s|
    decreases |s| - k
  {
    if k == |s| || IsDelim(d, s[k]) then k else FieldEnd(d, s, k + 1)
  }

  function SkipDropped(d: Delims, s: string, k: nat): (i: nat)
    requires k <= |s|
    ensures k <= i <= |s|
    decreases |s| - k
  {
    if k == |s| || s[k] !in d.dropped then k else SkipDropped(d, s, k + 1)
  }

  /** One call: nothing more, or a token, where to go on, and the flag after it. */
  datatype Call = NoMore | Token(tok: string, next: nat, done: bool)

  /** One call that keeps empty tokens; done says that the field before the next delimiter has been given out. */
  function KeepingCall(d: Delims, s: string, k: nat, done: bool): (r: Call)
    requires k <= |s|
    ensures r.Token? ==> k <= r.next <= |s|
  {
    if k == |s| then (if done then NoMore else Token("", k, true))
    else if s[k] in d.kept then (if done then Token([s[k]], k + 1, false) else Token("", k, true))
    else if !done && s[k] in d.dropped then Token("", k, true)
    else
      var start := if s[k] in d.dropped then k + 1 else k;
      var end := FieldEnd(d, s, start);
      Token(s[start..end], end, true)
  }

  /** One call that drops empty tokens. */
  function DroppingCall(d: Delims, s: string, k: nat, done: bool): (r: Call)
    requires k <= |s|
    ensures r.Token? ==> k < r.next <= |s|
  {
    var start := SkipDropped(d, s, k);
    if start == |s| then NoMore
    else if s[start] in d.kept then Token([s[start]], start + 1, done)
    else
      SkippedDropped(d, s, k);
      var end := FieldEnd(d, s, start);
      Token(s[start..end], end, done)
  }

  lemma {:induction false} SkippedDropped(d: Delims, s: string, k: nat)
    requires k <= |s|
    ensures var i := SkipDropped(d, s, k); i < |s| ==> s[i] !in d.dropped
    decreases |s| - k
  {
    if k < |s| && s[k] in d.dropped {
      SkippedDropped(d, s, k + 1);
    }
  }

  class CharSeparator {
    const delims: Delims
    const keepEmpty: bool
    var outputDone: bool

    constructor (delims: Delims, keepEmpty: bool)
      ensures this.delims == delims && this.keepEmpty == keepEmpty && !outputDone
    {
      this.delims, this.keepEmpty, outputDone := delims, keepEmpty, false;
    }

    /** `reset`, called before a run, is empty. */
    method Reset()
      ensures outputDone == old(outputDone)
    {
    }

    function Spec(s: string, k: nat): Call
      requires k <= |s|
      reads this
    {
      if keepEmpty then KeepingCall(delims, s, k, outputDone) else DroppingCall(delims, s, k, outputDone)
    }

    method Next(s: string, from: nat) returns (found: bool, tok: string, next: nat)
      requires from <= |s|
      modifies this
      ensures old(Spec(s, from)) == if found then Token(tok, next, outputDone) else NoMore
      ensures !found ==> outputDone == old(outputDone)
    {
      next := from;
      if !keepEmpty {
        while next < |s| && s[next] in delims.dropped
          invariant from <= next <= |s| && SkipDropped(delims, s, next) == SkipDropped(delims, s, from)
        {
          next := next + 1;
        }
      }
      var start := next;
      if !keepEmpty {
        if next == |s| { return false, "", next; }
        if s[next] in delims.kept {
          next := next + 1;
        } else {
          next := ScanField(s, next);
        }
      } else {
        if next == |s| {
          if outputDone { return false, "", next; }
          outputDone := true;
          return true, "", next;
        }
        if s[next] in delims.kept {
          if !outputDone {
            outputDone := true;
          } else {
            next := next + 1;
            outputDone := false;
          }
        } else if !outputDone && s[next] in delims.dropped {
          outputDone := true;
        } else {
          if s[next] in delims.dropped {
            next := next + 1;
            start := next;
          }
          next := ScanField(s, next);
          outputDone := true;
        }
      }
      return true, s[start..next], next;
    }

    method ScanField(s: string, from: nat) returns (next: nat)
      requires from <= |s|
      ensures next == FieldEnd(delims, s, from)
    {
      next := from;
      while next < |s| && s[next] !in delims.dropped && s[next] !in delims.kept
        invariant from <= next <= |s| && FieldEnd(delims, s, next) == FieldEnd(delims, s, from)
      {
        next := next + 1;
      }
    }
  }

  /** All tokens, call after call. */
  function KeepingRun(d: Delims, s: string, k: nat, done: bool): seq<string>
    requires k <= |s|
    decreases |s| - k, !done
  {
    match KeepingCall(d, s, k, done)
    case NoMore => []
    case Token(tok, next, after) =>
      KeepingProgress(d, s, k, done);
      [tok] + KeepingRun(d, s, next, after)
  }

  function DroppingRun(d: Delims, s: string, k: nat): seq<string>
    requires k <= |s|
    decreases |s| - k
  {
    match DroppingCall(d, s, k, false)
    case NoMore => []
    case Token(tok, next, _) => [tok] + DroppingRun(d, s, next)
  }

  /** Every token either takes input or settles the flag, so the calls come to an end. */
  lemma KeepingProgress(d: Delims, s: string, k: nat, done: bool)
    requires k <= |s| && KeepingCall(d, s, k, done).Token?
    ensures var r := KeepingCall(d, s, k, done); r.next > k || (r.next == k && !done && r.done)
  {
    if k < |s| && !IsDelim(d, s[k]) {
      assert FieldEnd(d, s, k) == FieldEnd(d, s, k + 1);
    }
  }

  /** All tokens of a separator of either mode. */
  function AllTokens(keepEmpty: bool, d: Delims, s: string, k: nat, done: bool): seq<string>
    requires k <= |s|
  {
    if keepEmpty then KeepingRun(d, s, k, done) else DroppingRun(d, s, k)
  }

  lemma RunStep(keepEmpty: bool, d: Delims, s: string, k: nat, done: bool)
    requires k <= |s|
    ensures var r := if keepEmpty then KeepingCall(d, s, k, done) else DroppingCall(d, s, k, done);
            if r.NoMore? then AllTokens(keepEmpty, d, s, k, done) == [] && (keepEmpty ==> done)
            else
              AllTokens(keepEmpty, d, s, k, done) == [r.tok] + AllTokens(keepEmpty, d, s, r.next, r.done)
              && (r.next > k || (r.next == k && !done && r.done)) && (keepEmpty || r.done == done)
  {
    if keepEmpty {
      if KeepingCall(d, s, k, done).Token? {
        KeepingProgress(d, s, k, done);
      } else {
        EndSetsFlag(d, s, k, done);
      }
    }
  }

  /**
   A run over a text: the calls of a separator, one after the other. The last
   one leaves the flag set if empty tokens are kept.
   */
  method Run(separator: CharSeparator, s: string) returns (ts: seq<string>)
    modifies separator
    ensures ts == AllTokens(separator.keepEmpty, separator.delims, s, 0, old(separator.outputDone))
    ensures separator.outputDone == (separator.keepEmpty || old(separator.outputDone))
  {
    hide KeepingCall, DroppingCall, AllTokens;
    ghost var keepEmpty, d, start := separator.keepEmpty, separator.delims, separator.outputDone;
    separator.Reset();
    ts := [];
    var k := 0;
    var found := true;
    while found
      invariant k <= |s| && (keepEmpty || separator.outputDone == start)
      invariant found ==>
                  AllTokens(keepEmpty, d, s, 0, start) == ts + AllTokens(keepEmpty, d, s, k, separator.outputDone)
      invariant !found ==> AllTokens(keepEmpty, d, s, 0, start) == ts && (keepEmpty ==> separator.outputDone)
      decreases found, |s| - k, !separator.outputDone
    {
      var tok, next;
      RunStep(keepEmpty, d, s, k, separator.outputDone);
      found, tok, next := separator.Next(s, k);
      if found {
        Reassociate(ts, [tok], AllTokens(keepEmpty, d, s, next, separator.outputDone));
        ts := ts + [tok];
        k := next;
      }
    }
  }

  lemma EndSetsFlag(d: Delims, s: string, k: nat, done: bool)
    requires k <= |s| && KeepingCall(d, s, k, done) == NoMore
    ensures done
  {
  }

  /** The tokens of a fresh separator. */
  method Tokenize(d: Delims, s: string) returns (ts: seq<string>)
    ensures ts == Split(d, s)
  {
    hide KeepingRun, Split;
    var separator := new CharSeparator(d, true);
    ts := Run(separator, s);
    FreshRunSplits(d, s);
  }

  /**
   Two runs of one separator: the second one loses its first field exactly if
   that is empty, whatever the first one read.
   */
  method TokenizeTwice(d: Delims, s: string, t: string) returns (first: seq<string>, second: seq<string>)
    ensures first == Split(d, s)
    ensures second == if t == "" || IsDelim(d, t[0]) then Split(d, t)[1..] else Split(d, t)
    ensures second == Split(d, t) <==> t != "" && !IsDelim(d, t[0])
  {
    hide KeepingRun, Split;
    var separator := new CharSeparator(d, true);
    first := Run(separator, s);
    second := Run(separator, t);
    FreshRunSplits(d, s);
    UsedRunLosesEmptyField(d, t);
    SplitIs(d, t);
  }

  // ----- what the tokens are -----

  /** The fields between delimiters, empty ones included, with the kept delimiters among them. */
  function Split(d: Delims, s: string): seq<string>
    decreases |s|, 1
  {
    [s[..FieldEnd(d, s, 0)]] + AfterField(d, s, FieldEnd(d, s, 0))
  }

  /** What follows a field that ends at i. */
  function AfterField(d: Delims, s: string, i: nat): seq<string>
    requires i <= |s|
    decreases |s| - i, 0
  {
    if i == |s| then [] else KeptTokens(d, s[i]) + Split(d, s[i + 1..])
  }

  function KeptTokens(d: Delims, c: char): seq<string> { if c in d.kept then [[c]] else [] }

  lemma {:induction false} FieldEndFrom(d: Delims, s: string, k: nat, i: nat)
    requires k + i <= |s|
    ensures FieldEnd(d, s[k..], i) + k == FieldEnd(d, s, k + i)
    decreases |s| - k - i
  {
    if k + i < |s| {
      FieldEndFrom(d, s, k, i + 1);
    }
  }

  lemma AfterFieldAt(d: Delims, s: string, k: nat, i: nat)
    requires k <= i <= |s|
    ensures AfterField(d, s[k..], i - k) == AfterField(d, s, i)
  {
    hide Split, KeptTokens;
    if i < |s| {
      assert s[k..][i - k + 1..] == s[i + 1..];
      assert s[k..][i - k] == s[i];
    }
  }

  /** The field that starts at k, and what follows it. */
  lemma SplitAt(d: Delims, s: string, k: nat)
    requires k <= |s|
    ensures Split(d, s[k..]) == [s[k..FieldEnd(d, s, k)]] + AfterField(d, s, FieldEnd(d, s, k))
  {
    hide FieldEnd, AfterField, Split;
    var i := FieldEnd(d, s, k);
    FieldEndFrom(d, s, k, 0);
    assert s[k..][..i - k] == s[k..i];
    AfterFieldAt(d, s, k, i);
    SplitIs(d, s[k..]);
  }

  lemma SplitIs(d: Delims, s: string)
    ensures Split(d, s) == [s[..FieldEnd(d, s, 0)]] + AfterField(d, s, FieldEnd(d, s, 0))
  {
  }

  lemma {:induction false} FieldEndIsDelim(d: Delims, s: string, k: nat)
    requires k <= |s|
    ensures FieldEnd(d, s, k) < |s| ==> IsDelim(d, s[FieldEnd(d, s, k)])
    decreases |s| - k
  {
    if k < |s| && !IsDelim(d, s[k]) {
      FieldEndIsDelim(d, s, k + 1);
    }
  }

  /** A call that has not yet given out the field at k does so. */
  lemma FieldCall(d: Delims, s: string, k: nat)
    requires k <= |s|
    ensures KeepingCall(d, s, k, false) == Token(s[k..FieldEnd(d, s, k)], FieldEnd(d, s, k), true)
  {
  }

  /** A call at a delimiter whose field has been given out. */
  lemma DelimCall(d: Delims, s: string, i: nat)
    requires i < |s| && IsDelim(d, s[i])
    ensures KeepingCall(d, s, i, true) ==
              if s[i] in d.kept then Token([s[i]], i + 1, false)
              else Token(s[i + 1..FieldEnd(d, s, i + 1)], FieldEnd(d, s, i + 1), true)
  {
  }

  /** The run that has not yet given out the field at k. */
  lemma {:induction false} RunSplits(d: Delims, s: string, k: nat)
    requires k <= |s|
    ensures KeepingRun(d, s, k, false) == Split(d, s[k..])
    decreases |s| - k, 1
  {
    hide FieldEnd, KeepingCall, Split, AfterField;
    FieldCall(d, s, k);
    SplitAt(d, s, k);
    RunAfterField(d, s, FieldEnd(d, s, k), k);
  }

  /** The run that has given out the field before i. */
  lemma {:induction false} RunAfterField(d: Delims, s: string, i: nat, k: nat)
    requires k <= i <= |s| && i == FieldEnd(d, s, k)
    ensures KeepingRun(d, s, i, true) == AfterField(d, s, i)
    decreases |s| - i, 0
  {
    hide FieldEnd, KeepingCall, Split;
    FieldEndIsDelim(d, s, k);
    if i == |s| {
      NoMoreAtEnd(d, s);
    } else {
      DelimCall(d, s, i);
      if s[i] in d.kept {
        RunSplits(d, s, i + 1);
      } else {
        SplitAt(d, s, i + 1);
        RunAfterField(d, s, FieldEnd(d, s, i + 1), i + 1);
        assert [] + Split(d, s[i + 1..]) == Split(d, s[i + 1..]);
      }
    }
  }

  lemma NoMoreAtEnd(d: Delims, s: string)
    ensures KeepingCall(d, s, |s|, true) == NoMore
  {
  }

  /** A fresh separator that keeps empty tokens yields the fields and the kept delimiters. */
  lemma FreshRunSplits(d: Delims, s: string)
    ensures KeepingRun(d, s, 0, false) == Split(d, s)
  {
    RunSplits(d, s, 0);
    assert s[0..] == s;
  }

  /** One that has run before still has its flag set, and loses the first field if that is empty. */
  lemma UsedRunLosesEmptyField(d: Delims, s: string)
    ensures KeepingRun(d, s, 0, true) == if s == "" || IsDelim(d, s[0]) then Split(d, s)[1..] else Split(d, s)
  {
    SplitAt(d, s, 0);
    assert s[0..] == s;
    if s == "" || IsDelim(d, s[0]) {
      RunAfterField(d, s, 0, 0);
    } else {
      FreshRunSplits(d, s);
    }
  }

  /** The delimiters of s that leave no token. */
  function DroppedOf(d: Delims, s: string): string {
    if s == "" then "" else
      (if IsDelim(d, s[0]) && s[0] !in d.kept then [s[0]] else "") + DroppedOf(d, s[1..])
  }

  function KeptCount(d: Delims, s: string): nat {
    if s == "" then 0 else (if s[0] in d.kept then 1 else 0) + KeptCount(d, s[1..])
  }

  predicate IsKeptToken(d: Delims, t: string) { |t| == 1 && t[0] in d.kept }

  /** Fields joined again, by the kept delimiters among them or else by the dropped ones. */
  function Rejoin(d: Delims, ts: seq<string>, dropped: string): string
    decreases |ts|
  {
    if ts == [] then ""
    else if |ts| == 1 then ts[0]
    else if IsKeptToken(d, ts[1]) then ts[0] + (ts[1] + Rejoin(d, ts[2..], dropped))
    else if dropped == "" then ""
    else ts[0] + ([dropped[0]] + Rejoin(d, ts[1..], dropped[1..]))
  }

  lemma {:induction false} PlainField(d: Delims, s: string, k: nat)
    requires k <= |s|
    ensures var i := FieldEnd(d, s, k);
            DroppedOf(d, s[k..]) == DroppedOf(d, s[i..]) && KeptCount(d, s[k..]) == KeptCount(d, s[i..])
    decreases |s| - k
  {
    if k < |s| && !IsDelim(d, s[k]) {
      PlainField(d, s, k + 1);
      assert s[k..][1..] == s[k + 1..];
    }
  }

  lemma SplitNonempty(d: Delims, s: string)
    ensures Split(d, s) != [] && !IsKeptToken(d, Split(d, s)[0])
  {
    var i := FieldEnd(d, s, 0);
    if i > 0 {
      assert s[0] == Split(d, s)[0][0];
    }
  }

  /** Nothing is lost: 1 + dropped + 2 * kept tokens, from which the input can be put together again. */
  lemma {:induction false} SplitIsLossless(d: Delims, s: string)
    ensures |Split(d, s)| == 1 + |DroppedOf(d, s)| + 2 * KeptCount(d, s)
    ensures Rejoin(d, Split(d, s), DroppedOf(d, s)) == s
    decreases |s|
  {
    hide FieldEnd, Rejoin, IsDelim, Split, DroppedOf, KeptCount, KeptTokens, IsKeptToken;
    var i := FieldEnd(d, s, 0);
    PlainField(d, s, 0);
    assert s[0..] == s;
    FieldEndIsDelim(d, s, 0);
    if i < |s| {
      var rest := s[i + 1..];
      SplitIsLossless(d, rest);
      SplitNonempty(d, rest);
      assert s[i..] == [s[i]] + rest;
      DelimCounts(d, s[i], rest);
      SplitIs(d, s);
      TokensOfDelim(d, s[i]);
      RejoinStep(d, s[..i], s[i], rest);
      assert s == s[..i] + ([s[i]] + rest);
    } else {
      assert s[i..] == "";
      OneField(d, s);
    }
  }

  lemma OneField(d: Delims, s: string)
    requires FieldEnd(d, s, 0) == |s| && DroppedOf(d, s) == DroppedOf(d, "") && KeptCount(d, s) == KeptCount(d, "")
    ensures |Split(d, s)| == 1 + |DroppedOf(d, s)| + 2 * KeptCount(d, s)
    ensures Rejoin(d, Split(d, s), DroppedOf(d, s)) == s
  {
  }

  lemma TokensOfDelim(d: Delims, c: char)
    ensures |KeptTokens(d, c)| == if c in d.kept then 1 else 0
  {
  }

  lemma DelimCounts(d: Delims, c: char, rest: string)
    requires IsDelim(d, c)
    ensures DroppedOf(d, [c] + rest) == (if c in d.kept then "" else [c]) + DroppedOf(d, rest)
    ensures KeptCount(d, [c] + rest) == (if c in d.kept then 1 else 0) + KeptCount(d, rest)
  {
    assert ([c] + rest)[1..] == rest;
  }

  lemma RejoinStep(d: Delims, field: string, c: char, rest: string)
    requires IsDelim(d, c) && Split(d, rest) != [] && !IsKeptToken(d, Split(d, rest)[0])
    requires Rejoin(d, Split(d, rest), DroppedOf(d, rest)) == rest
    ensures var ts := [field] + (KeptTokens(d, c) + Split(d, rest));
            var dropped := (if c in d.kept then "" else [c]) + DroppedOf(d, rest);
            Rejoin(d, ts, dropped) == field + ([c] + rest)
  {
    var more := Split(d, rest);
    if c in d.kept {
      var ts := [field] + ([[c]] + more);
      assert ts[1] == [c] && ts[2..] == more;
      assert "" + DroppedOf(d, rest) == DroppedOf(d, rest);
    } else {
      var ts := [field] + ([] + more);
      assert ts[1] == more[0] && ts[1..] == more;
      assert ([c] + DroppedOf(d, rest))[1..] == DroppedOf(d, rest);
    }
  }

  // ----- dropping empty tokens -----

  function NonEmpty(ts: seq<string>): seq<string> {
    if ts == [] then [] else (if ts[0] == "" then [] else [ts[0]]) + NonEmpty(ts[1..])
  }

  lemma NonEmptyFirst(t: string, ts: seq<string>)
    ensures NonEmpty([t] + ts) == (if t == "" then [] else [t]) + NonEmpty(ts)
  {
    assert ([t] + ts)[1..] == ts;
  }

  lemma NonEmptyAfter(t: string, ts: seq<string>)
    ensures NonEmpty([t] + ts) == NonEmpty([t]) + NonEmpty(ts)
    ensures NonEmpty([t]) == if t == "" then [] else [t]
  {
    NonEmptyFirst(t, ts);
    assert [t] + [] == [t];
    NonEmptyFirst(t, []);
  }

  /** A call where a field starts. */
  lemma DroppingFieldCall(d: Delims, s: string, k: nat)
    requires k < |s| && !IsDelim(d, s[k])
    ensures k < FieldEnd(d, s, k)
    ensures DroppingCall(d, s, k, false) == Token(s[k..FieldEnd(d, s, k)], FieldEnd(d, s, k), false)
  {
  }

  /** A call at a delimiter. */
  lemma DroppingDelimCall(d: Delims, s: string, i: nat)
    requires i < |s| && IsDelim(d, s[i]) && d.kept !! d.dropped
    ensures DroppingCall(d, s, i, false) == if s[i] in d.kept then Token([s[i]], i + 1, false)
                                            else DroppingCall(d, s, i + 1, false)
  {
    assert SkipDropped(d, s, i) == if s[i] in d.kept then i else SkipDropped(d, s, i + 1);
  }

  /** Dropping empty tokens yields exactly the others, in order. */
  lemma {:induction false} DroppingRunSplits(d: Delims, s: string, k: nat)
    requires k <= |s| && d.kept !! d.dropped
    ensures DroppingRun(d, s, k) == NonEmpty(Split(d, s[k..]))
    decreases |s| - k, 1
  {
    var i := FieldEnd(d, s, k);
    SplitAt(d, s, k);
    FieldEndIsDelim(d, s, k);
    NonEmptyAfter(s[k..i], AfterField(d, s, i));
    if k < |s| && !IsDelim(d, s[k]) {
      DroppingFieldCall(d, s, k);
      hide FieldEnd, SkipDropped, DroppingCall, AfterField, Split, NonEmpty;
      DroppingAfterField(d, s, i);
    } else {
      assert i == k && s[k..i] == "";
      DroppingAfterField(d, s, k);
    }
  }

  lemma {:induction false} DroppingAfterField(d: Delims, s: string, i: nat)
    requires i <= |s| && (i < |s| ==> IsDelim(d, s[i])) && d.kept !! d.dropped
    ensures DroppingRun(d, s, i) == NonEmpty(AfterField(d, s, i))
    decreases |s| - i, 0
  {
    if i == |s| {
      DroppingEnds(d, s);
    } else {
      DroppingDelimStep(d, s, i);
      hide FieldEnd, DroppingRun, Split, NonEmpty, IsDelim;
      DroppingRunSplits(d, s, i + 1);
      NonEmptyAfterDelim(d, s[i], Split(d, s[i + 1..]));
    }
  }

  lemma NonEmptyAfterDelim(d: Delims, c: char, rest: seq<string>)
    ensures NonEmpty(KeptTokens(d, c) + rest) == KeptTokens(d, c) + NonEmpty(rest)
  {
    if c in d.kept {
      NonEmptyAfter([c], rest);
    } else {
      assert [] + rest == rest;
    }
  }

  lemma DroppingDelimStep(d: Delims, s: string, i: nat)
    requires i < |s| && IsDelim(d, s[i]) && d.kept !! d.dropped
    ensures DroppingRun(d, s, i) == KeptTokens(d, s[i]) + DroppingRun(d, s, i + 1)
  {
    hide FieldEnd, SkipDropped, DroppingCall;
    DroppingDelimCall(d, s, i);
  }

  lemma DroppingEnds(d: Delims, s: string)
    ensures DroppingRun(d, s, |s|) == [] == NonEmpty([])
  {
  }
}
