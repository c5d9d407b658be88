/** The sliding-window limiter of `native/mars/comm/comm_frequency_limit.cc`. Ticks are 64-bit. */
module RateLimiting {

  const WORD: nat := 0x1_0000_0000_0000_0000

  /** Subtraction of 64-bit words. */
  function Minus(a: nat, b: nat): nat { (a - b) % WORD }

  // ----- one call -----

  /** All recorded times just before now. */
  function Restarted(n: nat, now: nat): seq<nat> { seq(n, _ => Minus(now, 1)) }

  /** If the clock has been set back, the record is moved to just before now. */
  function Amended(times: seq<nat>, now: nat): (r: seq<nat>)
    ensures |r| == |times|
  {
    if times != [] && now < times[0] then Restarted(|times|, now) else times
  }

  function WithoutOlder(times: seq<nat>, now: nat, span: nat): (r: seq<nat>)
    ensures |r| <= |times| && r == times[|times| - |r|..]
  {
    if times != [] && Minus(now, times[0]) > span then WithoutOlder(times[1..], now, span) else times
  }

  /** The verdict on a call at now, and the record after it. */
  function Checked(count: nat, span: nat, times: seq<nat>, now: nat): (bool, seq<nat>) {
    var ts := Amended(times, now);
    if |ts| <= count then (true, ts + [now])
    else if Minus(now, ts[0]) <= span then (false, ts)
    else (true, WithoutOlder(ts, now, span) + [now])
  }

  class CommFrequencyLimit {
    const count: nat
    const span: nat
    var touchTimes: seq<nat>

    constructor (count: nat, span: nat)
      ensures this.count == count && this.span == span && touchTimes == []
    {
      this.count, this.span, touchTimes := count, span, [];
    }

    method Check(now: nat) returns (passed: bool)
      modifies this
      ensures (passed, touchTimes) == Checked(count, span, old(touchTimes), now)
    {
      if touchTimes != [] && now < touchTimes[0] {
        var size := |touchTimes|;
        touchTimes := [];
        for i := 0 to size
          invariant touchTimes == Restarted(i, now)
        {
          touchTimes := touchTimes + [Minus(now, 1)];
        }
      }
      if |touchTimes| <= count {
        touchTimes := touchTimes + [now];
        return true;
      }
      if Minus(now, touchTimes[0]) <= span {
        return false;
      }
      DelOlderTouchTime(now);
      touchTimes := touchTimes + [now];
      return true;
    }

    method DelOlderTouchTime(time: nat)
      modifies this
      ensures touchTimes == WithoutOlder(old(touchTimes), time, span)
    {
      while touchTimes != [] && Minus(time, touchTimes[0]) > span
        invariant WithoutOlder(touchTimes, time, span) == WithoutOlder(old(touchTimes), time, span)
        decreases |touchTimes|
      {
        touchTimes := touchTimes[1..];
      }
    }
  }

  // ----- whole runs -----

  /** The record after calls at the given times. */
  function Record(count: nat, span: nat, nows: seq<nat>): seq<nat> {
    if nows == [] then [] else
      var n := |nows| - 1;
      Checked(count, span, Record(count, span, nows[..n]), nows[n]).1
  }

  /** The times of the calls that passed. */
  function Passed(count: nat, span: nat, nows: seq<nat>): seq<nat> {
    if nows == [] then [] else
      var n := |nows| - 1;
      Passed(count, span, nows[..n])
      + if Checked(count, span, Record(count, span, nows[..n]), nows[n]).0 then [nows[n]] else []
  }

  /** Whatever the clock does, the record holds no more than count + 1 times. */
  lemma {:induction false} RecordIsBounded(count: nat, span: nat, nows: seq<nat>)
    ensures |Record(count, span, nows)| <= count + 1
    decreases |nows|
  {
    if nows != [] {
      RecordIsBounded(count, span, nows[..|nows| - 1]);
    }
  }

  /** How many of the times lie in the closed window of the given span before now. */
  function InWindow(times: seq<nat>, now: nat, span: nat): nat {
    if times == [] then 0 else (if times[0] + span >= now then 1 else 0) + InWindow(times[1..], now, span)
  }

  predicate Ascending(s: seq<nat>) { forall i, j :: 0 <= i < j < |s| ==> s[i] <= s[j] }

  predicate Words(s: seq<nat>) { forall i :: 0 <= i < |s| ==> s[i] < WORD }

  lemma {:induction false} InWindowConcat(x: seq<nat>, y: seq<nat>, now: nat, span: nat)
    ensures InWindow(x + y, now, span) == InWindow(x, now, span) + InWindow(y, now, span)
    decreases |x|
  {
    if x == [] {
      assert x + y == y;
    } else {
      assert (x + y)[0] == x[0] && (x + y)[1..] == x[1..] + y;
      InWindowConcat(x[1..], y, now, span);
    }
  }

  predicate UpTo(times: seq<nat>, now: nat) { forall i :: 0 <= i < |times| ==> times[i] <= now }

  predicate Outside(times: seq<nat>, now: nat, span: nat) { forall i :: 0 <= i < |times| ==> times[i] + span < now }

  predicate Inside(times: seq<nat>, now: nat, span: nat) { forall i :: 0 <= i < |times| ==> times[i] + span >= now }

  lemma {:induction false} AllOrNone(times: seq<nat>, now: nat, span: nat)
    ensures Outside(times, now, span) ==> InWindow(times, now, span) == 0
    ensures Inside(times, now, span) ==> InWindow(times, now, span) == |times|
    ensures InWindow(times, now, span) <= |times|
    decreases |times|
  {
    if times != [] {
      AllOrNone(times[1..], now, span);
    }
  }

  lemma MinusIs(a: nat, b: nat)
    requires b <= a < WORD
    ensures Minus(a, b) == a - b
  {
  }

  /**
   What the record is while the clock does not run backwards: the latest passed
   times, among them all that now is not more than span after.
   */
  ghost predicate IsTail(record: seq<nat>, passed: seq<nat>, now: nat, span: nat) {
    && Ascending(passed) && UpTo(passed, now)
    && |record| <= |passed| && record == passed[|passed| - |record|..]
    && Outside(passed[..|passed| - |record|], now, span)
  }

  lemma TailLater(record: seq<nat>, passed: seq<nat>, now: nat, later: nat, span: nat)
    requires IsTail(record, passed, now, span) && now <= later
    ensures IsTail(record, passed, later, span)
  {
  }

  lemma TailFacts(record: seq<nat>, passed: seq<nat>, now: nat, span: nat)
    requires IsTail(record, passed, now, span)
    ensures Ascending(record) && UpTo(record, now)
    ensures InWindow(passed, now, span) == InWindow(record, now, span) <= |record|
  {
    hide InWindow, Outside, Inside;
    var k := |passed| - |record|;
    assert passed == passed[..k] + record;
    PartAscends(passed, k, now);
    InWindowConcat(passed[..k], record, now, span);
    AllOrNone(passed[..k], now, span);
    AllOrNone(record, now, span);
  }

  lemma PartAscends(passed: seq<nat>, k: nat, now: nat)
    requires k <= |passed| && Ascending(passed) && UpTo(passed, now)
    ensures Ascending(passed[k..]) && UpTo(passed[k..], now)
  {
  }

  /** The verdict is the count in the window. */
  lemma TailDecides(count: nat, span: nat, record: seq<nat>, passed: seq<nat>, now: nat)
    requires IsTail(record, passed, now, span) && now < WORD && |record| <= count + 1
    ensures Checked(count, span, record, now).0 <==> InWindow(passed, now, span) <= count
  {
    TailFacts(record, passed, now, span);
    hide IsTail, Minus, InWindow, WithoutOlder;
    if |record| > count {
      FirstDecides(record, now, span);
    }
  }

  lemma FirstDecides(record: seq<nat>, now: nat, span: nat)
    requires record != [] && Ascending(record) && UpTo(record, now) && now < WORD
    ensures Minus(now, record[0]) <= span <==> InWindow(record, now, span) == |record|
  {
    MinusIs(now, record[0]);
    AllOrNone(record, now, span);
    AllOrNone(record[1..], now, span);
  }

  lemma {:induction false} OlderAreOut(times: seq<nat>, now: nat, span: nat)
    requires now < WORD && UpTo(times, now)
    ensures var r := WithoutOlder(times, now, span); Outside(times[..|times| - |r|], now, span)
    decreases |times|
  {
    if times != [] && Minus(now, times[0]) > span {
      MinusIs(now, times[0]);
      OlderAreOut(times[1..], now, span);
      var n := |times| - |WithoutOlder(times, now, span)|;
      assert times[..n] == [times[0]] + times[1..][..n - 1];
    }
  }

  /** The cases of a call while the clock has not been set back. */
  lemma CheckedCases(count: nat, span: nat, record: seq<nat>, now: nat)
    requires UpTo(record, now)
    ensures Checked(count, span, record, now)
            == if |record| <= count then (true, record + [now])
               else if Minus(now, record[0]) <= span then (false, record)
               else (true, WithoutOlder(record, now, span) + [now])
  {
    hide Minus, WithoutOlder;
  }

  lemma TailGoesOn(count: nat, span: nat, record: seq<nat>, passed: seq<nat>, now: nat)
    requires IsTail(record, passed, now, span) && now < WORD
    ensures var (ok, after) := Checked(count, span, record, now);
            IsTail(after, passed + if ok then [now] else [], now, span)
  {
    hide IsTail, Checked, Minus, WithoutOlder, Ascending, UpTo, InWindow;
    TailFacts(record, passed, now, span);
    CheckedCases(count, span, record, now);
    TailGrows(record, passed, now, span);
    TailShrinks(record, passed, now, span);
    TailGrows(WithoutOlder(record, now, span), passed, now, span);
    assert passed + [] == passed;
  }

  lemma TailShrinks(record: seq<nat>, passed: seq<nat>, now: nat, span: nat)
    requires IsTail(record, passed, now, span) && UpTo(record, now) && now < WORD
    ensures IsTail(WithoutOlder(record, now, span), passed, now, span)
  {
    hide WithoutOlder, Outside;
    var rest := WithoutOlder(record, now, span);
    var k, n := |passed| - |record|, |record| - |rest|;
    OlderAreOut(record, now, span);
    assert passed[..k + n] == passed[..k] + record[..n];
    OutsideConcat(passed[..k], record[..n], now, span);
    assert passed[k..][n..] == passed[k + n..];
  }

  lemma OutsideConcat(x: seq<nat>, y: seq<nat>, now: nat, span: nat)
    requires Outside(x, now, span) && Outside(y, now, span)
    ensures Outside(x + y, now, span)
  {
  }

  lemma TailGrows(record: seq<nat>, passed: seq<nat>, now: nat, span: nat)
    requires IsTail(record, passed, now, span)
    ensures IsTail(record + [now], passed + [now], now, span)
  {
    var k := |passed| - |record|;
    assert (passed + [now])[..k] == passed[..k];
    assert (passed + [now])[k..] == passed[k..] + [now];
  }

  lemma {:induction false} RecordIsTail(count: nat, span: nat, nows: seq<nat>, now: nat)
    requires Ascending(nows + [now]) && Words(nows + [now])
    ensures IsTail(Record(count, span, nows), Passed(count, span, nows), now, span)
    decreases |nows|
  {
    if nows != [] {
      var n := |nows| - 1;
      var init, last := nows[..n], nows[n];
      assert init + [last] == nows;
      assert (nows + [now])[n] == last && (nows + [now])[n + 1] == now;
      assert forall i :: 0 <= i <= n ==> nows[i] == (nows + [now])[i];
      RecordIsTail(count, span, init, last);
      TailGoesOn(count, span, Record(count, span, init), Passed(count, span, init), last);
      TailLater(Record(count, span, nows), Passed(count, span, nows), last, now, span);
    }
  }

  /**
   While the clock does not run backwards, a call passes exactly if no more than
   count calls passed in the closed window before it.
   */
  lemma WindowDecides(count: nat, span: nat, nows: seq<nat>, now: nat)
    requires Ascending(nows + [now]) && Words(nows + [now])
    ensures Checked(count, span, Record(count, span, nows), now).0
            <==> InWindow(Passed(count, span, nows), now, span) <= count
  {
    RecordIsTail(count, span, nows, now);
    RecordIsBounded(count, span, nows);
    assert (nows + [now])[|nows|] == now;
    TailDecides(count, span, Record(count, span, nows), Passed(count, span, nows), now);
  }

  lemma PassedLast(count: nat, span: nat, nows: seq<nat>, now: nat)
    ensures Passed(count, span, nows + [now])
            == Passed(count, span, nows) + if Checked(count, span, Record(count, span, nows), now).0 then [now] else []
  {
    hide Checked, Record;
    assert (nows + [now])[..|nows|] == nows;
  }

  /**
   The closed window that ends at a passed call holds at most count passed calls
   exactly if fewer than count were in it before; the limit is overrun, by one,
   exactly if there were count.
   */
  lemma WindowAfterCall(count: nat, span: nat, nows: seq<nat>, now: nat)
    requires Ascending(nows + [now]) && Words(nows + [now])
    requires Checked(count, span, Record(count, span, nows), now).0
    ensures var before := InWindow(Passed(count, span, nows), now, span);
            var after := InWindow(Passed(count, span, nows + [now]), now, span);
            && after == before + 1 <= count + 1
            && (after <= count <==> before < count)
  {
    hide Checked, Record, Passed, Ascending;
    WindowDecides(count, span, nows, now);
    PassedLast(count, span, nows, now);
    InWindowConcat(Passed(count, span, nows), [now], now, span);
    assert InWindow([now], now, span) == 1 + InWindow([], now, span);
  }

  /** So no closed window that ends at a call holds more than count + 1 passed calls. */
  lemma NoMoreThanOneTooMany(count: nat, span: nat, nows: seq<nat>)
    requires nows != [] && Ascending(nows) && Words(nows)
    ensures InWindow(Passed(count, span, nows), nows[|nows| - 1], span) <= count + 1
  {
    hide Checked, Record, Passed, Ascending;
    var n := |nows| - 1;
    var init, now := nows[..n], nows[n];
    assert init + [now] == nows;
    var passed := Passed(count, span, init);
    if Checked(count, span, Record(count, span, init), now).0 {
      WindowAfterCall(count, span, init, now);
    } else {
      PassedLast(count, span, init, now);
      assert passed + [] == passed;
      RecordIsTail(count, span, init, now);
      RecordIsBounded(count, span, init);
      TailFacts(Record(count, span, init), passed, now, span);
    }
  }

  /** A call repeated n times. */
  function Repeated(n: nat, now: nat): seq<nat> { seq(n, _ => now) }

  /** For every limit, count + 1 calls at one time all pass, and so are in one window of any span. */
  lemma {:induction false} BurstPasses(count: nat, span: nat, now: nat, n: nat)
    requires n <= count + 1
    ensures var nows := Repeated(n, now);
            && Record(count, span, nows) == nows && Passed(count, span, nows) == nows
            && InWindow(Passed(count, span, nows), now, span) == n
    decreases n
  {
    if n > 0 {
      var nows := Repeated(n, now);
      var init := Repeated(n - 1, now);
      BurstPasses(count, span, now, n - 1);
      assert nows[..n - 1] == init && init + [now] == nows;
      assert Checked(count, span, init, now) == (true, nows);
      InWindowConcat(init, [now], now, span);
      assert InWindow([now], now, span) == 1;
    } else {
      assert Repeated(0, now) == [];
    }
  }

  /** So the limit is overrun for every count and span. */
  lemma LimitIsOverrun(count: nat, span: nat, now: nat)
    ensures InWindow(Passed(count, span, Repeated(count + 1, now)), now, span) == count + 1
  {
    BurstPasses(count, span, now, count + 1);
  }

  /**
   A clock set back moves every recorded time to just before now: the call fails
   if the record is full, and is recorded otherwise.
   */
  lemma SetBackRestarts(count: nat, span: nat, times: seq<nat>, now: nat)
    requires times != [] && span > 0 && 0 < now < times[0] < WORD
    ensures var (passed, after) := Checked(count, span, times, now);
            && passed == (|times| <= count) && |after| == |times| + (if passed then 1 else 0)
            && (forall i :: 0 <= i < |times| ==> after[i] == now - 1) && (passed ==> after[|times|] == now)
  {
    MinusIs(now, 1);
    MinusIs(now, now - 1);
  }

  /** Behind a full record calls go on failing for the span, counted from just before the time it was set back to. */
  lemma SetBackBlocks(count: nat, span: nat, times: seq<nat>, now: nat, later: nat)
    requires |times| > count && span > 0 && 0 < now < times[0] < WORD && now <= later < WORD
    ensures Checked(count, span, Checked(count, span, times, now).1, later).0 <==> later - (now - 1) > span
  {
    var after := Checked(count, span, times, now).1;
    SetBackRestarts(count, span, times, now);
    MinusIs(later, now - 1);
  }

  /** A clock set back behind a full record makes the call fail. */
  lemma SetBackFails(count: nat, span: nat, times: seq<nat>, now: nat)
    requires |times| > count && span > 0 && now < times[0] < WORD
    ensures !Checked(count, span, times, now).0
  {
    assert Minus(now, Minus(now, 1)) == 1;
  }
}
