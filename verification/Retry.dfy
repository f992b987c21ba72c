/** The retrying caller over the session caller: which attempts it makes, how long it waits between
    them, and what it leaves behind on every exit. */
module Retry {
  import opened Machine
  import opened Ops
  import opened Compound
  import opened Slots
  import opened Lockstep
  import opened Requests
  import opened Sessions

  // ---- Configuration and backoff ----

  const DEFAULT_INITIAL := 10_000_000      // 10 ms
  const DEFAULT_MAX := 1_000_000_000       // 1 s
  const DEFAULT_MAX_ATTEMPTS := 10

  datatype Config = Config(initial: int64, max: int64, maxAttempts: int64)

  /** The usable configuration: 10 ms and 1 s where unset. (A value below 1 for the attempts becomes 10, not 1.) */
  function WithDefaults(c: Config): (d: Config)
    ensures d.initial >= 1 && d.max >= 1 && d.maxAttempts >= 1
    ensures (c.initial >= 1 ==> d.initial == c.initial) && (c.max >= 1 ==> d.max == c.max)
    ensures c.maxAttempts >= 1 ==> d.maxAttempts == c.maxAttempts
    ensures (c.initial < 1 ==> d.initial == 10_000_000) && (c.max < 1 ==> d.max == 1_000_000_000)
    ensures c.maxAttempts < 1 ==> d.maxAttempts == 10
  {
    Config(if c.initial <= 0 then DEFAULT_INITIAL else c.initial,
           if c.max <= 0 then DEFAULT_MAX else c.max,
           if c.maxAttempts < 1 then DEFAULT_MAX_ATTEMPTS else c.maxAttempts)
  }

  predicate Usable(c: Config) { c.initial >= 1 && c.max >= 1 && c.maxAttempts >= 1 }

  /** The next delay: doubled in 64 bits, then capped. */
  function NextDelay(c: Config, d: int64): int64 {
    var x := Wrap64(2 * d);
    if x > c.max then c.max else x
  }

  /** The delay before retry k + 1. */
  function Delay(c: Config, k: nat): int64 {
    if k == 0 then c.initial else NextDelay(c, Delay(c, k - 1))
  }

  /** Capped exponential backoff. The first wait is never capped. */
  function Ideal(c: Config, k: nat): int {
    if k == 0 then c.initial else Min(c.initial * Pow2(k), c.max)
  }

  lemma SmallDoubling(c: Config, d: int64)
    requires 1 <= d < TWO62
    ensures NextDelay(c, d) == Min(2 * d, c.max)
  {}

  lemma DoublePow(a: int, k: nat)
    requires k >= 1
    ensures a * Pow2(k) == 2 * (a * Pow2(k - 1))
  {}

  lemma IdealStep(c: Config, k: nat)
    requires Usable(c)
    ensures Ideal(c, k + 1) == Min(2 * Ideal(c, k), c.max)
    ensures Ideal(c, k) >= 1
  {
    hide Pow2;
    DoublePow(c.initial, k + 1);
    MulPos(c.initial, Pow2(k));
    PowZero();
  }

  lemma {:induction false} DelayWhileSmall(c: Config, k: nat)
    requires Usable(c) && forall j :: 0 <= j < k ==> Ideal(c, j) < TWO62
    ensures Delay(c, k) == Ideal(c, k)
  {
    hide NextDelay, Ideal;
    if k == 0 {
      IdealStart(c);
    } else {
      DelayWhileSmall(c, k - 1);
      IdealStep(c, k - 1);
      SmallDoubling(c, Delay(c, k - 1));
    }
  }

  lemma IdealStart(c: Config)
    ensures Ideal(c, 0) == c.initial
  {}

  lemma {:induction false} IdealGrows(c: Config, i: nat, j: nat)
    requires Usable(c) && 1 <= i <= j
    ensures Ideal(c, i) <= Ideal(c, j) <= c.max
    decreases j
  {
    hide Ideal;
    IdealStep(c, j - 1);
    if i < j {
      IdealGrows(c, i, j - 1);
      IdealStep(c, j - 1);
    }
  }

  lemma DelayWithoutOverflow(c: Config, k: nat)
    requires Usable(c) && c.initial < TWO62 && c.max < TWO62
    ensures Delay(c, k) == Ideal(c, k) && 1 <= Delay(c, k) < TWO62
  {
    hide Delay, Pow2;
    IdealStep(c, k);
    DelayWhileSmall(c, k);
  }

  lemma PowZero()
    ensures Pow2(0) == 1
  {}

  lemma MulPos(a: int, b: int)
    requires a >= 1 && b >= 1
    ensures a * b >= a && a * b >= b
  {}

  /** Doubling n - 1 times stays below 2^63 ns: there is at most one wait, or the first wait and the one
      but last are below 2^62 ns (146 years). */
  predicate SmallWaits(c: Config, n: nat) {
    n <= 1 || (c.initial < TWO62 && (n == 2 || c.max < TWO62 || c.initial * Pow2(n - 2) < TWO62))
  }

  lemma SmallWaitsIff(c: Config, n: nat)
    requires Usable(c)
    ensures SmallWaits(c, n) <==> forall j :: 0 <= j && j + 1 < n ==> Ideal(c, j) < TWO62
  {
    hide Pow2;
    if SmallWaits(c, n) {
      forall j | 0 <= j && j + 1 < n ensures Ideal(c, j) < TWO62 {
        if j >= 1 { IdealGrows(c, j, n - 2); }
      }
    } else {
      assert Ideal(c, 0) == c.initial && (n >= 3 ==> Ideal(c, n - 2) == Min(c.initial * Pow2(n - 2), c.max));
    }
  }

  /** The first n waits are the capped exponential ones if and only if the waits before the last are
      below 2^62 ns: past that the doubling wraps negative. */
  lemma BackoffIff(c: Config, n: nat)
    requires Usable(c)
    ensures (forall k :: 0 <= k < n ==> Delay(c, k) == Ideal(c, k)) <==> SmallWaits(c, n)
  {
    hide Ideal, SmallWaits, Delay;
    SmallWaitsIff(c, n);
    if SmallWaits(c, n) {
      forall k | 0 <= k < n ensures Delay(c, k) == Ideal(c, k) { DelayWhileSmall(c, k); }
    } else {
      var j :| 0 <= j && j + 1 < n && Ideal(c, j) >= TWO62;
      DoublingWraps(c, j);
      IdealStep(c, j + 1);
    }
  }

  lemma DoublingWraps(c: Config, j: nat)
    requires Usable(c) && Ideal(c, j) >= TWO62
    ensures Delay(c, j) == Ideal(c, j) ==> Delay(c, j + 1) < 0
  {
    hide Ideal;
  }

  function Sum(s: seq<int64>): int {
    if s == [] then 0 else Sum(s[..|s| - 1]) + s[|s| - 1]
  }

  function Delays(c: Config, n: nat): (s: seq<int64>)
    ensures |s| == n
  {
    seq(n, k requires 0 <= k < n => Delay(c, k))
  }

  lemma DelayBound(c: Config, k: nat)
    requires Usable(c) && SmallWaits(c, k + 1)
    ensures Delay(c, k) <= if k == 0 then c.initial else c.max
    ensures k > 0 ==> SmallWaits(c, k)
  {
    hide Delay, SmallWaits;
    BackoffIff(c, k + 1);
    SmallWaitsIff(c, k + 1);
    SmallWaitsIff(c, k);
  }

  /** Total waiting over n sleeps. */
  lemma {:induction false} TotalWait(c: Config, n: nat)
    requires Usable(c) && SmallWaits(c, n) && n >= 1
    ensures Sum(Delays(c, n)) <= c.initial + (n - 1) * c.max
  {
    hide Delay, SmallWaits;
    var s := Delays(c, n);
    DelayBound(c, n - 1);
    assert s[..n - 1] == Delays(c, n - 1);
    if n == 1 {
      assert s[..0] == [];
    } else {
      TotalWait(c, n - 1);
      assert (n - 1) * c.max == (n - 2) * c.max + c.max;
    }
  }

  // ---- One call, attempt by attempt ----

  /** What happens around one attempt: the context may be done before it, while it waits for a slot or
      during the sleep after it. */
  datatype Attempt = Attempt(ctxDone: bool, slotWaitCancelled: bool, base: BaseOutcome, sleepCancelled: bool)

  predicate Retriable(r: CallResult) {
    match r
    case Ok(v) => IsRetriableStatus(v.status)
    case Err(e) => HasStatus(e, NFS4ERR_DELAY) || HasStatus(e, NFS4ERR_GRACE)
  }

  /** Everything a call leaves behind. */
  datatype Trace = Trace(table: Table, decoders: seq<Res>, sent: seq<Sent>, slept: seq<int64>)

  function Attempted(s: Trace, a: Attempt): (Trace, CallResult) {
    var (t, rs, r, sent) := SessionCall(s.table, s.decoders, a.slotWaitCancelled, a.base);
    (Trace(t, rs, if sent.Some? then s.sent + [sent.value] else s.sent, s.slept), r)
  }

  /** Attempt k and what follows; `last` is the result of the attempt before. */
  function Loop(c: Config, script: nat -> Attempt, k: nat, delay: int64, last: Option<CallResult>,
                s: Trace): (CallResult, Trace)
    requires k < c.maxAttempts
    decreases c.maxAttempts - k
  {
    var a := script(k);
    if a.ctxDone then
      (Err(if last.Some? && last.value.Err? then last.value.error else Cancelled), s)
    else
      var (u, r) := Attempted(s, a);
      if !Retriable(r) then (r, u)
      else if k == c.maxAttempts - 1 then
        (if r.Ok? then Err(StatusError(r.value.status)) else r, u)
      else
        var v := u.(slept := u.slept + [delay]);
        if a.sleepCancelled then (Err(Cancelled), v)
        else Loop(c, script, k + 1, NextDelay(c, delay), Some(r), v)
  }

  function Call(c: Config, script: nat -> Attempt, t: Table, rs: seq<Res>): (CallResult, Trace)
    requires Usable(c)
  {
    Loop(c, script, 0, c.initial, None, Trace(t, rs, [], []))
  }

  // ---- What holds throughout a call ----

  /** Requests on slot i whose base call returned without error. */
  function Returned(sent: seq<Sent>, i: nat): nat {
    if sent == [] then 0
    else
      var e := sent[|sent| - 1];
      Returned(sent[..|sent| - 1], i) + if e.slotID == i && e.returned then 1 else 0
  }

  /** Each request carried its slot's sequence id, advanced once for every earlier request on the slot
      that had returned. */
  predicate Sequenced(t0: Table, sent: seq<Sent>) {
    forall b :: 0 <= b < |sent| ==>
      && sent[b].slotID < |t0.slots| && !t0.slots[sent[b].slotID].inUse
      && sent[b].seqID == (t0.slots[sent[b].slotID].next + Returned(sent[..b], sent[b].slotID)) % TWO32
  }

  /** The table against the one the call found: same busy slots, sequence ids advanced by returns. */
  predicate Unharmed(t0: Table, s: Trace) {
    && Kept(s.table) && s.table.free == t0.free && |s.table.slots| == |t0.slots|
    && (forall i :: 0 <= i < |t0.slots| ==>
          && s.table.slots[i].inUse == t0.slots[i].inUse
          && s.table.slots[i].next == (t0.slots[i].next + Returned(s.sent, i)) % TWO32)
  }

  lemma ReturnedSnoc(sent: seq<Sent>, e: Sent, i: nat)
    ensures Returned(sent + [e], i) == Returned(sent, i) + if e.slotID == i && e.returned then 1 else 0
  {
    assert (sent + [e])[..|sent|] == sent;
  }

  lemma SequencedSnoc(t0: Table, sent: seq<Sent>, e: Sent)
    requires Sequenced(t0, sent) && e.slotID < |t0.slots| && !t0.slots[e.slotID].inUse
    requires e.seqID == (t0.slots[e.slotID].next + Returned(sent, e.slotID)) % TWO32
    ensures Sequenced(t0, sent + [e])
  {
    hide Returned;
    var all := sent + [e];
    forall b | 0 <= b < |all|
      ensures all[b].slotID < |t0.slots| && !t0.slots[all[b].slotID].inUse
      ensures all[b].seqID == (t0.slots[all[b].slotID].next + Returned(all[..b], all[b].slotID)) % TWO32
    {
      assert all[..b] == if b == |sent| then sent else sent[..b];
    }
  }

  /** One more request on a free slot, and the table it leaves. */
  lemma UnharmedSnoc(t0: Table, s: Trace, u: Trace, e: Sent)
    requires Unharmed(t0, s) && e.slotID < |t0.slots| && !t0.slots[e.slotID].inUse
    requires e.seqID == s.table.slots[e.slotID].next && u.sent == s.sent + [e]
    requires Kept(u.table) && u.table.free == s.table.free
    requires u.table.slots == s.table.slots[e.slotID := Slot(if e.returned then Bump(e.seqID) else e.seqID, false)]
    ensures Unharmed(t0, u)
  {
    hide Kept, Returned, Bump;
    BumpMod(t0.slots[e.slotID].next + Returned(s.sent, e.slotID));
    forall i | 0 <= i < |t0.slots|
      ensures u.table.slots[i].inUse == t0.slots[i].inUse
      ensures u.table.slots[i].next == (t0.slots[i].next + Returned(u.sent, i)) % TWO32
    {
      ReturnedSnoc(s.sent, e, i);
    }
  }

  lemma AttemptKeeps(t0: Table, s: Trace, a: Attempt)
    requires Kept(t0) && Unharmed(t0, s) && Sequenced(t0, s.sent)
    ensures var (u, r) := Attempted(s, a);
      && Unharmed(t0, u) && Sequenced(t0, u.sent) && u.slept == s.slept
      && |u.sent| == |s.sent| + (if !a.slotWaitCancelled && t0.free > 0 then 1 else 0)
  {
    hide Kept, SessionCall, Bump, Sequenced, Returned;
    SessionCallKeeps(s.table, s.decoders, a.slotWaitCancelled, a.base);
    var u := Attempted(s, a).0;
    var sent := SessionCall(s.table, s.decoders, a.slotWaitCancelled, a.base).3;
    if sent.Some? {
      SequencedSnoc(t0, s.sent, sent.value);
      UnharmedSnoc(t0, s, u, sent.value);
    }
  }

  lemma {:induction false} LoopKeeps(c: Config, script: nat -> Attempt, k: nat, delay: int64, last: Option<CallResult>,
                                     s: Trace, t0: Table)
    requires k < c.maxAttempts && delay == Delay(c, k)
    requires Kept(t0) && Unharmed(t0, s) && Sequenced(t0, s.sent)
    requires |s.sent| <= k && s.slept == Delays(c, k)
    ensures var (r, u) := Loop(c, script, k, delay, last, s);
      && Unharmed(t0, u) && Sequenced(t0, u.sent)
      && |u.sent| <= c.maxAttempts && |u.slept| < c.maxAttempts && u.slept == Delays(c, |u.slept|)
      && (r.Ok? ==> !IsRetriableStatus(r.value.status))
    decreases c.maxAttempts - k
  {
    hide Unharmed, Sequenced, Attempted, Kept;
    var a := script(k);
    if !a.ctxDone {
      AttemptKeeps(t0, s, a);
      var (u, r) := Attempted(s, a);
      if Retriable(r) && k < c.maxAttempts - 1 {
        var v := u.(slept := u.slept + [delay]);
        assert v.slept == Delays(c, k + 1);
        SleepIsHarmless(t0, u, v.slept);
        if !a.sleepCancelled {
          LoopKeeps(c, script, k + 1, NextDelay(c, delay), Some(r), v, t0);
        }
      }
    }
  }

  lemma SleepIsHarmless(t0: Table, u: Trace, slept: seq<int64>)
    requires Unharmed(t0, u)
    ensures Unharmed(t0, u.(slept := slept))
  {}

  /** For every script of base outcomes and on every exit (success, failure, exhaustion, cancellation,
      refused SEQUENCE): the busy slots and the tokens are as the call found them; each slot's sequence
      id has advanced once per request on it that came back; at most MaxAttempts requests went out
      with at most MaxAttempts - 1 sleeps, the backoff ones; no retriable status is returned as success. */
  lemma CallKeeps(c: Config, script: nat -> Attempt, t: Table, rs: seq<Res>)
    requires Usable(c) && Kept(t)
    ensures var (r, u) := Call(c, script, t, rs);
      && Unharmed(t, u) && Sequenced(t, u.sent)
      && |u.sent| <= c.maxAttempts && |u.slept| < c.maxAttempts && u.slept == Delays(c, |u.slept|)
      && (r.Ok? ==> !IsRetriableStatus(r.value.status))
  {
    LoopKeeps(c, script, 0, c.initial, None, Trace(t, rs, [], []), t);
  }

  predicate IdealSleeps(c: Config, slept: seq<int64>) { forall k :: 0 <= k < |slept| ==> slept[k] == Ideal(c, k) }

  /** The waits of a call are the capped exponential ones if and only if the ones before the last are
      below 2^62 ns. */
  lemma CallSleepsIff(c: Config, script: nat -> Attempt, t: Table, rs: seq<Res>)
    requires Usable(c) && Kept(t)
    ensures var slept := Call(c, script, t, rs).1.slept; IdealSleeps(c, slept) <==> SmallWaits(c, |slept|)
  {
    hide Call, Kept, SmallWaits, Delay, Ideal;
    CallKeeps(c, script, t, rs);
    BackoffIff(c, |Call(c, script, t, rs).1.slept|);
  }

  /** Total time asleep in one call. */
  lemma CallWait(c: Config, script: nat -> Attempt, t: Table, rs: seq<Res>)
    requires Usable(c) && Kept(t) && c.maxAttempts >= 2 && SmallWaits(c, c.maxAttempts - 1)
    ensures Sum(Call(c, script, t, rs).1.slept) <= c.initial + (c.maxAttempts - 2) * c.max
  {
    hide Call, Kept, SmallWaits;
    CallKeeps(c, script, t, rs);
    var n := |Call(c, script, t, rs).1.slept|;
    if n >= 1 {
      FewerWaits(c, n, c.maxAttempts - 1);
      TotalWait(c, n);
      assert (n - 1) * c.max <= (c.maxAttempts - 2) * c.max by { MulMono(n - 1, c.maxAttempts - 2, c.max); }
    } else {
      assert Sum(Delays(c, 0)) == 0;
      MulMono(0, c.maxAttempts - 2, c.max);
    }
  }

  lemma FewerWaits(c: Config, m: nat, n: nat)
    requires Usable(c) && SmallWaits(c, n) && m <= n
    ensures SmallWaits(c, m)
  {
    hide SmallWaits;
    SmallWaitsIff(c, m);
    SmallWaitsIff(c, n);
  }

  lemma MulMono(a: int, b: int, m: int)
    requires a <= b && m >= 0
    ensures a * m <= b * m
  {}

  lemma {:induction false} ReturnedGrows(sent: seq<Sent>, a: nat, b: nat, i: nat)
    requires a <= b <= |sent|
    ensures Returned(sent[..a], i) <= Returned(sent[..b], i) <= Returned(sent[..a], i) + (b - a)
    decreases b
  {
    if a < b {
      ReturnedGrows(sent, a, b - 1, i);
      assert sent[..b][..b - 1] == sent[..b - 1];
    }
  }

  lemma SequencedDistinct(t0: Table, sent: seq<Sent>, a: nat, b: nat)
    requires Sequenced(t0, sent) && a < b < |sent| <= TWO32 && sent[a].returned && sent[a].slotID == sent[b].slotID
    ensures sent[a].seqID != sent[b].seqID
  {
    hide Returned;
    var i, x, y := sent[a].slotID, sent[..a], sent[..b];
    assert sent[..a + 1] == x + [sent[a]];
    ReturnedSnoc(x, sent[a], i);
    ReturnedGrows(sent, a + 1, b, i);
    CloseMod(t0.slots[i].next + Returned(x, i), t0.slots[i].next + Returned(y, i));
  }

  /** No call ever sends again a (slot, sequence id) pair whose base call returned without error. */
  lemma PairNeverResent(c: Config, script: nat -> Attempt, t: Table, rs: seq<Res>, a: nat, b: nat)
    requires Usable(c) && Kept(t) && c.maxAttempts <= TWO32
    requires var sent := Call(c, script, t, rs).1.sent; a < b < |sent| && sent[a].returned
    ensures var sent := Call(c, script, t, rs).1.sent;
      sent[a].slotID != sent[b].slotID || sent[a].seqID != sent[b].seqID
  {
    hide Call, Kept, Unharmed, Sequenced;
    CallKeeps(c, script, t, rs);
    var sent := Call(c, script, t, rs).1.sent;
    if sent[b].slotID == sent[a].slotID { SequencedDistinct(t, sent, a, b); }
  }

  // ---- The retrying caller itself ----

  method CallCompound(c: Config, script: nat -> Attempt, s: Session, request: Builder, results: array<Res>)
    returns (r: CallResult, sent: seq<Sent>, slept: seq<int64>)
    requires Usable(c)
    modifies s, s.slots, results
    ensures (r, Trace(s.T(), results[..], sent, slept)) == Call(c, script, old(s.T()), old(results[..]))
  {
    hide SessionCall;
    var delay: int64 := c.initial;
    var lastRes: Option<CompoundResult>, lastErr: Option<CallError> := None, None;
    sent, slept := [], [];
    ghost var start := Trace(s.T(), results[..], [], []);
    ghost var last: Option<CallResult> := None;
    var attempt := 0;
    while attempt < c.maxAttempts
      invariant 0 <= attempt < c.maxAttempts
      invariant lastErr == if last.Some? && last.value.Err? then Some(last.value.error) else None
      invariant Loop(c, script, 0, c.initial, None, start)
             == Loop(c, script, attempt, delay, last, Trace(s.T(), results[..], sent, slept))
    {
      var a := script(attempt);
      if a.ctxDone {
        return Err(if lastErr.Some? then lastErr.value else Cancelled), sent, slept;
      }
      var x, out, _ := Sessions.CallCompound(s, request, results, a.slotWaitCancelled, a.base);
      if out.Some? { sent := sent + [out.value]; }
      lastRes, lastErr := None, None;
      if x.Ok? { lastRes := Some(x.value); } else { lastErr := Some(x.error); }
      if !Retriable(x) { return x, sent, slept; }
      if attempt == c.maxAttempts - 1 { break; }
      slept := slept + [delay];
      if a.sleepCancelled { return Err(Cancelled), sent, slept; }
      delay := Wrap64(2 * delay);
      if delay > c.max { delay := c.max; }
      last := Some(x);
      attempt := attempt + 1;
    }
    r := if lastErr.None? && lastRes.Some? then Err(StatusError(lastRes.value.status))
         else Err(if lastErr.Some? then lastErr.value else Cancelled);
  }
}
