/** The whole caller stack, retry over session over wire: what a client operation gets back when the
    server makes it wait any number of times before answering, at its operations or at SEQUENCE itself. */
module Stack {
  import opened Machine
  import opened Xdr
  import opened Ops
  import opened Compound
  import opened Slots
  import opened Lockstep
  import opened Sessions
  import opened Retry

  /** The decoders the client's read-side operations hand down. */
  const FRESH_READDIR := ReaddirRes(0, Zeros(VERIFIER_SIZE), [], false)
  const LOOKUP_DECODERS := [StatusRes(0), StatusRes(0), GetfhRes(0, [])]
  const GETATTR_DECODERS := [StatusRes(0), GetattrRes(0, [], [])]
  const READ_DECODERS := [StatusRes(0), ReadRes(0, false, [])]
  const READDIR_DECODERS := [StatusRes(0), FRESH_READDIR]

  lemma ReadSideCompounds()
    ensures ReaddirLast(LOOKUP_DECODERS) && ReaddirLast(GETATTR_DECODERS)
    ensures ReaddirLast(READ_DECODERS) && ReaddirLast(READDIR_DECODERS)
    ensures Expected(LOOKUP_DECODERS) == [0, 0, 10] && Expected(GETATTR_DECODERS) == [0, 9]
    ensures Expected(READ_DECODERS) == [0, 25] && Expected(READDIR_DECODERS) == [0, 26]
    ensures READDIR_DECODERS[1].entries == []
  {}

  function Expected(rs: seq<Res>): seq<uint32> { seq(|rs|, k requires 0 <= k < |rs| => ExpectedOp(rs[k])) }

  // ---- One attempt ----

  /** An attempt that reaches the server and brings back these bytes. */
  predicate Gets(a: Attempt, body: seq<byte>) { !a.ctxDone && !a.slotWaitCancelled && a.base == Replied(body) }

  /** And whose sleep afterwards, if there is one, is not cancelled. */
  predicate Reaches(a: Attempt, body: seq<byte>) { Gets(a, body) && !a.sleepCancelled }

  predicate SequenceOk(sq: Body) { sq.BSequence? && BodyOk(sq) }

  /** A reply behind an OK SEQUENCE result. */
  function Behind(p: Reply, sq: Body): seq<byte>
    requires ReplyOk(p) && |p.results| + 1 < TWO32 && SequenceOk(sq)
  {
    WithSequence(p.status, p.tag, |p.results|, sq, PutResops(p.results, []))
  }

  /** The high-water mark once the first free slot has been handed out. */
  function MarkAfter(t: Table): nat {
    var i := FirstFree(t.slots, 0); if i > t.highest then i else t.highest
  }

  /** The trace of a call after k attempts that all came back: they went out on the first free slot of the
      table the call found, under consecutive sequence ids. */
  predicate Came(t: Table, k: nat, s: Trace) {
    var i := FirstFree(t.slots, 0);
    && i < |t.slots| && t.free > 0
    && Kept(s.table) && s.table.free == t.free
    && s.table.slots == t.slots[i := Slot((t.slots[i].next + k) % TWO32, false)]
    && s.table.highest == (if k == 0 then t.highest else MarkAfter(t))
    && s.sent == seq(k, j requires 0 <= j < k => Sent(i, (t.slots[i].next + j) % TWO32, MarkAfter(t), true))
  }

  lemma CameNowhere(t: Table, rs: seq<Res>)
    requires Kept(t) && t.free > 0
    ensures Came(t, 0, Trace(t, rs, [], []))
  {
    CountAll(t.slots, (x: Slot) => x.inUse);
  }

  /** One more attempt that comes back, whatever it brings. */
  lemma CameFurther(t: Table, k: nat, s: Trace, a: Attempt, body: seq<byte>)
    requires Came(t, k, s) && Gets(a, body)
    requires BaseCall(a.base, [NO_SEQUENCE] + s.decoders).0.Ok?
    ensures var u := Attempted(s, a).0;
      Came(t, k + 1, u) && u.slept == s.slept && u.decoders == BaseCall(a.base, [NO_SEQUENCE] + s.decoders).1[1..]
  {
    hide Kept, BaseCall, Bump, TakeSlot, Release;
    SessionCallKeeps(s.table, s.decoders, a.slotWaitCancelled, a.base);
    AcquireFinds(s.table, false);
    var i := FirstFree(t.slots, 0);
    FirstFreeIs(s.table.slots, 0, i);
    BumpMod(t.slots[i].next + k);
    var u := Attempted(s, a).0;
    assert u.table.slots == t.slots[i := Slot((t.slots[i].next + (k + 1)) % TWO32, false)];
    var e := SessionCall(s.table, s.decoders, a.slotWaitCancelled, a.base).3.value;
    assert e == Sent(i, (t.slots[i].next + k) % TWO32, MarkAfter(t), true);
    assert u.sent == s.sent + [e];
  }

  lemma AttemptBrings(t: Table, k: nat, s: Trace, a: Attempt, p: Reply, sq: Body)
    requires ReplyOk(p) && |p.results| + 1 < TWO32 && SequenceOk(sq) && Gets(a, Behind(p, sq))
    requires Came(t, k, s) && Answers(p, s.decoders)
    ensures var (u, r) := Attempted(s, a);
      && r == Ok(CompoundResult(p.status, p.tag, |p.results|)) && u.decoders == FillAll(s.decoders, p)
      && Came(t, k + 1, u) && u.slept == s.slept
  {
    hide Kept, FillAll, Answers, BodyOk, WithSequence, Came, GetCompound;
    var body := PutResops(p.results, []);
    PlainReply(s.decoders, p);
    SequenceIsTransparent(NO_SEQUENCE, s.decoders, p.status, p.tag, |p.results|, sq, body);
    CameTable(t, k, s);
    SessionIsTransparent(s.table, s.decoders, p.status, p.tag, |p.results|, sq, body);
    CameFurther(t, k, s, a, Behind(p, sq));
  }

  lemma CameTable(t: Table, k: nat, s: Trace)
    requires Came(t, k, s)
    ensures Kept(s.table) && s.table.free > 0
  {}

  lemma PlainReply(rs: seq<Res>, p: Reply)
    requires ReplyOk(p) && Answers(p, rs)
    ensures BaseCall(Replied(RawReply(p.status, p.tag, |p.results|, PutResops(p.results, []))), rs)
         == (Ok(CompoundResult(p.status, p.tag, |p.results|)), FillAll(rs, p))
  {
    hide GetCompound, FillAll, Answers, ReplyOk, PutResops;
    CompoundRoundTrip(rs, p, []);
  }

  // ---- Waiting at the operations ----

  /** Attempt j brings a reply that asks the client to wait, behind this SEQUENCE result. */
  predicate WaitsAt(script: nat -> Attempt, clean: seq<Res>, j: nat, p: Reply, sq: Body) {
    && |clean| + 1 < TWO32 && ReplyOk(p) && Answers(p, clean) && IsRetriableStatus(p.status)
    && SequenceOk(sq) && Reaches(script(j), Behind(p, sq))
  }

  /** So do the first attempts, each with its own reply and SEQUENCE result: a server echoes the sequence id
      of each. */
  predicate Waits(script: nat -> Attempt, clean: seq<Res>, ps: seq<Reply>, sqs: seq<Body>) {
    |clean| + 1 < TWO32 && |ps| <= |sqs| && forall j :: 0 <= j < |ps| ==> WaitsAt(script, clean, j, ps[j], sqs[j])
  }

  /** Then a complete OK reply comes. */
  predicate ThenAnswers(script: nat -> Attempt, clean: seq<Res>, n: nat, last: Reply, sq: Body) {
    && |clean| + 1 < TWO32 && CompleteOk(last, clean) && last.status == NFS4_OK
    && SequenceOk(sq) && Reaches(script(n), Behind(last, sq))
  }

  lemma AnswersUsed(clean: seq<Res>, ps: seq<Reply>, k: nat, p: Reply)
    requires k <= |ps| && (forall j :: 0 <= j < |ps| ==> ReplyOk(ps[j]) && Answers(ps[j], clean))
    requires ReplyOk(p) && Answers(p, clean)
    ensures Answers(p, AfterReplies(clean, ps[..k]))
    ensures AfterReplies(clean, ps[..k] + [p]) == FillAll(AfterReplies(clean, ps[..k]), p)
  {
    hide ReplyOk, Answers, FillAll, AfterReplies;
    AfterRepliesFill(clean, ps[..k], p);
  }

  /** Where a call stands that has been told to wait k times. */
  predicate Waited(c: Config, t: Table, clean: seq<Res>, ps: seq<Reply>, k: nat, s: Trace)
    requires k <= |ps| && forall j :: 0 <= j < |ps| ==> ReplyOk(ps[j])
  {
    Came(t, k, s) && s.decoders == AfterReplies(clean, ps[..k]) && s.slept == Delays(c, k)
  }

  lemma WaitsOnce(c: Config, script: nat -> Attempt, t: Table, clean: seq<Res>, ps: seq<Reply>, sqs: seq<Body>,
                  k: nat, s: Trace)
    requires Waits(script, clean, ps, sqs) && k < |ps| && Waited(c, t, clean, ps, k, s)
    ensures var (u, r) := Attempted(s, script(k));
      && r == Ok(CompoundResult(ps[k].status, ps[k].tag, |ps[k].results|))
      && Came(t, k + 1, u) && u.slept == s.slept
      && Waited(c, t, clean, ps, k + 1, u.(slept := u.slept + [Delay(c, k)]))
  {
    hide Came, FillAll, Attempted, AfterReplies, Answers, ReplyOk, BodyOk, Behind, Delay, Delays, Gets, SequenceOk;
    AnswersUsed(clean, ps, k, ps[k]);
    AnswersFew(clean, ps[k]);
    AttemptBrings(t, k, s, script(k), ps[k], sqs[k]);
    assert ps[..k] + [ps[k]] == ps[..k + 1];
    DelaysSnoc(c, k);
    var u := Attempted(s, script(k)).0;
    CameAsleep(t, k + 1, u, u.slept + [Delay(c, k)]);
  }

  lemma DelaysSnoc(c: Config, k: nat)
    ensures Delays(c, k) + [Delay(c, k)] == Delays(c, k + 1) && Delay(c, k + 1) == NextDelay(c, Delay(c, k))
  {}

  lemma AnswersFew(clean: seq<Res>, p: Reply)
    requires Answers(p, clean)
    ensures |p.results| <= |clean|
  {}

  lemma CameAsleep(t: Table, k: nat, s: Trace, slept: seq<int64>)
    requires Came(t, k, s)
    ensures Came(t, k, s.(slept := slept))
  {}

  /** A call that has been told to wait k times, with attempts left, is at attempt k. */
  lemma {:induction false} AfterWaits(c: Config, script: nat -> Attempt, t: Table, clean: seq<Res>, ps: seq<Reply>,
                                      sqs: seq<Body>, k: nat) returns (s: Trace, before: Option<CallResult>)
    requires Usable(c) && Kept(t) && t.free > 0 && Waits(script, clean, ps, sqs) && k <= |ps| && k < c.maxAttempts
    ensures Waited(c, t, clean, ps, k, s)
    ensures Call(c, script, t, clean) == Loop(c, script, k, Delay(c, k), before, s)
    ensures before.None? || before.value.Ok?
    decreases k
  {
    hide Kept, Came, Attempted, AfterReplies, Answers, ReplyOk, BodyOk, NextDelay, Behind, Delay;
    if k == 0 {
      s, before := Trace(t, clean, [], []), None;
      CameNowhere(t, clean);
      assert ps[..0] == [];
      AfterNone(clean);
      FirstDelay(c);
    } else {
      var u, b := AfterWaits(c, script, t, clean, ps, sqs, k - 1);
      WaitsOnce(c, script, t, clean, ps, sqs, k - 1, u);
      DelaysSnoc(c, k - 1);
      var (v, r) := Attempted(u, script(k - 1));
      s, before := v.(slept := v.slept + [Delay(c, k - 1)]), Some(r);
    }
  }

  lemma FirstDelay(c: Config)
    ensures Delay(c, 0) == c.initial
  {}

  /** End to end: however often (short of MaxAttempts) the server answers DELAY or GRACE behind an OK
      SEQUENCE, the call then succeeds with the final reply's status and count. The attempts went out on
      one slot under consecutive ids, with the backoff sleeps between them. The decoders hold the values
      of the final reply alone if and only if no waiting reply carried an OK READDIR with entries. */
  lemma WaitedCall(c: Config, script: nat -> Attempt, t: Table, clean: seq<Res>, ps: seq<Reply>, sqs: seq<Body>,
                   last: Reply, sq: Body)
    requires Usable(c) && |ps| < c.maxAttempts && Kept(t) && t.free > 0
    requires Waits(script, clean, ps, sqs) && ThenAnswers(script, clean, |ps|, last, sq)
    ensures var (r, u) := Call(c, script, t, clean);
      && r == Ok(CompoundResult(NFS4_OK, last.tag, |clean|))
      && Came(t, |ps| + 1, u) && u.slept == Delays(c, |ps|)
      && (u.decoders == FillAll(clean, last) <==> NoEntries(ps))
  {
    hide Kept, Came, Call, FillAll, AfterReplies, Answers, ReplyOk, BodyOk, Behind, NoEntries, Attempted;
    var s, before := AfterWaits(c, script, t, clean, ps, sqs, |ps|);
    assert ps[..|ps|] == ps;
    AnswersUsed(clean, ps, |ps|, last);
    AttemptBrings(t, |ps|, s, script(|ps|), last, sq);
    FillReuseIff(clean, ps, last);
  }

  lemma AfterNone(clean: seq<Res>)
    ensures AfterReplies(clean, []) == clean
  {}

  /** So when the waiting replies' statuses are those of their last results and READDIR, if any, is the
      last operation, the decoders hold the final reply's values alone. */
  lemma WaitedCallIsClean(c: Config, script: nat -> Attempt, t: Table, clean: seq<Res>, ps: seq<Reply>, sqs: seq<Body>,
                          last: Reply, sq: Body)
    requires Usable(c) && |ps| < c.maxAttempts && Kept(t) && t.free > 0
    requires Waits(script, clean, ps, sqs) && ThenAnswers(script, clean, |ps|, last, sq)
    requires ReaddirLast(clean) && forall p :: p in ps ==> RetriableReply(p, clean)
    ensures var (r, u) := Call(c, script, t, clean);
      r == Ok(CompoundResult(NFS4_OK, last.tag, |clean|)) && u.decoders == FillAll(clean, last)
  {
    hide Kept, Call, FillAll, Came, Waits, ThenAnswers, RetriableReply, NoEntries;
    RetriableCarriesNothing(clean, ps);
    WaitedCall(c, script, t, clean, ps, sqs, last, sq);
  }

  /** SEQUENCE results as a server following section 18.46 of RFC 8881 gives them: slot and sequence id of
      the attempt they answer. */
  function EchoOf(t: Table, id: seq<byte>, target: uint32, j: nat): (sq: Body)
    requires |id| == SESSION_ID_LEN && FirstFree(t.slots, 0) < |t.slots|
    ensures SequenceOk(sq)
  {
    var i := FirstFree(t.slots, 0);
    BSequence(id, (t.slots[i].next + j) % TWO32, i % TWO32, target, target, 0)
  }

  /** Such a server can make the client wait with any retriable replies and then answer: every reply
      echoes the slot and id its attempt went out with, and the call ends as above. */
  lemma EchoingServer(c: Config, t: Table, clean: seq<Res>, ps: seq<Reply>, last: Reply, id: seq<byte>, target: uint32)
    returns (script: nat -> Attempt, sqs: seq<Body>, sq: Body)
    requires Usable(c) && |ps| < c.maxAttempts && Kept(t) && t.free > 0 && |clean| + 1 < TWO32 && |id| == SESSION_ID_LEN
    requires forall p :: p in ps ==> ReplyOk(p) && Answers(p, clean) && IsRetriableStatus(p.status)
    requires CompleteOk(last, clean) && last.status == NFS4_OK
    ensures Waits(script, clean, ps, sqs) && ThenAnswers(script, clean, |ps|, last, sq) && |sqs| == |ps|
    ensures var u := Call(c, script, t, clean).1;
      && |u.sent| == |ps| + 1
      && (forall j :: 0 <= j <= |ps| ==>
            var e := if j < |ps| then sqs[j] else sq;
            e.BSequence? && e.sequenceID == u.sent[j].seqID && e.slotID == u.sent[j].slotID % TWO32)
  {
    hide Kept, Call, FillAll, ReplyOk, Answers, BodyOk, Behind, Loop;
    CameNowhere(t, clean);
    forall j | 0 <= j < |ps| ensures |ps[j].results| <= |clean| { AnswersFew(clean, ps[j]); }
    sqs := seq(|ps|, j requires 0 <= j < |ps| => EchoOf(t, id, target, j));
    sq := EchoOf(t, id, target, |ps|);
    var bodies := seq(|ps|, j requires 0 <= j < |ps| => Behind(ps[j], EchoOf(t, id, target, j)));
    var end := Behind(last, sq);
    script := j => Attempt(false, false, Replied(if 0 <= j < |bodies| then bodies[j] else end), false);
    WaitedCall(c, script, t, clean, ps, sqs, last, sq);
  }

  // ---- Which answers and errors end a call ----

  lemma {:induction false} SleepsStay(c: Config, script: nat -> Attempt, k: nat, delay: int64,
                                      before: Option<CallResult>, s: Trace)
    requires k < c.maxAttempts
    ensures |Loop(c, script, k, delay, before, s).1.slept| >= |s.slept|
    decreases c.maxAttempts - k
  {
    hide SessionCall, NextDelay, Retriable;
    var a := script(k);
    var (u, r) := Attempted(s, a);
    if !a.ctxDone && Retriable(r) && k < c.maxAttempts - 1 && !a.sleepCancelled {
      SleepsStay(c, script, k + 1, NextDelay(c, delay), Some(r), u.(slept := u.slept + [delay]));
    }
  }

  /** After any number of waits, a reply behind an OK SEQUENCE is returned as it is, whatever its status,
      after that one more request and without another sleep, if and only if the status is neither DELAY
      (10008) nor GRACE (10013). */
  lemma ReturnedAtOnceIff(c: Config, script: nat -> Attempt, t: Table, clean: seq<Res>, ps: seq<Reply>, sqs: seq<Body>,
                          p: Reply, sq: Body)
    requires Usable(c) && |ps| < c.maxAttempts && Kept(t) && t.free > 0 && Waits(script, clean, ps, sqs)
    requires ReplyOk(p) && Answers(p, clean) && SequenceOk(sq) && Gets(script(|ps|), Behind(p, sq))
    ensures var (r, u) := Call(c, script, t, clean);
      (&& r == Ok(CompoundResult(p.status, p.tag, |p.results|)) && u.decoders == FillAll(AfterReplies(clean, ps), p)
       && Came(t, |ps| + 1, u) && u.slept == Delays(c, |ps|))
      <==> p.status != 10008 && p.status != 10013
  {
    hide Kept, Came, Call, FillAll, AfterReplies, Answers, ReplyOk, BodyOk, Behind, Attempted, Unharmed, Sequenced;
    var s, before := AfterWaits(c, script, t, clean, ps, sqs, |ps|);
    assert ps[..|ps|] == ps;
    AnswersUsed(clean, ps, |ps|, p);
    AnswersFew(clean, p);
    AttemptBrings(t, |ps|, s, script(|ps|), p, sq);
    CallKeeps(c, script, t, clean);
  }

  /** The base call fails, or brings back a reply that does not decode. */
  predicate FailsWith(b: BaseOutcome, rs: seq<Res>, e: CallError) {
    match b
    case BaseFails(why) => e == why
    case Replied(body) => e.Undecodable? && GetCompound(rs, Dec(body, None)).0 == Err(e.why)
  }

  /** After any number of waits, such an error ends the call with that error, after that one more request and
      without another sleep, if and only if it does not carry DELAY or GRACE or was the last attempt. */
  lemma FailedAtOnceIff(c: Config, script: nat -> Attempt, t: Table, clean: seq<Res>, ps: seq<Reply>, sqs: seq<Body>,
                        e: CallError)
    requires Usable(c) && |ps| < c.maxAttempts && Kept(t) && t.free > 0 && Waits(script, clean, ps, sqs)
    requires var a := script(|ps|);
      !a.ctxDone && !a.slotWaitCancelled && FailsWith(a.base, [NO_SEQUENCE] + AfterReplies(clean, ps), e)
    ensures var (r, u) := Call(c, script, t, clean);
      var asks := (e.StatusError? || e.SequenceError?) && (e.status == 10008 || e.status == 10013);
      r == Err(e) && |u.sent| == |ps| + 1 && !u.sent[|ps|].returned && |u.slept| == |ps|
      <==> !asks || |ps| + 1 == c.maxAttempts
  {
    hide Kept, Came, Call, AfterReplies, Waits, Attempted, GetCompound, NextDelay;
    var s, before := AfterWaits(c, script, t, clean, ps, sqs, |ps|);
    assert ps[..|ps|] == ps;
    CameCount(t, |ps|, s);
    AttemptFails(s, script(|ps|), e);
    var (u, r) := Attempted(s, script(|ps|));
    var d := Delay(c, |ps|);
    if Retriable(r) && |ps| + 1 < c.maxAttempts && !script(|ps|).sleepCancelled {
      SleepsStay(c, script, |ps| + 1, NextDelay(c, d), Some(r), u.(slept := u.slept + [d]));
    }
  }

  lemma CameCount(t: Table, k: nat, s: Trace)
    requires Came(t, k, s)
    ensures Kept(s.table) && s.table.free > 0 && |s.sent| == k
  {}

  lemma AttemptFails(s: Trace, a: Attempt, e: CallError)
    requires Kept(s.table) && s.table.free > 0 && !a.slotWaitCancelled
    requires FailsWith(a.base, [NO_SEQUENCE] + s.decoders, e)
    ensures var (u, r) := Attempted(s, a);
      r == Err(e) && u.slept == s.slept && |u.sent| == |s.sent| + 1 && !u.sent[|s.sent|].returned
  {
    hide Kept, GetCompound, TakeSlot, Release;
    AcquireFinds(s.table, false);
  }

  /** A context done before an attempt, or a cancelled wait for a slot: the call ends there, nothing more is
      sent, and the error is the cancellation. */
  lemma CancelledBetween(c: Config, script: nat -> Attempt, t: Table, clean: seq<Res>, ps: seq<Reply>, sqs: seq<Body>)
    requires Usable(c) && |ps| < c.maxAttempts && Kept(t) && t.free > 0 && Waits(script, clean, ps, sqs)
    requires script(|ps|).ctxDone || script(|ps|).slotWaitCancelled
    ensures var (r, u) := Call(c, script, t, clean);
      r == Err(Cancelled) && Came(t, |ps|, u) && u.slept == Delays(c, |ps|) && u.decoders == AfterReplies(clean, ps)
  {
    hide Kept, Came, Call, AfterReplies, Answers, ReplyOk, BodyOk, Behind, Waits, SequenceOk, Delay, Delays;
    var s, before := AfterWaits(c, script, t, clean, ps, sqs, |ps|);
    assert ps[..|ps|] == ps;
    if !script(|ps|).ctxDone { NoSlotNoRequest(s, script(|ps|)); }
  }

  lemma NoSlotNoRequest(s: Trace, a: Attempt)
    requires a.slotWaitCancelled
    ensures Attempted(s, a) == (s, Err(Cancelled))
  {}

  /** A context done before the attempt that would follow a SEQUENCE told to wait: the error is that one. */
  lemma CancelledAfterError(c: Config, script: nat -> Attempt, t: Table, clean: seq<Res>, ps: seq<Reply>,
                            sqs: seq<Body>, st: uint32)
    requires Usable(c) && |ps| + 1 < c.maxAttempts && Kept(t) && t.free > 0 && Waits(script, clean, ps, sqs)
    requires IsRetriableStatus(st) && Reaches(script(|ps|), RefusalBytes(st)) && script(|ps| + 1).ctxDone
    ensures var (r, u) := Call(c, script, t, clean);
      r == Err(SequenceError(st)) && Came(t, |ps| + 1, u) && u.slept == Delays(c, |ps| + 1)
  {
    hide Kept, Came, Call, AfterReplies, Waits, Attempted, RefusalBytes, Delay, Delays, NextDelay;
    var s, before := AfterWaits(c, script, t, clean, ps, sqs, |ps|);
    AttemptRefused(t, |ps|, s, script(|ps|), st);
    var u := Attempted(s, script(|ps|)).0;
    DelaysSnoc(c, |ps|);
    CameAsleep(t, |ps| + 1, u, u.slept + [Delay(c, |ps|)]);
  }

  /** A sleep cancelled after a reply or a SEQUENCE that told the client to wait: the call ends there with the
      cancellation, and nothing more is sent. */
  lemma CancelledAsleep(c: Config, script: nat -> Attempt, t: Table, clean: seq<Res>, ps: seq<Reply>, sqs: seq<Body>,
                        w: Wait)
    requires Usable(c) && |ps| + 1 < c.maxAttempts && Kept(t) && t.free > 0 && Waits(script, clean, ps, sqs)
    requires WaitOk(w, clean) && Gets(script(|ps|), WaitBytes(w, clean)) && script(|ps|).sleepCancelled
    ensures var (r, u) := Call(c, script, t, clean);
      r == Err(Cancelled) && Came(t, |ps| + 1, u) && u.slept == Delays(c, |ps| + 1)
  {
    hide Kept, Came, Call, AfterReplies, Answers, ReplyOk, BodyOk, Behind, Attempted, RefusalBytes, Delay, Delays;
    var s, before := AfterWaits(c, script, t, clean, ps, sqs, |ps|);
    match w {
      case AtOperation(p, sq) =>
        assert ps[..|ps|] == ps;
        AnswersUsed(clean, ps, |ps|, p);
        AnswersFew(clean, p);
        AttemptBrings(t, |ps|, s, script(|ps|), p, sq);
      case AtSequence(st) => AttemptRefused(t, |ps|, s, script(|ps|), st);
    }
    var u := Attempted(s, script(|ps|)).0;
    DelaysSnoc(c, |ps|);
    CameAsleep(t, |ps| + 1, u, u.slept + [Delay(c, |ps|)]);
  }

  // ---- A server that never stops ----

  /** A server that never stops answering DELAY or GRACE gets exactly MaxAttempts requests on one slot
      under consecutive ids, with a sleep between each two, and the caller gets the last status as an error. */
  lemma ExhaustedCall(c: Config, script: nat -> Attempt, t: Table, clean: seq<Res>, ps: seq<Reply>, sqs: seq<Body>)
    requires Usable(c) && |ps| == c.maxAttempts && Kept(t) && t.free > 0 && Waits(script, clean, ps, sqs)
    ensures var (r, u) := Call(c, script, t, clean);
      && r == Err(StatusError(ps[|ps| - 1].status))
      && Came(t, c.maxAttempts, u) && u.slept == Delays(c, c.maxAttempts - 1)
  {
    hide Kept, Came, Call, AfterReplies, Answers, ReplyOk, BodyOk, Behind, Attempted;
    var s, before := AfterWaits(c, script, t, clean, ps, sqs, |ps| - 1);
    WaitsOnce(c, script, t, clean, ps, sqs, |ps| - 1, s);
  }

  /** Every call under a configuration waits the capped exponential times, whatever the server does, if and
      only if all its waits but the last fit: MaxAttempts - 1 of them. */
  lemma BackoffIffSmall(c: Config, t: Table, rs: seq<Res>)
    requires Usable(c) && Kept(t) && t.free > 0 && |rs| + 1 < TWO32
    ensures (forall script: nat -> Attempt :: IdealSleeps(c, Call(c, script, t, rs).1.slept))
       <==> SmallWaits(c, c.maxAttempts - 1)
  {
    hide Kept, Call, Came, SmallWaits, Behind, IdealSleeps, BodyOk;
    forall script: nat -> Attempt | SmallWaits(c, c.maxAttempts - 1)
      ensures IdealSleeps(c, Call(c, script, t, rs).1.slept)
    {
      CallKeeps(c, script, t, rs);
      CallSleepsIff(c, script, t, rs);
      FewerWaits(c, |Call(c, script, t, rs).1.slept|, c.maxAttempts - 1);
    }
    var p, sq := Reply(NFS4ERR_DELAY, [], []), BSequence(Zeros(SESSION_ID_LEN), 0, 0, 0, 0, 0);
    assert SequenceOk(sq) by { PlainSequence(); }
    var body := Behind(p, sq);
    var script: nat -> Attempt := _ => Attempt(false, false, Replied(body), false);
    ExhaustedCall(c, script, t, rs, seq(c.maxAttempts, _ => p), seq(c.maxAttempts, _ => sq));
    CallSleepsIff(c, script, t, rs);
  }

  lemma PlainSequence()
    ensures BodyOk(BSequence(Zeros(SESSION_ID_LEN), 0, 0, 0, 0, 0))
  {}

  // ---- Readdir ----

  const PUTFH_OK := Answer(22, NFS4_OK, BStatus)

  function ReaddirPage(verf: seq<byte>, es: seq<DirEntry>, eof: bool): Reply {
    Reply(NFS4_OK, [], [PUTFH_OK, Answer(OP_READDIR, NFS4_OK, BReaddir(verf, es, eof))])
  }

  lemma ReaddirFills(verf: seq<byte>, es: seq<DirEntry>, eof: bool)
    ensures FillAll(READDIR_DECODERS, ReaddirPage(verf, es, eof))
         == [StatusRes(NFS4_OK), ReaddirRes(NFS4_OK, verf, es, eof)]
  {
    var filled := FillAll(READDIR_DECODERS, ReaddirPage(verf, es, eof));
    assert [] + es == es;
    assert filled == [StatusRes(NFS4_OK), ReaddirRes(NFS4_OK, verf, es, eof)];
  }

  /** Readdir returns exactly the server's page, no entry lost or repeated, however often (short of
      MaxAttempts) the server first answers DELAY or GRACE, at PUTFH or at READDIR. */
  lemma ReaddirReturnsPage(c: Config, script: nat -> Attempt, t: Table, ps: seq<Reply>, sqs: seq<Body>,
                           verf: seq<byte>, es: seq<DirEntry>, eof: bool, sq: Body)
    requires Usable(c) && |ps| < c.maxAttempts && Kept(t) && t.free > 0
    requires Waits(script, READDIR_DECODERS, ps, sqs) && forall p :: p in ps ==> RetriableReply(p, READDIR_DECODERS)
    requires ThenAnswers(script, READDIR_DECODERS, |ps|, ReaddirPage(verf, es, eof), sq)
    ensures var (r, u) := Call(c, script, t, READDIR_DECODERS);
      r == Ok(CompoundResult(NFS4_OK, [], 2)) && u.decoders == [StatusRes(NFS4_OK), ReaddirRes(NFS4_OK, verf, es, eof)]
  {
    hide Kept, Call, FillAll, Waits, ThenAnswers, RetriableReply;
    ReadSideCompounds();
    ReaddirFills(verf, es, eof);
    WaitedCallIsClean(c, script, t, READDIR_DECODERS, ps, sqs, ReaddirPage(verf, es, eof), sq);
  }

  // ---- Told to wait at SEQUENCE itself ----

  /** A reply whose only result is a SEQUENCE that failed. */
  function SequenceRefusal(st: uint32): Reply {
    Reply(st, [], [Answer(OP_SEQUENCE, st, BSequence(Zeros(SESSION_ID_LEN), 0, 0, 0, 0, 0))])
  }

  function RefusalBytes(st: uint32): seq<byte> {
    PutReply(SequenceRefusal(st), [])
  }

  lemma RefusalDecodes(rs: seq<Res>, st: uint32)
    requires st != NFS4_OK
    ensures BaseCall(Replied(RefusalBytes(st)), [NO_SEQUENCE] + rs)
         == (Ok(CompoundResult(st, [], 1)), [WithStatus(NO_SEQUENCE, st)] + rs)
  {
    hide GetCompound, PutReply;
    var all := [NO_SEQUENCE] + rs;
    CompoundRoundTrip(all, SequenceRefusal(st), []);
    assert FillAll(all, SequenceRefusal(st)) == [WithStatus(NO_SEQUENCE, st)] + rs;
  }

  /** The refused attempt is an error and leaves the decoders alone, yet its slot has advanced. */
  lemma AttemptRefused(t: Table, k: nat, s: Trace, a: Attempt, st: uint32)
    requires Came(t, k, s) && st != NFS4_OK && Gets(a, RefusalBytes(st))
    ensures var (u, r) := Attempted(s, a);
      r == Err(SequenceError(st)) && Came(t, k + 1, u) && u.slept == s.slept && u.decoders == s.decoders
  {
    hide BaseCall, Came, Kept, TakeSlot, Release, RefusalBytes;
    RefusalDecodes(s.decoders, st);
    CameTable(t, k, s);
    AcquireFinds(s.table, false);
    CameFurther(t, k, s, a, RefusalBytes(st));
  }

  /** The id attempt k of a call goes out under, on the first free slot. */
  function IdOf(t: Table, k: nat): uint32 {
    var i := FirstFree(t.slots, 0); if i < |t.slots| then (t.slots[i].next + k) % TWO32 else 0
  }

  /** The server has executed id v last on the slot the next call takes, and answers attempt k as the
      protocol says when that means refusing it. */
  predicate RefusesMisordered(script: nat -> Attempt, t: Table, v: uint32, k: nat) {
    Serve(v, 0, IdOf(t, k), Process).Refused? ==> Reaches(script(k), RefusalBytes(NFS4ERR_SEQ_MISORDERED))
  }

  /** The slot the next call takes is d ids past the one the server would execute. */
  predicate Ahead(t: Table, v: uint32, d: nat) {
    var i := FirstFree(t.slots, 0); i < |t.slots| && t.slots[i].next == (v + 1 + d) % TWO32
  }

  lemma AheadIsRefused(v: uint32, d: nat)
    requires 1 <= d && d + 1 < TWO32
    ensures Serve(v, 0, (v + 1 + d) % TWO32, Process) == Refused
  {
    CloseMod(v, v + 1 + d);
    CloseMod(v + 1, v + 1 + d);
  }

  lemma AheadMore(t: Table, k: nat, s: Trace, v: uint32, d: nat)
    requires Ahead(t, v, d) && Came(t, k, s)
    ensures Ahead(s.table, v, d + k)
  {
    hide Kept;
    var i := FirstFree(t.slots, 0);
    FirstFreeIs(s.table.slots, 0, i);
    ModAdd(v + 1 + d, k);
  }

  /** A failed SEQUENCE costs the call and the slot, after however many waits. On DELAY or GRACE the client
      tries again, if attempts are left, on the same slot but under the next id, which the server refuses.
      The call fails, its decoders as the waits left them, and leaves the slot ahead of the server. */
  lemma DelayedSequence(c: Config, script: nat -> Attempt, t: Table, clean: seq<Res>, ps: seq<Reply>, sqs: seq<Body>,
                        v: uint32, st: uint32)
    requires Usable(c) && Kept(t) && t.free > 0 && Ahead(t, v, 0) && Waits(script, clean, ps, sqs)
    requires |ps| < c.maxAttempts
    requires st != NFS4_OK && Reaches(script(|ps|), RefusalBytes(st))
    requires IsRetriableStatus(st) && |ps| + 1 < c.maxAttempts ==>
               RefusesMisordered(script, t, (v + |ps|) % TWO32, |ps| + 1)
    ensures var (r, u) := Call(c, script, t, clean);
      var again := IsRetriableStatus(st) && |ps| + 1 < c.maxAttempts;
      && r == Err(SequenceError(if again then NFS4ERR_SEQ_MISORDERED else st))
      && u.decoders == AfterReplies(clean, ps) && u.slept == Delays(c, |ps| + if again then 1 else 0)
      && Came(t, |ps| + if again then 2 else 1, u) && Ahead(u.table, (v + |ps|) % TWO32, if again then 2 else 1)
  {
    hide Kept, Came, Call, Attempted, RefusalBytes, Serve, Waits, AfterReplies, Delay, Delays, NextDelay, Ahead;
    var n := |ps|;
    var s, before := AfterWaits(c, script, t, clean, ps, sqs, n);
    assert ps[..n] == ps;
    AttemptRefused(t, n, s, script(n), st);
    var (u, r) := Attempted(s, script(n));
    AheadAfter(t, n + 1, u, v, n);
    if IsRetriableStatus(st) && n + 1 < c.maxAttempts {
      var w := u.(slept := u.slept + [Delay(c, n)]);
      DelaysSnoc(c, n);
      CameAsleep(t, n + 1, u, w.slept);
      NextIsMisordered(t, v, n);
      AttemptRefused(t, n + 1, w, script(n + 1), NFS4ERR_SEQ_MISORDERED);
      AheadAfter(t, n + 2, Attempted(w, script(n + 1)).0, v, n);
    }
  }

  /** From a slot in step, k requests on and n of them executed: k - n ids ahead. */
  lemma AheadAfter(t: Table, k: nat, s: Trace, v: uint32, n: nat)
    requires Ahead(t, v, 0) && Came(t, k, s) && n <= k
    ensures Ahead(s.table, (v + n) % TWO32, k - n)
  {
    hide Came, FirstFree;
    AheadMore(t, k, s, v, 0);
    ModAdd(v + n, 1 + (k - n));
  }

  lemma NextIsMisordered(t: Table, v: uint32, n: nat)
    requires Ahead(t, v, 0)
    ensures Serve((v + n) % TWO32, 0, IdOf(t, n + 1), Process) == Refused
  {
    hide Serve, FirstFree;
    AheadIsRefused((v + n) % TWO32, 1);
    ModAdd(v + 1, n + 1);
    ModAdd(v + n, 2);
  }

  // ---- Exactly when a call that is made to wait and then answered succeeds ----

  /** How a server makes a client wait: with a reply behind an OK SEQUENCE, or at SEQUENCE itself. */
  datatype Wait = AtOperation(p: Reply, sq: Body) | AtSequence(st: uint32)

  predicate WaitOk(w: Wait, clean: seq<Res>) {
    match w
    case AtOperation(p, sq) => ReplyOk(p) && Answers(p, clean) && IsRetriableStatus(p.status) && SequenceOk(sq)
    case AtSequence(st) => IsRetriableStatus(st)
  }

  function WaitBytes(w: Wait, clean: seq<Res>): seq<byte>
    requires |clean| + 1 < TWO32 && WaitOk(w, clean)
  {
    match w
    case AtOperation(p, sq) => AnswersFew(clean, p); Behind(p, sq)
    case AtSequence(st) => RefusalBytes(st)
  }

  /** The server's last executed id when attempt k arrives: it moves on with each SEQUENCE it accepts. */
  function LastID(t: Table, v: uint32, ws: seq<Wait>, k: nat): uint32
    requires k <= |ws|
  {
    if k == 0 then v
    else
      var last := LastID(t, v, ws, k - 1);
      if Serve(last, 0, IdOf(t, k - 1), Process).Executed? && ws[k - 1].AtOperation? then IdOf(t, k - 1) else last
  }

  /** The server refuses attempt k if it is misordered, and otherwise answers it with these bytes. */
  predicate Follows(script: nat -> Attempt, t: Table, v: uint32, ws: seq<Wait>, k: nat, bytes: seq<byte>)
    requires k <= |ws|
  {
    Reaches(script(k), if Serve(LastID(t, v, ws, k), 0, IdOf(t, k), Process).Refused?
                       then RefusalBytes(NFS4ERR_SEQ_MISORDERED) else bytes)
  }

  /** A server that follows the protocol, means to make the client wait so and then to answer. */
  predicate Serves(script: nat -> Attempt, t: Table, v: uint32, clean: seq<Res>, ws: seq<Wait>, last: Reply, sq: Body) {
    && |clean| + 1 < TWO32
    && CompleteOk(last, clean) && last.status == NFS4_OK && SequenceOk(sq)
    && (forall k :: 0 <= k < |ws| ==> WaitOk(ws[k], clean) && Follows(script, t, v, ws, k, WaitBytes(ws[k], clean)))
    && Follows(script, t, v, ws, |ws|, Behind(last, sq))
  }

  /** There is such a server for every series of waits. */
  lemma SomeServer(t: Table, v: uint32, clean: seq<Res>, ws: seq<Wait>, last: Reply, sq: Body)
    returns (script: nat -> Attempt)
    requires |clean| + 1 < TWO32 && CompleteOk(last, clean) && last.status == NFS4_OK && SequenceOk(sq)
    requires forall k :: 0 <= k < |ws| ==> WaitOk(ws[k], clean)
    ensures Serves(script, t, v, clean, ws, last, sq)
  {
    hide CompleteOk, WaitOk, WaitBytes, Serve, LastID, IdOf, RefusalBytes, Behind;
    CompleteFew(last, clean);
    var meant := seq(|ws| + 1, k requires 0 <= k <= |ws| =>
      if k < |ws| then WaitBytes(ws[k], clean) else Behind(last, sq));
    var bodies := seq(|ws| + 1, k requires 0 <= k <= |ws| =>
      if Serve(LastID(t, v, ws, k), 0, IdOf(t, k), Process).Refused? then RefusalBytes(NFS4ERR_SEQ_MISORDERED)
      else meant[k]);
    script := k => Attempt(false, false, Replied(if 0 <= k < |bodies| then bodies[k] else []), false);
  }

  lemma CompleteFew(p: Reply, clean: seq<Res>)
    requires CompleteOk(p, clean)
    ensures ReplyOk(p) && |p.results| == |clean|
  {}

  /** While every wait is at an operation the server keeps pace, and executes what comes. */
  lemma {:induction false} KeepsPace(t: Table, v: uint32, ws: seq<Wait>, k: nat)
    requires Ahead(t, v, 0) && k <= |ws| && forall j :: 0 <= j < k ==> ws[j].AtOperation?
    ensures LastID(t, v, ws, k) == (v + k) % TWO32
    ensures Serve(LastID(t, v, ws, k), 0, IdOf(t, k), Process) == Executed
  {
    hide Serve, IdOf, Ahead;
    if k > 0 {
      KeepsPace(t, v, ws, k - 1);
      IdInStep(t, v, k - 1);
    }
    IdInStep(t, v, k);
  }

  lemma IdInStep(t: Table, v: uint32, k: nat)
    requires Ahead(t, v, 0)
    ensures IdOf(t, k) == (v + k + 1) % TWO32
    ensures Serve((v + k) % TWO32, 0, IdOf(t, k), Process) == Executed
  {
    hide FirstFree, Bump;
    ModAdd(v + 1, k);
    BumpMod(v + k);
  }

  lemma PrefixWaits(script: nat -> Attempt, t: Table, v: uint32, clean: seq<Res>, ws: seq<Wait>, last: Reply, sq: Body,
                    m: nat) returns (ps: seq<Reply>, sqs: seq<Body>)
    requires m <= |ws| && forall j :: 0 <= j < m ==> ws[j].AtOperation?
    requires Ahead(t, v, 0) && Serves(script, t, v, clean, ws, last, sq)
    ensures |ps| == m && Waits(script, clean, ps, sqs)
    ensures LastID(t, v, ws, m) == (v + m) % TWO32
    ensures Serve(LastID(t, v, ws, m), 0, IdOf(t, m), Process) == Executed
  {
    hide LastID, IdOf, Serve, Behind, Ahead, FirstFree, WaitOk, WaitBytes, Follows, WaitsAt;
    KeepsPace(t, v, ws, m);
    ps, sqs := seq(m, j requires 0 <= j < m => ws[j].p), seq(m, j requires 0 <= j < m => ws[j].sq);
    forall j | 0 <= j < m ensures WaitsAt(script, clean, j, ps[j], sqs[j]) {
      KeepsPace(t, v, ws, j);
      OperationWait(script, t, v, clean, ws, j);
    }
  }

  lemma OperationWait(script: nat -> Attempt, t: Table, v: uint32, clean: seq<Res>, ws: seq<Wait>, k: nat)
    requires k < |ws| && ws[k].AtOperation?
    requires |clean| + 1 < TWO32 && WaitOk(ws[k], clean) && Follows(script, t, v, ws, k, WaitBytes(ws[k], clean))
    requires Serve(LastID(t, v, ws, k), 0, IdOf(t, k), Process) == Executed
    ensures WaitsAt(script, clean, k, ws[k].p, ws[k].sq)
  {
    hide LastID, IdOf, Serve, ReplyOk, Behind, FirstFree, Reaches, SequenceOk, RefusalBytes;
  }

  /** Against a server that follows the protocol, on a slot in step: a call made to wait any number of times
      (short of MaxAttempts) and then answered succeeds if and only if no wait came at SEQUENCE; otherwise
      it fails as misordered. */
  lemma AnsweredIff(c: Config, script: nat -> Attempt, t: Table, v: uint32, clean: seq<Res>, ws: seq<Wait>,
                    last: Reply, sq: Body)
    requires Usable(c) && |ws| < c.maxAttempts && Kept(t) && t.free > 0 && Ahead(t, v, 0)
    requires Serves(script, t, v, clean, ws, last, sq)
    ensures var r := Call(c, script, t, clean).0;
      && (r.Ok? <==> forall w :: w in ws ==> w.AtOperation?)
      && (r.Err? ==> r == Err(SequenceError(NFS4ERR_SEQ_MISORDERED)))
  {
    hide Kept, Call, Serve, LastID, IdOf, ReplyOk, Answers, SequenceOk, Behind, RefusalBytes, Reaches, Waits, Came,
         Ahead,
         WaitOk, WaitBytes;
    var m := FirstAtSequence(ws);
    var ps, sqs := PrefixWaits(script, t, v, clean, ws, last, sq, m);
    if m == |ws| {
      WaitedCall(c, script, t, clean, ps, sqs, last, sq);
    } else {
      WaitAtSequence(ws[m], clean);
      SequenceWait(script, t, v, ws, m, if m + 1 < |ws| then WaitBytes(ws[m + 1], clean) else Behind(last, sq));
      DelayedSequence(c, script, t, clean, ps, sqs, v, ws[m].st);
    }
  }

  /** The first wait at SEQUENCE, or the number of waits. */
  function FirstAtSequence(ws: seq<Wait>): (m: nat)
    ensures m <= |ws| && (forall j :: 0 <= j < m ==> ws[j].AtOperation?) && (m < |ws| ==> ws[m].AtSequence?)
    ensures m == |ws| <==> forall w :: w in ws ==> w.AtOperation?
  {
    if ws == [] then 0
    else if ws[0].AtSequence? then assert ws[0] in ws; 0
    else assert ws == [ws[0]] + ws[1..]; 1 + FirstAtSequence(ws[1..])
  }

  lemma SequenceWait(script: nat -> Attempt, t: Table, v: uint32, ws: seq<Wait>, m: nat, bytes: seq<byte>)
    requires m < |ws| && ws[m].AtSequence?
    requires LastID(t, v, ws, m) == (v + m) % TWO32 && Serve(LastID(t, v, ws, m), 0, IdOf(t, m), Process) == Executed
    requires Follows(script, t, v, ws, m, RefusalBytes(ws[m].st)) && Follows(script, t, v, ws, m + 1, bytes)
    ensures Reaches(script(m), RefusalBytes(ws[m].st)) && RefusesMisordered(script, t, (v + m) % TWO32, m + 1)
  {
    hide Serve, Reaches, RefusalBytes, LastID, IdOf;
    StaysBehind(t, v, ws, m);
  }

  lemma WaitAtSequence(w: Wait, clean: seq<Res>)
    requires |clean| + 1 < TWO32 && WaitOk(w, clean) && w.AtSequence?
    ensures IsRetriableStatus(w.st) && WaitBytes(w, clean) == RefusalBytes(w.st)
  {
    hide RefusalBytes;
  }

  lemma StaysBehind(t: Table, v: uint32, ws: seq<Wait>, m: nat)
    requires m < |ws| && ws[m].AtSequence?
    ensures LastID(t, v, ws, m + 1) == LastID(t, v, ws, m)
  {
    hide Serve, FirstFree;
  }

  /** From then on every call that finds the same slot first free fails after one request, and drives the
      slot one id further. */
  lemma WedgedCall(c: Config, script: nat -> Attempt, t: Table, rs: seq<Res>, v: uint32, d: nat)
    requires Usable(c) && Kept(t) && t.free > 0 && Ahead(t, v, d) && 1 <= d && d + 1 < TWO32
    requires RefusesMisordered(script, t, v, 0)
    ensures var (r, u) := Call(c, script, t, rs);
      && r == Err(SequenceError(NFS4ERR_SEQ_MISORDERED)) && u.decoders == rs
      && Came(t, 1, u) && u.slept == [] && Ahead(u.table, v, d + 1)
  {
    hide Kept, Came, Attempted, RefusalBytes, Serve;
    var s := Trace(t, rs, [], []);
    CameNowhere(t, rs);
    AheadIsRefused(v, d);
    AttemptRefused(t, 0, s, script(0), NFS4ERR_SEQ_MISORDERED);
    AheadMore(t, 1, Attempted(s, script(0)).0, v, d);
  }

  /** The table after n calls, one after the other. */
  function AfterCalls(c: Config, scripts: nat -> (nat -> Attempt), t: Table, rs: seq<Res>, n: nat): Table
    requires Usable(c)
  {
    if n == 0 then t
    else
      var before := AfterCalls(c, scripts, t, rs, n - 1);
      Call(c, scripts(n - 1), before, rs).1.table
  }

  /** Call m, met by a server that still refuses what is misordered after id v. */
  predicate CallRefused(c: Config, scripts: nat -> (nat -> Attempt), t: Table, rs: seq<Res>, v: uint32, m: nat)
    requires Usable(c)
  {
    RefusesMisordered(scripts(m), AfterCalls(c, scripts, t, rs, m), v, 0)
  }

  predicate CallFails(c: Config, scripts: nat -> (nat -> Attempt), t: Table, rs: seq<Res>, m: nat)
    requires Usable(c)
  {
    Call(c, scripts(m), AfterCalls(c, scripts, t, rs, m), rs).0 == Err(SequenceError(NFS4ERR_SEQ_MISORDERED))
  }

  /** So once the slot is ahead, call after call fails, for as long as no other lease makes a call find
      another slot first (and short of 2^32 calls). */
  lemma {:induction false} WedgedCalls(c: Config, scripts: nat -> (nat -> Attempt), t: Table, rs: seq<Res>, v: uint32,
                                       d: nat, n: nat)
    requires Usable(c) && Kept(t) && t.free > 0 && Ahead(t, v, d) && 1 <= d && d + n + 1 < TWO32
    requires forall m :: 0 <= m < n ==> CallRefused(c, scripts, t, rs, v, m)
    ensures var u := AfterCalls(c, scripts, t, rs, n); Kept(u) && u.free > 0 && Ahead(u, v, d + n)
    ensures forall m :: 0 <= m < n ==> CallFails(c, scripts, t, rs, m)
    decreases n
  {
    hide Kept, Call, Ahead, AfterCalls, CallRefused, CallFails;
    if n == 0 {
      assert AfterCalls(c, scripts, t, rs, 0) == t by { NoCalls(c, scripts, t, rs); }
    } else {
      WedgedCalls(c, scripts, t, rs, v, d, n - 1);
      OneMoreFails(c, scripts, t, rs, v, d + n - 1, n - 1);
    }
  }

  lemma NoCalls(c: Config, scripts: nat -> (nat -> Attempt), t: Table, rs: seq<Res>)
    requires Usable(c)
    ensures AfterCalls(c, scripts, t, rs, 0) == t
  {}

  lemma OneMoreFails(c: Config, scripts: nat -> (nat -> Attempt), t: Table, rs: seq<Res>, v: uint32, d: nat, m: nat)
    requires Usable(c) && 1 <= d && d + 1 < TWO32 && CallRefused(c, scripts, t, rs, v, m)
    requires var u := AfterCalls(c, scripts, t, rs, m); Kept(u) && u.free > 0 && Ahead(u, v, d)
    ensures CallFails(c, scripts, t, rs, m)
    ensures var u := AfterCalls(c, scripts, t, rs, m + 1); Kept(u) && u.free > 0 && Ahead(u, v, d + 1)
  {
    hide Kept, Call, Ahead, Came, RefusesMisordered;
    var u := AfterCalls(c, scripts, t, rs, m);
    WedgedCall(c, scripts(m), u, rs, v, d);
    CameTable(u, 1, Call(c, scripts(m), u, rs).1);
  }
}
