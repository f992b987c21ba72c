/** The session caller and the retrying caller as clients of the slot system: what they do to the table is
    a run of its steps, so what holds of every run holds of them. */
module Callers {
  import opened Machine
  import opened Ops
  import opened Slots
  import opened Requests
  import opened Scenarios
  import opened Sessions
  import opened Retry

  /** A client that holds a lease sends, is answered, finishes and returns the token. */
  lemma ComesBack(ss: seq<Sys>, acts: seq<Action>, t: nat, req: nat, c: Choice) returns (ss': seq<Sys>,
                  acts': seq<Action>)
    requires ss != [] && Run(ss, acts) && t < |End(ss).threads| && End(ss).threads[t].Leased?
    ensures Run(ss', acts') && ss <= ss' && acts' == acts + [Send(t, req), Deliver(t, c), Finish(t), Return(t)]
    ensures var s := End(ss); var i := s.threads[t].lease.slotID;
      i < |s.table.slots| && End(ss').table == Release(s.table, i, true) && End(ss').threads == s.threads[t := Idle]
  {
    hide Inv, ClearSlot, Serve, Run;
    ss', acts' := Steps(ss, acts, Send(t, req));
    ss', acts' := Steps(ss', acts', Deliver(t, c));
    ss', acts' := Steps(ss', acts', Finish(t));
    RunInv(ss', acts', |ss'| - 1);
    ReturnNeverBlocks(End(ss'), t);
    ss', acts' := Steps(ss', acts', Return(t));
  }

  /** Or sends, gives up and returns the token. */
  lemma GivesUp(ss: seq<Sys>, acts: seq<Action>, t: nat, req: nat, lost: bool) returns (ss': seq<Sys>,
                acts': seq<Action>)
    requires ss != [] && Run(ss, acts) && t < |End(ss).threads| && End(ss).threads[t].Leased?
    ensures Run(ss', acts') && ss <= ss' && acts' == acts + [Send(t, req), GiveUp(t, lost), Return(t)]
    ensures var s := End(ss); var i := s.threads[t].lease.slotID;
      i < |s.table.slots| && End(ss').table == Release(s.table, i, false) && End(ss').threads == s.threads[t := Idle]
  {
    hide Inv, ClearSlot, Serve, Run;
    ss', acts' := Steps(ss, acts, Send(t, req));
    ss', acts' := Steps(ss', acts', GiveUp(t, lost));
    RunInv(ss', acts', |ss'| - 1);
    ReturnNeverBlocks(End(ss'), t);
    ss', acts' := Steps(ss', acts', Return(t));
  }

  lemma Steps(ss: seq<Sys>, acts: seq<Action>, a: Action) returns (ss': seq<Sys>, acts': seq<Action>)
    requires ss != [] && Run(ss, acts) && Enabled(End(ss), a)
    ensures Run(ss', acts') && Shape(End(ss)) && ss' == ss + [Next(End(ss), a)] && acts' == acts + [a]
  {
    hide Inv, Next;
    RunInv(ss, acts, |ss| - 1);
    InvShape(End(ss));
    ss', acts' := ExtendRun(ss, acts, a);
  }

  /** The steps of one session call: none when it gets no slot. */
  function CallActions(t: nat, req: nat, c: Choice, lost: bool, sent: Option<Sent>): seq<Action> {
    if sent.None? then []
    else [TakeToken(t), Scan(t)]
         + if sent.value.returned then [Send(t, req), Deliver(t, c), Finish(t), Return(t)]
           else [Send(t, req), GiveUp(t, lost), Return(t)]
  }

  /** The lease client t sends under is the one recorded. */
  predicate SentUnder(s: Sys, t: nat, sent: Sent) {
    && t < |s.threads| && s.threads[t].Leased?
    && s.threads[t].lease == Lease(sent.slotID, sent.seqID, sent.highest)
  }

  /** From any reachable state a session call is that fragment of a run, whatever the server answers: it
      ends in the same table, the client idle again, everyone else where they were; and the request goes
      out under the slot and id the call records, which are what the server reads in it. */
  lemma SessionCallRuns(ss: seq<Sys>, acts: seq<Action>, t: nat, rs: seq<Res>, cancelled: bool, b: BaseOutcome,
                        r: Request, id: seq<byte>, req: nat, c: Choice, lost: bool)
    returns (ss': seq<Sys>, acts': seq<Action>)
    requires ss != [] && Run(ss, acts) && t < |End(ss).threads| && End(ss).threads[t].Idle?
    ensures Run(ss', acts') && ss <= ss' && |ss| == |acts| + 1
    ensures var (table, _, _, sent) := SessionCall(End(ss).table, rs, cancelled, b);
      && acts' == acts + CallActions(t, req, c, lost, sent)
      && End(ss').table == table && End(ss').threads == End(ss).threads
      && (sent.Some? ==> |acts| + 2 < |ss'| && SentUnder(ss'[|acts| + 2], t, sent.value))
      && (sent.Some? && RequestOk(r) && |r.ops| + 1 < TWO32 && |id| == SESSION_ID_LEN ==>
            var l := ss'[|acts| + 2].threads[t].lease;
            SeenAs(RequestBytes(RequestFor(r, id, sent.value)), r, id, l.seqID, l.slotID, l.highest))
  {
    hide Run, BaseCall, TakeSlot, Release, Next, SeenAs, RequestBytes, Wrapped, SequenceFor;
    var s := End(ss);
    RunLength(ss, acts);
    var sent := SessionCall(s.table, rs, cancelled, b).3;
    if sent.Some? && RequestOk(r) && |r.ops| + 1 < TWO32 && |id| == SESSION_ID_LEN {
      NamesLease(r, id, Lease(sent.value.slotID, sent.value.seqID, sent.value.highest));
    }
    if cancelled || s.table.free == 0 {
      ss', acts' := ss, acts;
      assert acts + [] == acts;
    } else {
      var mid, before := Acquires(ss, acts, t);
      RunLength(mid, before);
      assert mid[|acts| + 2] == End(mid);
      if sent.value.returned {
        ss', acts' := ComesBack(mid, before, t, req, c);
      } else {
        ss', acts' := GivesUp(mid, before, t, req, lost);
      }
      assert End(mid).threads[t := Idle] == s.threads;
    }
  }

  // ---- Whole calls ----

  /** What step a, taken in state s, sends. */
  function Sends(s: Sys, a: Action): seq<(nat, uint32)> {
    if a.Send? && a.t < |s.threads| && s.threads[a.t].Leased?
    then [(s.threads[a.t].lease.slotID, s.threads[a.t].lease.seqID)] else []
  }

  /** The slots and ids sent from step `from` on, in order. */
  function SendLog(ss: seq<Sys>, acts: seq<Action>, from: nat): seq<(nat, uint32)>
    requires |ss| > |acts|
    decreases |acts| - from
  {
    if |acts| <= from then [] else Sends(ss[from], acts[from]) + SendLog(ss, acts, from + 1)
  }

  function Pairs(sent: seq<Sent>): seq<(nat, uint32)> {
    seq(|sent|, j requires 0 <= j < |sent| => (sent[j].slotID, sent[j].seqID))
  }

  lemma {:induction false} SendLogJoins(ss: seq<Sys>, acts: seq<Action>, more: seq<Sys>, further: seq<Action>,
                                        from: nat)
    requires |ss| > |acts| && |more| > |further| && ss <= more && acts <= further && from <= |acts|
    ensures SendLog(more, further, from) == SendLog(ss, acts, from) + SendLog(more, further, |acts|)
    decreases |acts| - from
  {
    hide Sends;
    if from < |acts| {
      SendLogJoins(ss, acts, more, further, from + 1);
    } else {
      assert [] + SendLog(more, further, |acts|) == SendLog(more, further, |acts|);
    }
  }

  /** Only the third step of a session call sends. */
  lemma CallSends(ss: seq<Sys>, acts: seq<Action>, from: nat, t: nat, req: nat, c: Choice, lost: bool,
                  sent: Option<Sent>)
    requires |ss| > |acts| && from <= |acts| && acts[from..] == CallActions(t, req, c, lost, sent)
    requires sent.Some? ==> from + 2 < |acts| && SentUnder(ss[from + 2], t, sent.value)
    ensures SendLog(ss, acts, from) == Pairs(if sent.Some? then [sent.value] else [])
  {
    if sent.Some? {
      var rest := acts[from..];
      assert acts[from] == rest[0] == TakeToken(t) && acts[from + 1] == rest[1] == Scan(t);
      assert acts[from + 2] == rest[2] == Send(t, req);
      forall j | from + 3 <= j < |acts| ensures !acts[j].Send? { assert acts[j] == rest[j - from]; }
      hide CallActions, SentUnder;
      NoSends(ss, acts, from + 3);
      SkipsQuiet(ss, acts, from);
      SkipsQuiet(ss, acts, from + 1);
      SendsThen(ss, acts, from + 2, t, req, sent.value);
    }
  }

  lemma SkipsQuiet(ss: seq<Sys>, acts: seq<Action>, from: nat)
    requires |ss| > |acts| > from && !acts[from].Send?
    ensures SendLog(ss, acts, from) == SendLog(ss, acts, from + 1)
  {}

  lemma SendsThen(ss: seq<Sys>, acts: seq<Action>, from: nat, t: nat, req: nat, sent: Sent)
    requires |ss| > |acts| > from && acts[from] == Send(t, req) && SentUnder(ss[from], t, sent)
    ensures SendLog(ss, acts, from) == Pairs([sent]) + SendLog(ss, acts, from + 1)
  {}

  lemma {:induction false} NoSends(ss: seq<Sys>, acts: seq<Action>, from: nat)
    requires |ss| > |acts| && forall j :: from <= j < |acts| ==> !acts[j].Send?
    ensures SendLog(ss, acts, from) == []
    decreases |acts| - from
  {
    if from < |acts| { NoSends(ss, acts, from + 1); }
  }

  lemma AttemptRuns(s: Trace, a: Attempt, ss: seq<Sys>, acts: seq<Action>, t: nat, req: nat, c: Choice, lost: bool)
    returns (ss': seq<Sys>, acts': seq<Action>)
    requires ss != [] && Run(ss, acts)
    requires t < |End(ss).threads| && End(ss).threads[t].Idle? && s.table == End(ss).table
    ensures Run(ss', acts') && ss <= ss' && acts <= acts' && |ss'| == |acts'| + 1
    ensures var u := Attempted(s, a).0;
      && End(ss').table == u.table && End(ss').threads == End(ss).threads
      && s.sent <= u.sent && SendLog(ss', acts', |acts|) == Pairs(u.sent[|s.sent|..])
  {
    hide Run, SessionCall, CallActions, SendLog, Pairs;
    var sent := SessionCall(s.table, s.decoders, a.slotWaitCancelled, a.base).3;
    ss', acts' := SessionCallRuns(ss, acts, t, s.decoders, a.slotWaitCancelled, a.base, Request([], 0, []), [],
                                  req, c, lost);
    RunLength(ss', acts');
    assert acts'[|acts|..] == CallActions(t, req, c, lost, sent);
    CallLength(t, req, c, lost, sent);
    CallSends(ss', acts', |acts|, t, req, c, lost, sent);
    assert Attempted(s, a).0.sent[|s.sent|..] == if sent.Some? then [sent.value] else [];
  }

  lemma {:induction false} LoopRuns(c: Config, script: nat -> Attempt, k: nat, delay: int64, last: Option<CallResult>,
                                    s: Trace, ss: seq<Sys>, acts: seq<Action>, t: nat, req: nat, choices: nat -> Choice,
                                    lost: bool) returns (ss': seq<Sys>, acts': seq<Action>)
    requires k < c.maxAttempts && ss != [] && Run(ss, acts)
    requires t < |End(ss).threads| && End(ss).threads[t].Idle? && s.table == End(ss).table
    ensures Run(ss', acts') && ss <= ss' && acts <= acts' && |ss'| == |acts'| + 1
    ensures var u := Loop(c, script, k, delay, last, s).1;
      && End(ss').table == u.table && End(ss').threads == End(ss).threads
      && s.sent <= u.sent && SendLog(ss', acts', |acts|) == Pairs(u.sent[|s.sent|..])
    decreases c.maxAttempts - k
  {
    hide Run, Attempted, SendLog, Pairs, NextDelay, Retriable;
    var a := script(k);
    RunLength(ss, acts);
    ss', acts' := ss, acts;
    if a.ctxDone {
      NothingLogged(ss, acts, s.sent);
    } else {
      var (u, r) := Attempted(s, a);
      ss', acts' := AttemptRuns(s, a, ss, acts, t, req, choices(k), lost);
      if Retriable(r) && k < c.maxAttempts - 1 && !a.sleepCancelled {
        var mid, before, v := ss', acts', u.(slept := u.slept + [delay]);
        ss', acts' := LoopRuns(c, script, k + 1, NextDelay(c, delay), Some(r), v, mid, before, t, req, choices, lost);
        var w := Loop(c, script, k + 1, NextDelay(c, delay), Some(r), v).1;
        SendLogJoins(mid, before, ss', acts', |acts|);
        PairsJoin(s.sent, u.sent, w.sent);
      }
    }
  }

  lemma NothingLogged(ss: seq<Sys>, acts: seq<Action>, sent: seq<Sent>)
    requires |ss| > |acts|
    ensures SendLog(ss, acts, |acts|) == Pairs(sent[|sent|..])
  {}

  lemma CallLength(t: nat, req: nat, c: Choice, lost: bool, sent: Option<Sent>)
    ensures sent.Some? ==> |CallActions(t, req, c, lost, sent)| > 2
  {}

  lemma PairsJoin(a: seq<Sent>, b: seq<Sent>, c: seq<Sent>)
    requires a <= b <= c
    ensures Pairs(b[|a|..]) + Pairs(c[|b|..]) == Pairs(c[|a|..])
  {
    assert c[|a|..] == b[|a|..] + c[|b|..];
  }

  /** For every script and however the server answers, a retrying call made by an idle client in any
      reachable state is a run of the slot system: it ends in the table the call leaves, everyone else
      where they were, and what it sends are the slots and ids the call records. */
  lemma CallRuns(c: Config, script: nat -> Attempt, rs: seq<Res>, ss: seq<Sys>, acts: seq<Action>, t: nat, req: nat,
                 choices: nat -> Choice, lost: bool) returns (ss': seq<Sys>, acts': seq<Action>)
    requires Usable(c) && ss != [] && Run(ss, acts) && t < |End(ss).threads| && End(ss).threads[t].Idle?
    ensures Run(ss', acts') && ss <= ss' && acts <= acts' && |ss'| == |acts'| + 1
    ensures var u := Call(c, script, End(ss).table, rs).1;
      && End(ss').table == u.table && End(ss').threads == End(ss).threads
      && SendLog(ss', acts', |acts|) == Pairs(u.sent)
  {
    hide Run, Loop, SendLog;
    var s := Trace(End(ss).table, rs, [], []);
    ss', acts' := LoopRuns(c, script, 0, c.initial, None, s, ss, acts, t, req, choices, lost);
    var u := Call(c, script, End(ss).table, rs).1;
    assert u.sent[0..] == u.sent;
  }
}
