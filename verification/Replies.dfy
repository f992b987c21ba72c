/** Whose reply a client finishes on. A slot released by Retry goes to whichever client comes next, and
    its request goes out under the sequence id of the one given up on. */
module Replies {
  import opened Machine
  import opened Slots
  import opened Lockstep
  import opened Scenarios

  // ---- What the client can see: which requests went out under which id ----

  /** Step h sent request r as number n on slot i. */
  predicate SentAs(ss: seq<Sys>, acts: seq<Action>, h: nat, i: nat, n: nat, r: nat) {
    && h < |acts| && h < |ss| && acts[h].Send? && acts[h].req == r && acts[h].t < |ss[h].threads|
    && var pc := ss[h].threads[acts[h].t];
       pc.Leased? && pc.lease.slotID == i && pc.num == n
  }

  ghost predicate WasSent(ss: seq<Sys>, acts: seq<Action>, j: nat, i: nat, n: nat, r: nat) {
    exists h :: 0 <= h < j && SentAs(ss, acts, h, i, n, r)
  }

  /** Whatever is waited for, in flight, or answered from the server's cache was sent under that number. */
  ghost predicate Origins(ss: seq<Sys>, acts: seq<Action>, j: nat)
    requires j < |ss| && Shape(ss[j])
  {
    var s := ss[j];
    && (forall t :: 0 <= t < |s.threads| && s.threads[t].Waiting? ==>
          var pc := s.threads[t];
          && WasSent(ss, acts, j, pc.lease.slotID, pc.num, pc.req)
          && (pc.answer.Some? && pc.answer.value.Replayed? ==>
                WasSent(ss, acts, j, pc.lease.slotID, pc.num, pc.answer.value.of)))
    && (forall k :: 0 <= k < |s.late| ==> WasSent(ss, acts, j, s.late[k].slotID, s.late[k].num, s.late[k].req))
    && (forall i :: 0 <= i < |s.exec| && s.exec[i] >= 1 ==> WasSent(ss, acts, j, i, s.exec[i], s.cached[i]))
  }

  lemma StillSent(ss: seq<Sys>, acts: seq<Action>, j: nat)
    ensures forall i, n, r :: WasSent(ss, acts, j, i, n, r) ==> WasSent(ss, acts, j + 1, i, n, r)
  {}

  lemma OriginsStep(ss: seq<Sys>, acts: seq<Action>, j: nat)
    requires Run(ss, acts) && j < |acts| && Inv(ss[j]) && AllInStep(ss[j]) && Timely(ss[j], acts[j])
    requires Origins(ss, acts, j)
    ensures Shape(ss[j + 1]) && Origins(ss, acts, j + 1)
  {
    hide Run, WasSent, Balanced, Bump, Serve, Leases, Numbers;
    RunStep(ss, acts, j);
    var s, a := ss[j], acts[j];
    ShapeStep(s, a);
    StillSent(ss, acts, j);
    match a {
      case Send(t, req) =>
        assert WasSent(ss, acts, j + 1, s.threads[t].lease.slotID, s.threads[t].num, req) by {
          SendsNow(ss, acts, j);
        }
      case Deliver(t, c) => DeliveredNumber(s, t, c);
      case DeliverLate(k, c) =>
        assert InStep(s, s.late[k].slotID);
        LateInStep(s, k, c);
      case _ =>
    }
  }

  lemma SendsNow(ss: seq<Sys>, acts: seq<Action>, j: nat)
    requires Run(ss, acts) && j < |acts| && acts[j].Send?
    ensures var pc := ss[j].threads[acts[j].t]; WasSent(ss, acts, j + 1, pc.lease.slotID, pc.num, acts[j].req)
  {
    hide Next;
    assert SentAs(ss, acts, j, ss[j].threads[acts[j].t].lease.slotID, ss[j].threads[acts[j].t].num, acts[j].req);
  }

  /** In step, a request is executed as, or answered from the cache of, its own number. */
  lemma DeliveredNumber(s: Sys, t: nat, c: Choice)
    requires Inv(s) && Enabled(s, Deliver(t, c)) && AllInStep(s)
    ensures var pc := s.threads[t]; var i := pc.lease.slotID;
      var v := Serve(s.last[i], s.cached[i], pc.lease.seqID, c);
      && (v.Executed? ==> s.exec[i] + 1 == pc.num)
      && (v.Replayed? ==> s.exec[i] == pc.num && v.of == s.cached[i] && s.exec[i] >= 1)
  {
    hide Bump, Balanced;
    assert LeaseOk(s, t) && InStep(s, s.threads[t].lease.slotID);
    if c.Process? { NoGap(s, t); }
  }

  lemma {:induction false} OriginsUntil(ss: seq<Sys>, acts: seq<Action>, j: nat)
    requires Run(ss, acts) && j < |ss|
    requires forall i :: 0 <= i < j ==> Timely(ss[i], acts[i]) && !SkipsAhead(ss[i], acts[i])
    ensures Shape(ss[j]) && Origins(ss, acts, j)
  {
    hide Inv, Timely, SkipsAhead, AllInStep, Origins, Init;
    if j == 0 {
      var n: nat, k: nat :| n >= 1 && ss[0] == Init(n, k);
      OriginsAtStart(ss, acts, n, k);
    } else {
      OriginsUntil(ss, acts, j - 1);
      InStepUntil(ss, acts, j - 1);
      RunInv(ss, acts, j - 1);
      OriginsStep(ss, acts, j - 1);
    }
  }

  lemma OriginsAtStart(ss: seq<Sys>, acts: seq<Action>, n: nat, k: nat)
    requires |ss| > 0 && n >= 1 && ss[0] == Init(n, k)
    ensures Shape(ss[0]) && Origins(ss, acts, 0)
  {}

  /** Whenever a number is used again on its slot, it is for the same request. */
  ghost predicate OnlySameAgain(ss: seq<Sys>, acts: seq<Action>) {
    forall g, h, i, n, r, q :: SentAs(ss, acts, g, i, n, r) && SentAs(ss, acts, h, i, n, q) ==> r == q
  }

  /** In every run in step: if a sequence id given up on is only ever sent again with the same request,
      every reply from the server's cache is the reply to the request that receives it. */
  lemma RepliesAreOwn(ss: seq<Sys>, acts: seq<Action>, j: nat, t: nat)
    requires Run(ss, acts) && OnlySameAgain(ss, acts)
    requires forall i :: 0 <= i < |acts| ==> Timely(ss[i], acts[i]) && !SkipsAhead(ss[i], acts[i])
    requires j < |ss| && t < |ss[j].threads| && ss[j].threads[t].Waiting?
    ensures OwnAnswer(ss[j].threads[t])
  {
    hide Run, Timely, SkipsAhead;
    RunLength(ss, acts);
    OriginsUntil(ss, acts, j);
    assert forall i, n, q, r :: WasSent(ss, acts, j, i, n, q) && WasSent(ss, acts, j, i, n, r) ==> q == r;
  }

  predicate OwnAnswer(pc: Pc) {
    pc.Waiting? && pc.answer.Some? && pc.answer.value.Replayed? ==> pc.answer.value.of == pc.req
  }

  // ---- The exact condition ----

  /** Under the number slot i uses next the server has executed no other request, and will not: none is
      still on its way. */
  predicate Clear(s: Sys, i: nat, r: nat) {
    && i < |s.done| && i < |s.exec| && i < |s.cached|
    && if s.exec[i] == s.done[i] + 1 then s.cached[i] == r
       else forall k :: 0 <= k < |s.late| && s.late[k].slotID == i && s.late[k].num == s.done[i] + 1 ==>
              s.late[k].req == r
  }

  /** Steps of the system while client t holds its slot with request r: everyone else may do anything. */
  ghost predicate WhileWaiting(ss: seq<Sys>, acts: seq<Action>, t: nat, r: nat) {
    && |ss| == |acts| + 1 && acts != [] && acts[0] == Send(t, r)
    && (forall j :: 0 <= j < |acts| ==> Shape(ss[j]) && Enabled(ss[j], acts[j]) && ss[j + 1] == Next(ss[j], acts[j]))
    && (forall j :: 0 <= j < |acts| ==>
          Timely(ss[j], acts[j]) && acts[j] != Finish(t) && !(acts[j].GiveUp? && acts[j].t == t))
  }

  /** Client t waits with request r on slot i, which is clear of other requests. */
  predicate WaitsClear(s: Sys, t: nat, i: nat, r: nat) {
    && t < |s.threads| && s.threads[t].Waiting? && s.threads[t].lease.slotID == i && s.threads[t].req == r
    && InStep(s, i) && Clear(s, i, r) && OwnAnswer(s.threads[t])
  }

  lemma WaitsClearStep(s: Sys, a: Action, t: nat, i: nat, r: nat)
    requires Inv(s) && Enabled(s, a) && WaitsClear(s, t, i, r) && Timely(s, a)
    requires a != Finish(t) && !(a.GiveUp? && a.t == t)
    ensures WaitsClear(Next(s, a), t, i, r)
  {
    hide Balanced, Bump, Serve;
    var u := Next(s, a);
    SoleHolder(s, a, t);
    if a.Deliver? && a.t == t {
      if a.choice.Process? {
        NoGap(s, t);
      } else {
        RefusalChangesNothing(s, s.threads[t].lease, a.choice);
        NoReplay(s, s.threads[t].lease, a.choice);
      }
    } else if a.DeliverLate? && s.late[a.k].slotID == i {
      LateInStep(s, a.k, a.choice);
    }
  }

  lemma NoReplay(s: Sys, l: Lease, c: Choice)
    requires !c.Process? && l.slotID < |s.last| && l.slotID < |s.cached|
    ensures !Serve(s.last[l.slotID], s.cached[l.slotID], l.seqID, c).Replayed?
  {}

  /** Nobody else sends, finishes or gives up on the slot t holds. */
  lemma SoleHolder(s: Sys, a: Action, t: nat)
    requires Inv(s) && t < |s.threads| && Holds(s.threads[t]) && Enabled(s, a)
    ensures !a.DeliverLate? && a.t != t && Holds(s.threads[a.t]) ==>
              s.threads[a.t].lease.slotID != s.threads[t].lease.slotID
    ensures LeaseOk(s, t)
  {
    if !a.DeliverLate? && a.t != t && Holds(s.threads[a.t]) {
      assert HeldBy(s, s.threads[t].lease.slotID, t) && HeldBy(s, s.threads[a.t].lease.slotID, a.t);
    }
  }

  lemma {:induction false} WaitsClearUntil(ss: seq<Sys>, acts: seq<Action>, t: nat, r: nat, j: nat)
    requires WhileWaiting(ss, acts, t, r) && Inv(ss[0]) && 1 <= j < |ss|
    requires var i := ss[0].threads[t].lease.slotID; InStep(ss[0], i) && Clear(ss[0], i, r)
    ensures Inv(ss[j]) && WaitsClear(ss[j], t, ss[0].threads[t].lease.slotID, r)
  {
    hide Inv, WaitsClear, Clear, InStep, Timely;
    var i := ss[0].threads[t].lease.slotID;
    if j == 1 {
      InvStep(ss[0], acts[0]);
      SendKeepsClear(ss[0], t, i, r);
    } else {
      WaitsClearUntil(ss, acts, t, r, j - 1);
      InvStep(ss[j - 1], acts[j - 1]);
      WaitsClearStep(ss[j - 1], acts[j - 1], t, i, r);
    }
  }

  lemma SendKeepsClear(s: Sys, t: nat, i: nat, r: nat)
    requires Shape(s) && Enabled(s, Send(t, r)) && s.threads[t].lease.slotID == i && InStep(s, i) && Clear(s, i, r)
    ensures WaitsClear(Next(s, Send(t, r)), t, i, r)
  {}

  ghost predicate EndsOwn(ss: seq<Sys>,
                          t: nat) { ss != [] && (t < |End(ss).threads| ==> OwnAnswer(End(ss).threads[t])) }

  lemma WaitingChain(ss: seq<Sys>, acts: seq<Action>, t: nat, r: nat, a: Action)
    requires WhileWaiting(ss, acts, t, r) && Shape(End(ss)) && Enabled(End(ss), a) && Timely(End(ss), a)
    requires a != Finish(t) && !a.GiveUp?
    ensures WhileWaiting(ss + [Next(End(ss), a)], acts + [a], t, r)
  {
    hide Next, Shape, Enabled, Timely;
  }

  lemma SendChain(s: Sys, t: nat, r: nat)
    requires Shape(s) && Enabled(s, Send(t, r))
    ensures WhileWaiting([s, Next(s, Send(t, r))], [Send(t, r)], t, r)
  {
    hide Next, Shape, Enabled;
  }

  /** The request given up on arrives first: the server executes it and keeps its reply. */
  lemma LateTakesNumber(s: Sys, k: nat, i: nat)
    requires Inv(s) && k < |s.late| && s.late[k].slotID == i && s.exec[i] == s.done[i] && s.late[k].num == s.done[i] + 1
    ensures Timely(s, DeliverLate(k, Process)) && Enabled(s, DeliverLate(k, Process))
    ensures var u := Next(s, DeliverLate(k, Process));
      u.exec[i] == s.done[i] + 1 && u.cached[i] == s.late[k].req && u.done == s.done && u.threads == s.threads
  {
    hide Bump, Balanced, Leases;
    BumpMod(s.exec[i]);
  }

  /** With the number already executed, the client that waits on it is answered from the cache. */
  lemma CachedAnswer(s: Sys, t: nat)
    requires Inv(s) && Enabled(s, Deliver(t, Process))
    requires var i := s.threads[t].lease.slotID; s.exec[i] == s.done[i] + 1
    ensures t < |Next(s, Deliver(t, Process)).threads|
    ensures Next(s, Deliver(t, Process)).threads[t]
         == s.threads[t].(answer := Some(Replayed(s.cached[s.threads[t].lease.slotID])))
  {
    hide Bump, Balanced, Serve;
    NoGap(s, t);
  }

  lemma ForeignContinuation(s: Sys, t: nat, r: nat) returns (ss: seq<Sys>, acts: seq<Action>)
    requires Inv(s) && t < |s.threads| && s.threads[t].Leased?
    requires var i := s.threads[t].lease.slotID; InStep(s, i) && !Clear(s, i, r)
    ensures WhileWaiting(ss, acts, t, r) && ss != [] && ss[0] == s && !EndsOwn(ss, t)
  {
    hide Inv, Next, WhileWaiting;
    var i := s.threads[t].lease.slotID;
    InvShape(s);
    InvStep(s, Send(t, r));
    var u := Next(s, Send(t, r));
    SendChain(s, t, r);
    SendOnly(s, t, r);
    ss, acts := [s, u], [Send(t, r)];
    if s.exec[i] == s.done[i] {
      var k :| 0 <= k < |s.late| && s.late[k].slotID == i && s.late[k].num == s.done[i] + 1 && s.late[k].req != r;
      LateTakesNumber(u, k, i);
      InvShape(u);
      InvStep(u, DeliverLate(k, Process));
      WaitingChain(ss, acts, t, r, DeliverLate(k, Process));
      u := Next(u, DeliverLate(k, Process));
      ss, acts := ss + [u], acts + [DeliverLate(k, Process)];
    }
    InvShape(u);
    CachedAnswer(u, t);
    WaitingChain(ss, acts, t, r, Deliver(t, Process));
    ss, acts := ss + [Next(u, Deliver(t, Process))], acts + [Deliver(t, Process)];
  }

  lemma SendOnly(s: Sys, t: nat, r: nat)
    requires Shape(s) && Enabled(s, Send(t, r))
    ensures Next(s, Send(t, r)) == s.(threads := s.threads[t := Waiting(s.threads[t].lease, s.threads[t].num, r, None)])
  {}

  /** A client about to send never gets the reply kept for another request, in any continuation, whatever the
      others, the server and the network do, if and only if the number it sends under is clear of other
      requests. (A client cannot see that; what it can go by is in Unseen.SureIff.) */
  lemma OwnReplyIff(s: Sys, t: nat, r: nat)
    requires Inv(s) && t < |s.threads| && s.threads[t].Leased? && InStep(s, s.threads[t].lease.slotID)
    ensures Clear(s, s.threads[t].lease.slotID, r)
       <==> forall ss, acts :: WhileWaiting(ss, acts, t, r) && ss != [] && ss[0] == s ==> EndsOwn(ss, t)
  {
    hide Inv, WaitsClear, Clear, InStep, WhileWaiting;
    if Clear(s, s.threads[t].lease.slotID, r) {
      forall ss, acts | WhileWaiting(ss, acts, t, r) && ss != [] && ss[0] == s ensures EndsOwn(ss, t) {
        EndsClear(ss, acts, t, r);
      }
    } else {
      var ss, acts := ForeignContinuation(s, t, r);
    }
  }

  lemma EndsClear(ss: seq<Sys>, acts: seq<Action>, t: nat, r: nat)
    requires WhileWaiting(ss, acts, t, r) && Inv(ss[0])
    requires var i := ss[0].threads[t].lease.slotID; InStep(ss[0], i) && Clear(ss[0], i, r)
    ensures EndsOwn(ss, t)
  {
    hide Inv;
    WaitsClearUntil(ss, acts, t, r, |ss| - 1);
  }

  /** It does happen: a client whose reply was lost gives up, and the next request on the slot finishes
      on the reply to that one. */
  lemma ForeignReply() returns (ss: seq<Sys>, acts: seq<Action>)
    ensures Run(ss, acts) && acts != [] && acts[|acts| - 1] == Finish(0) && |ss[|acts| - 1].threads| == 1
    ensures ss[|acts| - 1].threads[0] == Waiting(Lease(0, 1, 0), 1, 2, Some(Replayed(1)))
  {
    hide Run, Next, TakeSlot, Inv, Shape;
    ss, acts := ExecutedThenGivenUp();
    TakesFirst(End(ss).table);
    ss, acts := Acquires(ss, acts, 0);
    assert End(ss).threads == [Leased(Lease(0, 1, 0), 1)];
    ss, acts := Delivers(ss, acts, 0, 2);
    assert End(ss).threads == [Waiting(Lease(0, 1, 0), 1, 2, Some(Replayed(1)))];
    RunInv(ss, acts, |ss| - 1);
    InvShape(End(ss));
    RunLength(ss, acts);
    ss, acts := ExtendRun(ss, acts, Finish(0));
    RunLength(ss, acts);
  }

  lemma ExecutedThenGivenUp() returns (ss: seq<Sys>, acts: seq<Action>)
    ensures ss != [] && Run(ss, acts)
    ensures End(ss) == Sys(Table([Slot(1, false)], 0, 1), [Idle], [1], [1], [], [0], [1])
  {
    hide Run, Next, TakeSlot;
    StartRun(1, 1);
    ss, acts := [Init(1, 1)], [];
    assert End(ss) == Sys(Table([Slot(1, false)], 0, 1), [Idle], [0], [0], [], [0], [0]);
    TakesFirst(End(ss).table);
    ss, acts := Acquires(ss, acts, 0);
    ss, acts := Delivers(ss, acts, 0, 1);
    ss, acts := Drops(ss, acts, 0);
  }

  /** Send, and the server processes the request. */
  lemma Delivers(ss: seq<Sys>, acts: seq<Action>, t: nat, req: nat) returns (ss': seq<Sys>, acts': seq<Action>)
    requires ss != [] && Run(ss, acts) && t < |End(ss).threads| && End(ss).threads[t].Leased?
    requires InStep(End(ss), End(ss).threads[t].lease.slotID)
    ensures ss' != [] && Run(ss', acts')
    ensures var s := End(ss); var pc := s.threads[t]; var i := pc.lease.slotID;
      && i < |s.cached| && i < |s.last|
      && var new_ := s.exec[i] == s.done[i];
         var v := if new_ then Executed else Replayed(s.cached[i]);
         End(ss') == s.(threads := s.threads[t := Waiting(pc.lease, pc.num, req, Some(v))],
                        last := if new_ then s.last[i := pc.lease.seqID] else s.last,
                        cached := if new_ then s.cached[i := req] else s.cached,
                        exec := if new_ then s.exec[i := s.exec[i] + 1] else s.exec)
  {
    hide Inv, Run, Serve;
    var s := End(ss);
    RunInv(ss, acts, |ss| - 1);
    InvShape(s);
    ss', acts' := ExtendRun(ss, acts, Send(t, req));
    RunInv(ss', acts', |ss'| - 1);
    var u := End(ss');
    InvShape(u);
    NoGap(u, t);
    ss', acts' := ExtendRun(ss', acts', Deliver(t, Process));
  }
}
