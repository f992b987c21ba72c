/** When the client's and the server's sequence ids stay in step, and what happens when not. */
module Lockstep {
  import opened Machine
  import opened Slots

  /** The server has executed as many requests on the slot as the client has finished, or one more:
      its last sequence id is the client's stored one less one, or the stored one. */
  predicate InStep(s: Sys, i: nat) {
    i < |s.done| && i < |s.exec| && (s.exec[i] == s.done[i] || s.exec[i] == s.done[i] + 1)
  }

  predicate AllInStep(s: Sys) { forall i :: 0 <= i < |s.done| ==> InStep(s, i) }

  lemma InStepOnTheWire(s: Sys, i: nat)
    requires Inv(s) && InStep(s, i)
    ensures s.last[i] == s.table.slots[i].next || Bump(s.last[i]) == s.table.slots[i].next
  {
    BumpMod(s.exec[i]);
  }

  /** A request on an answered slot that the server took as new or as a replay has been executed. */
  predicate AnswersMeanExecuted(s: Sys)
    requires Shape(s)
  {
    forall t :: 0 <= t < |s.threads| ==>
      var pc := s.threads[t];
      pc.Waiting? && pc.answer.Some? && (pc.answer.value.Executed? || pc.answer.value.Replayed?) ==>
        s.exec[pc.lease.slotID] >= pc.num
  }

  /** The step that breaks lockstep: finishing on a reply that refuses the SEQUENCE, or carries none,
      for a request the server never executed. The client advances; the server has not. */
  predicate SkipsAhead(s: Sys, a: Action) {
    && a.Finish? && a.t < |s.threads| && s.threads[a.t].Waiting?
    && (s.threads[a.t].answer == Some(Refused) || s.threads[a.t].answer == Some(Bare))
    && s.threads[a.t].lease.slotID < |s.done| && s.threads[a.t].lease.slotID < |s.exec|
    && s.exec[s.threads[a.t].lease.slotID] == s.done[s.threads[a.t].lease.slotID]
  }

  /** A delayed request arrives before its slot has been used 2^32 more times. */
  predicate Timely(s: Sys, a: Action) {
    a.DeliverLate? && a.k < |s.late| && s.late[a.k].slotID < |s.exec| ==>
      s.exec[s.late[a.k].slotID] + 1 < s.late[a.k].num + TWO32
  }

  lemma CloseMod(a: nat, b: nat)
    requires a <= b < a + TWO32
    ensures a % TWO32 == b % TWO32 <==> a == b
  {
    assert b - a < TWO32;
  }

  /** In step, the server takes every request a client is waiting on as new or as a replay:
      it never sees a gap. */
  lemma NoGap(s: Sys, t: nat)
    requires Inv(s) && Enabled(s, Deliver(t, Process)) && InStep(s, s.threads[t].lease.slotID)
    ensures var l := s.threads[t].lease;
      Serve(s.last[l.slotID], s.cached[l.slotID], l.seqID, Process)
        == if s.exec[l.slotID] == s.done[l.slotID] then Executed else Replayed(s.cached[l.slotID])
  {
    assert LeaseOk(s, t);
    BumpMod(s.exec[s.threads[t].lease.slotID]);
  }

  /** Nor does a delayed one ever run ahead of it. */
  lemma NoLateGap(s: Sys, k: nat)
    requires Inv(s) && AllInStep(s) && k < |s.late|
    ensures s.late[k].num <= s.exec[s.late[k].slotID] + 1
  {
    assert InStep(s, s.late[k].slotID);
  }

  lemma AnswersStep(s: Sys, a: Action)
    requires Inv(s) && Enabled(s, a) && AllInStep(s) && AnswersMeanExecuted(s)
    ensures Shape(Next(s, a)) && AnswersMeanExecuted(Next(s, a))
  {
    ShapeStep(s, a);
    if a.Deliver? {
      var i := s.threads[a.t].lease.slotID;
      assert LeaseOk(s, a.t) && InStep(s, i);
      if a.choice.Process? { NoGap(s, a.t); }
    }
  }

  lemma FinishInStep(s: Sys, t: nat)
    requires Inv(s) && Enabled(s, Finish(t)) && AllInStep(s) && AnswersMeanExecuted(s) && !SkipsAhead(s, Finish(t))
    ensures var i := s.threads[t].lease.slotID; s.exec[i] == s.done[i] + 1
  {
    hide Balanced, Bump;
    var pc := s.threads[t];
    assert LeaseOk(s, t) && InStep(s, pc.lease.slotID);
    match pc.answer.value {
      case Executed => assert s.exec[pc.lease.slotID] >= pc.num;
      case Replayed(_) => assert s.exec[pc.lease.slotID] >= pc.num;
      case _ =>
    }
  }

  lemma LateInStep(s: Sys, k: nat, c: Choice)
    requires Inv(s) && k < |s.late| && InStep(s, s.late[k].slotID) && Timely(s, DeliverLate(k, c))
    ensures var m := s.late[k];
      Serve(s.last[m.slotID], s.cached[m.slotID], m.seqID, c).Executed? ==>
        s.exec[m.slotID] == s.done[m.slotID] && m.num == s.exec[m.slotID] + 1
  {
    hide Balanced, Bump;
    var m := s.late[k];
    BumpMod(s.exec[m.slotID]);
    CloseMod(m.num, s.exec[m.slotID] + 1);
  }

  lemma InStepStep(s: Sys, a: Action)
    requires Inv(s) && Enabled(s, a) && AllInStep(s) && AnswersMeanExecuted(s)
    requires Timely(s, a) && !SkipsAhead(s, a)
    ensures AllInStep(Next(s, a))
  {
    hide Balanced, Leases, Numbers, Bump, Serve;
    var r := Next(s, a);
    match a {
      case Deliver(t, c) =>
        if c.Process? { assert InStep(s, s.threads[t].lease.slotID); NoGap(s, t); }
        else { RefusalChangesNothing(s, s.threads[t].lease, c); }
      case Finish(t) => FinishInStep(s, t);
      case DeliverLate(k, c) => assert InStep(s, s.late[k].slotID); LateInStep(s, k, c);
      case _ =>
    }
    forall i | 0 <= i < |r.done| ensures InStep(r, i) { assert InStep(s, i); }
  }

  lemma RefusalChangesNothing(s: Sys, l: Lease, c: Choice)
    requires !c.Process? && l.slotID < |s.last| && l.slotID < |s.cached|
    ensures !Serve(s.last[l.slotID], s.cached[l.slotID], l.seqID, c).Executed?
  {}

  lemma {:induction false} InStepUntil(ss: seq<Sys>, acts: seq<Action>, j: nat)
    requires Run(ss, acts) && j < |ss|
    requires forall i :: 0 <= i < j ==> Timely(ss[i], acts[i]) && !SkipsAhead(ss[i], acts[i])
    ensures AllInStep(ss[j]) && Shape(ss[j]) && AnswersMeanExecuted(ss[j])
  {
    hide AllInStep, AnswersMeanExecuted, Inv, Timely, SkipsAhead;
    RunInv(ss, acts, j);
    if j == 0 {
      InStepAtStart(ss, acts);
    } else {
      InStepUntil(ss, acts, j - 1);
      RunInv(ss, acts, j - 1);
      AnswersStep(ss[j - 1], acts[j - 1]);
      InStepStep(ss[j - 1], acts[j - 1]);
    }
  }

  lemma InStepAtStart(ss: seq<Sys>, acts: seq<Action>)
    requires Run(ss, acts)
    ensures AllInStep(ss[0]) && Shape(ss[0]) && AnswersMeanExecuted(ss[0])
  {
    var n: nat, k: nat :| n >= 1 && ss[0] == Init(n, k);
  }

  /** In every run with losses and (timely) delays, the two sides are in step in every state if and
      only if no client ever finishes on a refused or missing SEQUENCE result for a request the
      server has not executed. */
  lemma InStepIff(ss: seq<Sys>, acts: seq<Action>)
    requires Run(ss, acts) && forall j :: 0 <= j < |acts| ==> Timely(ss[j], acts[j])
    ensures (forall j :: 0 <= j < |ss| ==> AllInStep(ss[j]))
       <==> (forall j :: 0 <= j < |acts| ==> !SkipsAhead(ss[j], acts[j]))
  {
    hide Timely, Inv, AllInStep, SkipsAhead;
    if forall j :: 0 <= j < |acts| ==> !SkipsAhead(ss[j], acts[j]) {
      forall j | 0 <= j < |ss| ensures AllInStep(ss[j]) { InStepUntil(ss, acts, j); }
    } else {
      var j :| 0 <= j < |acts| && SkipsAhead(ss[j], acts[j]);
      SkippingLeavesStep(ss[j], acts[j]);
      assert !AllInStep(ss[j + 1]);
    }
  }

  lemma SkippingLeavesStep(s: Sys, a: Action)
    requires Shape(s) && Enabled(s, a) && SkipsAhead(s, a)
    ensures !AllInStep(Next(s, a))
  {
    hide Bump;
    assert !InStep(Next(s, a), s.threads[a.t].lease.slotID);
  }

  /** No client finishes on a reply that refuses the SEQUENCE or carries none: what a client can see. */
  predicate NoneRefused(ss: seq<Sys>, acts: seq<Action>) {
    |ss| == |acts| + 1 && forall j :: 0 <= j < |acts| && acts[j].Finish? && acts[j].t < |ss[j].threads| ==>
      var pc := ss[j].threads[acts[j].t]; pc.Waiting? ==> pc.answer != Some(Refused) && pc.answer != Some(Bare)
  }

  /** What the server makes of a delayed request on a slot in step: it executes it exactly when it is the
      next one, answers it from its cache exactly when it is the last one, and refuses every older one. */
  lemma DelayedVerdict(s: Sys, k: nat)
    requires Inv(s) && k < |s.late| && InStep(s, s.late[k].slotID) && Timely(s, DeliverLate(k, Process))
    ensures var m := s.late[k]; var i := m.slotID;
      var v := Serve(s.last[i], s.cached[i], m.seqID, Process);
      && (v.Executed? <==> m.num == s.exec[i] + 1)
      && (v.Replayed? <==> m.num == s.exec[i])
      && (v.Refused? <==> m.num < s.exec[i])
  {
    hide Balanced, Bump;
    var m := s.late[k];
    BumpMod(s.exec[m.slotID]);
    CloseMod(m.num, s.exec[m.slotID] + 1);
    if m.num <= s.exec[m.slotID] { CloseMod(m.num, s.exec[m.slotID]); }
  }

  /** While no SEQUENCE a client finishes on is refused or missing: in every state the server's last id
      on each slot is the client's stored one or the one before, and every request a client still waits on
      is, when the server processes it, taken as new or as a replay; of the delayed ones the server
      executes only the next and refuses only those older than its last. Replies may be lost, requests lost
      or (timely) delayed. */
  lemma NoGapsUnlessRefused(ss: seq<Sys>, acts: seq<Action>, j: nat, i: nat)
    requires Run(ss, acts) && NoneRefused(ss, acts) && forall m :: 0 <= m < |acts| ==> Timely(ss[m], acts[m])
    requires j < |ss| && i < |ss[j].last| && i < |ss[j].table.slots|
    ensures ss[j].last[i] == ss[j].table.slots[i].next || Bump(ss[j].last[i]) == ss[j].table.slots[i].next
    ensures j < |acts| && acts[j].Deliver? && acts[j].choice.Process? ==>
              var v := ss[j + 1].threads[acts[j].t].answer; v.Some? && (v.value.Executed? || v.value.Replayed?)
    ensures j < |acts| && acts[j].DeliverLate? && acts[j].choice.Process? ==>
              var m, s := ss[j].late[acts[j].k], ss[j];
              m.slotID < |s.exec| && m.slotID < |s.last| && m.slotID < |s.cached|
              && (m.num == s.exec[m.slotID] + 1 <==> ss[j + 1].exec != s.exec)
              && (m.num < s.exec[m.slotID] <==> Serve(s.last[m.slotID], s.cached[m.slotID], m.seqID, Process).Refused?)
  {
    hide Bump, Balanced, Timely, Run, Serve;
    NoneSkip(ss, acts);
    InStepUntil(ss, acts, j);
    RunInv(ss, acts, j);
    assert InStep(ss[j], i);
    InStepOnTheWire(ss[j], i);
    if j < |acts| && acts[j].Deliver? && acts[j].choice.Process? {
      RunStep(ss, acts, j);
      assert InStep(ss[j], ss[j].threads[acts[j].t].lease.slotID);
      NoGap(ss[j], acts[j].t);
    }
    if j < |acts| && acts[j].DeliverLate? && acts[j].choice.Process? {
      RunStep(ss, acts, j);
      assert InStep(ss[j], ss[j].late[acts[j].k].slotID);
      DelayedVerdict(ss[j], acts[j].k);
    }
  }

  lemma NoneSkip(ss: seq<Sys>, acts: seq<Action>)
    requires NoneRefused(ss, acts)
    ensures forall j :: 0 <= j < |acts| ==> !SkipsAhead(ss[j], acts[j])
  {}

  /** A slot whose client count has passed the server's, with no request in flight that the server
      would still take. */
  predicate Wedged(s: Sys, i: nat) {
    && i < |s.done| && i < |s.exec|
    && s.done[i] > s.exec[i]
    && (forall k :: 0 <= k < |s.late| && s.late[k].slotID == i ==> s.late[k].num > s.exec[i] + 1)
  }

  lemma WedgedStep(s: Sys, a: Action, i: nat)
    requires Inv(s) && Enabled(s, a) && Wedged(s, i) && s.done[i] + 1 < s.exec[i] + TWO32
    ensures Wedged(Next(s, a), i) && Next(s, a).exec[i] == s.exec[i]
    ensures a.Deliver? && s.threads[a.t].lease.slotID == i && a.choice.Process? ==>
              Next(s, a).threads[a.t].answer == Some(Refused)
  {
    hide Balanced, Bump;
    var e := s.exec[i];
    if !a.DeliverLate? { assert LeaseOk(s, a.t); }
    BumpMod(e);
    if a.Deliver? && s.threads[a.t].lease.slotID == i {
      CloseMod(e + 1, s.threads[a.t].num);
      CloseMod(e, s.threads[a.t].num);
    }
    if a.DeliverLate? && s.late[a.k].slotID == i {
      CloseMod(e + 1, s.late[a.k].num);
      CloseMod(e, s.late[a.k].num);
    }
  }

  /** Advancing past a refused SEQUENCE does not free the slot, it loses it: from then on the server
      executes nothing on it and answers every request on it as misordered (within 2^32 uses). */
  lemma {:induction false} WedgedForever(ss: seq<Sys>, acts: seq<Action>, j: nat, m: nat, i: nat)
    requires Run(ss, acts) && j <= m < |ss| && Wedged(ss[j], i)
    requires forall k :: j <= k <= m ==> i < |ss[k].done| && ss[k].done[i] + 1 < ss[j].exec[i] + TWO32
    ensures Wedged(ss[m], i) && ss[m].exec[i] == ss[j].exec[i]
    ensures m < |acts| && acts[m].Deliver? && ss[m].threads[acts[m].t].lease.slotID == i && acts[m].choice.Process? ==>
              ss[m + 1].threads[acts[m].t].answer == Some(Refused)
    decreases m
  {
    hide Inv, Wedged, Run, Next;
    RunLength(ss, acts);
    RunInv(ss, acts, m);
    if m > j {
      WedgedForever(ss, acts, j, m - 1, i);
      RunInv(ss, acts, m - 1);
      RunStep(ss, acts, m - 1);
      WedgedStep(ss[m - 1], acts[m - 1], i);
    }
    if m < |acts| {
      RunStep(ss, acts, m);
      WedgedStep(ss[m], acts[m], i);
    }
  }

  lemma {:induction false} DoneGrows(ss: seq<Sys>, acts: seq<Action>, j: nat, m: nat, i: nat)
    requires Run(ss, acts) && j <= m < |ss| && i < |ss[j].done|
    ensures i < |ss[m].done| && ss[j].done[i] <= ss[m].done[i]
    decreases m
  {
    hide Bump, Serve;
    if m > j { DoneGrows(ss, acts, j, m - 1, i); }
  }

  /** In every interleaving, once a request on a slot has been finished (its base call returned
      without error), no later request on the slot carries the same sequence id, for the next
      2^32 - 1 uses of the slot. */
  lemma NeverResent(ss: seq<Sys>, acts: seq<Action>, j: nat, m: nat)
    requires Run(ss, acts) && j < m < |acts| && acts[j].Finish? && acts[m].Send?
    requires ss[j].threads[acts[j].t].lease.slotID == ss[m].threads[acts[m].t].lease.slotID
    requires ss[m].threads[acts[m].t].num < ss[j].threads[acts[j].t].num + TWO32
    ensures ss[j].threads[acts[j].t].num < ss[m].threads[acts[m].t].num
    ensures ss[j].threads[acts[j].t].lease.seqID != ss[m].threads[acts[m].t].lease.seqID
  {
    hide Bump, Balanced;
    var i := ss[j].threads[acts[j].t].lease.slotID;
    RunInv(ss, acts, j);
    RunInv(ss, acts, m);
    assert LeaseOk(ss[j], acts[j].t) && LeaseOk(ss[m], acts[m].t);
    DoneGrows(ss, acts, j + 1, m, i);
    CloseMod(ss[j].threads[acts[j].t].num, ss[m].threads[acts[m].t].num);
  }
}
