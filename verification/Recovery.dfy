/** What becomes of a slot whose client has gone ahead of the server: when it can come back in step, and
    when it is lost. */
module Recovery {
  import opened Machine
  import opened Slots
  import opened Lockstep
  import opened Scenarios

  predicate InFlight(s: Sys, i: nat, n: nat) {
    exists k :: 0 <= k < |s.late| && s.late[k].slotID == i && s.late[k].num == n
  }

  /** Any steps of the system from ss[0] on, delays timely, within 2^32 uses of slot i. */
  predicate Onward(ss: seq<Sys>, acts: seq<Action>, i: nat) {
    && |ss| == |acts| + 1 && i < |ss[0].exec|
    && (forall j :: 0 <= j < |acts| ==>
          Shape(ss[j]) && Enabled(ss[j], acts[j]) && ss[j + 1] == Next(ss[j], acts[j]) && Timely(ss[j], acts[j]))
    && (forall j :: 0 <= j < |ss| ==> i < |ss[j].done| && ss[j].done[i] + 1 < ss[0].exec[i] + TWO32)
  }

  // ---- Lost ----

  /** The server still waits for number n, or for one before it; the client has finished with it; and no
      request that carries it is on its way. */
  predicate Missing(s: Sys, i: nat, n: nat) {
    i < |s.done| && i < |s.exec| && s.exec[i] < n <= s.done[i] && !InFlight(s, i, n)
  }

  /** Of the delayed requests on a slot left behind, the server executes only the one it expects. */
  lemma ExecutesExpected(s: Sys, k: nat, c: Choice)
    requires Inv(s) && k < |s.late| && Timely(s, DeliverLate(k, c))
    requires var i := s.late[k].slotID; s.done[i] + 1 < s.exec[i] + TWO32
    ensures var m := s.late[k];
      Serve(s.last[m.slotID], s.cached[m.slotID], m.seqID, c).Executed? ==> m.num == s.exec[m.slotID] + 1
  {
    hide Balanced, Bump, Leases;
    var m := s.late[k];
    var e := s.exec[m.slotID];
    BumpMod(e);
    if m.num >= e + 1 { CloseMod(e + 1, m.num); } else { CloseMod(m.num, e + 1); }
  }

  /** And no request a client waits on there. */
  lemma RefusesAwaited(s: Sys, t: nat, c: Choice)
    requires Inv(s) && Enabled(s, Deliver(t, c))
    requires var i := s.threads[t].lease.slotID; s.exec[i] < s.done[i] && s.done[i] + 1 < s.exec[i] + TWO32
    ensures var l := s.threads[t].lease;
      var v := Serve(s.last[l.slotID], s.cached[l.slotID], l.seqID, c);
      !v.Executed? && (c.Process? ==> v == Refused)
  {
    hide Balanced, Bump;
    var l := s.threads[t].lease;
    var e := s.exec[l.slotID];
    assert LeaseOk(s, t);
    BumpMod(e);
    CloseMod(e + 1, s.threads[t].num);
    CloseMod(e, s.threads[t].num);
  }

  lemma MissingStep(s: Sys, a: Action, i: nat, n: nat)
    requires Inv(s) && Enabled(s, a) && Timely(s, a) && Missing(s, i, n) && s.done[i] + 1 < s.exec[i] + TWO32
    ensures Missing(Next(s, a), i, n) && Next(s, a).exec[i] >= s.exec[i]
    ensures a.Deliver? && s.threads[a.t].lease.slotID == i && a.choice.Process? ==>
              Next(s, a).threads[a.t].answer == Some(Refused)
  {
    hide Balanced, Bump, Serve, Numbers;
    if !a.DeliverLate? { assert LeaseOk(s, a.t); }
    if a.Deliver? && s.threads[a.t].lease.slotID == i { RefusesAwaited(s, a.t, a.choice); }
    if a.DeliverLate? && s.late[a.k].slotID == i { ExecutesExpected(s, a.k, a.choice); }
    var u := Next(s, a);
    forall k | 0 <= k < |u.late| && u.late[k].slotID == i ensures u.late[k].num != n {
      if a.DeliverLate? { assert u.late[k] == s.late[if k < a.k then k else k + 1]; }
    }
  }

  /** A slot that misses a number is lost: in every continuation it is never in step again, and the server
      refuses every request on it that a client waits for. */
  lemma {:induction false} LostForever(ss: seq<Sys>, acts: seq<Action>, i: nat, n: nat, j: nat)
    requires Onward(ss, acts, i) && Inv(ss[0]) && Missing(ss[0], i, n) && j < |ss|
    ensures Inv(ss[j]) && Missing(ss[j], i, n) && ss[j].exec[i] >= ss[0].exec[i] && !InStep(ss[j], i)
    ensures j < |acts| && acts[j].Deliver? && ss[j].threads[acts[j].t].lease.slotID == i && acts[j].choice.Process? ==>
              ss[j + 1].threads[acts[j].t].answer == Some(Refused)
  {
    hide Inv, InFlight, Next, Timely;
    if j > 0 {
      LostForever(ss, acts, i, n, j - 1);
      InvStep(ss[j - 1], acts[j - 1]);
      MissingStep(ss[j - 1], acts[j - 1], i, n);
    }
    if j < |acts| { MissingStep(ss[j], acts[j], i, n); }
  }

  // ---- Recovered ----

  /** The request the server expects arrives after all. */
  lemma ArrivesAfterAll(s: Sys, k: nat)
    requires Inv(s) && k < |s.late| && s.late[k].num == s.exec[s.late[k].slotID] + 1
    ensures var a := DeliverLate(k, Process); var i := s.late[k].slotID;
      && Enabled(s, a) && Timely(s, a)
      && var u := Next(s, a);
         && u.done == s.done && u.exec == s.exec[i := s.exec[i] + 1]
         && forall n :: n != s.exec[i] + 1 && InFlight(s, i, n) ==> InFlight(u, i, n)
  {
    hide Balanced, Bump, Leases;
    var i := s.late[k].slotID;
    BumpMod(s.exec[i]);
    var u := Next(s, DeliverLate(k, Process));
    forall n | n != s.exec[i] + 1 && InFlight(s, i, n) ensures InFlight(u, i, n) {
      var h :| 0 <= h < |s.late| && s.late[h].slotID == i && s.late[h].num == n;
      assert u.late[if h < k then h else h - 1] == s.late[h];
    }
  }

  lemma {:induction false} Recovers(s: Sys, i: nat) returns (ss: seq<Sys>, acts: seq<Action>)
    requires Inv(s) && i < |s.done| && s.exec[i] <= s.done[i] && s.done[i] + 1 < s.exec[i] + TWO32
    requires forall n :: s.exec[i] < n <= s.done[i] ==> InFlight(s, i, n)
    ensures Onward(ss, acts, i) && ss[0] == s && InStep(ss[|acts|], i)
    ensures forall j :: 0 <= j < |ss| ==> ss[j].done == s.done
    decreases s.done[i] - s.exec[i]
  {
    hide Next, Timely, Balanced, Leases, Numbers;
    if s.exec[i] == s.done[i] {
      ss, acts := [s], [];
    } else {
      assert InFlight(s, i, s.exec[i] + 1);
      var k :| 0 <= k < |s.late| && s.late[k].slotID == i && s.late[k].num == s.exec[i] + 1;
      ArrivesAfterAll(s, k);
      var a := DeliverLate(k, Process);
      InvStep(s, a);
      ss, acts := Recovers(Next(s, a), i);
      ss, acts := [s] + ss, [a] + acts;
    }
  }

  /** A slot whose client is ahead of the server can come back in step, in some continuation, if and only if
      every request the server has not executed and the client has finished with is still in flight. */
  lemma RecoverableIff(s: Sys, i: nat)
    requires Inv(s) && i < |s.done| && s.exec[i] < s.done[i] && s.done[i] + 1 < s.exec[i] + TWO32
    ensures (forall n :: s.exec[i] < n <= s.done[i] ==> InFlight(s, i, n))
       <==> exists ss, acts :: Onward(ss, acts, i) && ss[0] == s && InStep(ss[|acts|], i)
  {
    hide Balanced, Leases, Numbers, InFlight, InStep, Next, Timely, Enabled;
    if forall n :: s.exec[i] < n <= s.done[i] ==> InFlight(s, i, n) {
      var ss, acts := Recovers(s, i);
    } else {
      var n :| s.exec[i] < n <= s.done[i] && !InFlight(s, i, n);
      forall ss, acts | Onward(ss, acts, i) && ss[0] == s ensures !InStep(ss[|acts|], i) {
        LostForever(ss, acts, i, n, |acts|);
      }
    }
  }

  /** Such a slot is reached: a request delayed and given up on, then refused at SEQUENCE when sent again. */
  lemma SkippedWithRequestInFlight() returns (ss: seq<Sys>, acts: seq<Action>)
    ensures ss != [] && Run(ss, acts) && |End(ss).done| == |End(ss).exec| == 1
    ensures End(ss).exec[0] == 0 && End(ss).done[0] == 1 && InFlight(End(ss), 0, 1)
  {
    hide Run, TakeSlot, Inv;
    StartRun(1, 1);
    ss, acts := [Init(1, 1)], [];
    TakesFirst(End(ss).table);
    ss, acts := Acquires(ss, acts, 0);
    RunInv(ss, acts, |ss| - 1);
    InvShape(End(ss));
    ss, acts := ExtendRun(ss, acts, Send(0, 0));
    ss, acts := Drops(ss, acts, 0);
    hide Next;
    assert End(ss).late == [Msg(0, 1, 1, 0)];
    TakesFirst(End(ss).table);
    ss, acts := Acquires(ss, acts, 0);
    ss, acts := FinishesRefused(ss, acts, 0, 0);
    assert End(ss).late[0].num == 1;
  }
}
