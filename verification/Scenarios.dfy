/** Runs that show what the slot table does not promise, built step by step from a new session. */
module Scenarios {
  import opened Machine
  import opened Slots
  import opened Lockstep

  // ---- Building runs ----

  function End(ss: seq<Sys>): Sys
    requires ss != []
  {
    ss[|ss| - 1]
  }

  lemma StartRun(n: nat, k: nat)
    requires n >= 1
    ensures Run([Init(n, k)], []) && End([Init(n, k)]) == Init(n, k)
  {}

  lemma ExtendRun(ss: seq<Sys>, acts: seq<Action>, a: Action) returns (ss': seq<Sys>, acts': seq<Action>)
    requires Run(ss, acts) && Shape(End(ss)) && Enabled(End(ss), a)
    ensures Run(ss', acts') && ss' == ss + [Next(End(ss), a)] && acts' == acts + [a]
  {
    hide Next, Init, Shape, Enabled;
    ss', acts' := ss + [Next(End(ss), a)], acts + [a];
  }

  /** A client that is idle takes a token and the first free slot. */
  lemma Acquires(ss: seq<Sys>, acts: seq<Action>, t: nat) returns (ss': seq<Sys>, acts': seq<Action>)
    requires Run(ss, acts) && t < |End(ss).threads| && End(ss).threads[t].Idle? && End(ss).table.free > 0
    ensures ss' != [] && Run(ss', acts') && acts' == acts + [TakeToken(t), Scan(t)] && ss <= ss'
    ensures var s := End(ss);
      var (table, got) := TakeSlot(s.table.(free := s.table.free - 1));
      && got.Some? && got.value.slotID < |s.done|
      && End(ss') == s.(table := table, threads := s.threads[t := Leased(got.value, s.done[got.value.slotID] + 1)])
  {
    hide TakeSlot, Inv;
    var s := End(ss);
    RunInv(ss, acts, |ss| - 1);
    InvShape(s);
    ss', acts' := ExtendRun(ss, acts, TakeToken(t));
    RunInv(ss', acts', |ss'| - 1);
    var u := End(ss');
    InvShape(u);
    assert Enabled(u, Scan(t));
    ScanFinds(u, t);
    GrantInRange(u);
    ss', acts' := ExtendRun(ss', acts', Scan(t));
    assert u.threads[t := Idle] == s.threads;
  }

  lemma InvShape(s: Sys)
    requires Inv(s)
    ensures Shape(s)
  {}

  lemma GrantInRange(s: Sys)
    requires Shape(s) && TakeSlot(s.table).1.Some?
    ensures TakeSlot(s.table).1.value.slotID < |s.done|
  {}

  /** A client gives up on the slot it holds and returns the token; an unanswered request stays in flight. */
  lemma Drops(ss: seq<Sys>, acts: seq<Action>, t: nat) returns (ss': seq<Sys>, acts': seq<Action>)
    requires Run(ss, acts) && t < |End(ss).threads| && Holds(End(ss).threads[t])
    ensures ss' != [] && Run(ss', acts')
    ensures var s := End(ss); var pc := s.threads[t];
      && pc.lease.slotID < |s.table.slots|
      && var table := ClearSlot(s.table, pc.lease.slotID, false);
         var late := if pc.Waiting? && pc.answer.None?
                     then s.late + [Msg(pc.lease.slotID, pc.lease.seqID, pc.num, pc.req)] else s.late;
         End(ss') == s.(table := table.(free := table.free + 1), threads := s.threads[t := Idle], late := late)
  {
    hide ClearSlot, Inv;
    var s := End(ss);
    RunInv(ss, acts, |ss| - 1);
    InvShape(s);
    ss', acts' := ExtendRun(ss, acts, GiveUp(t, false));
    RunInv(ss', acts', |ss'| - 1);
    var u := End(ss');
    InvShape(u);
    ReturnNeverBlocks(u, t);
    ss', acts' := ExtendRun(ss', acts', Return(t));
    assert u.threads[t := Idle] == s.threads[t := Idle];
  }

  // ---- The reported highest slot ----

  /** Two clients used two slots and let go of both: the next lease is for slot 0 and reports slot 1,
      which is free. */
  lemma LeaseReportsFreeSlot()
    ensures exists ss: seq<Sys>, acts: seq<Action> ::
      && Run(ss, acts) && acts != [] && acts[|acts| - 1] == Scan(0) && |End(ss).threads| == 2
      && End(ss).threads[0] == Leased(Lease(0, 1, 1), 1) && End(ss).table.slots == [Slot(1, true), Slot(1, false)]
  {
    hide Run;
    StartRun(2, 2);
    var ss, acts := [Init(2, 2)], [];
    assert End(ss).threads == [Idle, Idle] && End(ss).table == Table([Slot(1, false), Slot(1, false)], 0, 2);
    TakesFirst(End(ss).table);
    ss, acts := Acquires(ss, acts, 0);
    assert End(ss).table == Table([Slot(1, true), Slot(1, false)], 0, 1);
    TakesSecond(End(ss).table);
    ss, acts := Acquires(ss, acts, 1);
    assert End(ss).table == Table([Slot(1, true), Slot(1, true)], 1, 0);
    ss, acts := Drops(ss, acts, 1);
    assert End(ss).table == Table([Slot(1, true), Slot(1, false)], 1, 1);
    ss, acts := Drops(ss, acts, 0);
    assert End(ss).table == Table([Slot(1, false), Slot(1, false)], 1, 2);
    TakesFirst(End(ss).table);
    ss, acts := Acquires(ss, acts, 0);
  }

  lemma TakesFirst(t: Table)
    requires |t.slots| >= 1 && !t.slots[0].inUse
    ensures forall n ::
      TakeSlot(t.(free := n))
        == (Table(t.slots[0 := t.slots[0].(inUse := true)], t.highest, n), Some(Lease(0, t.slots[0].next, t.highest)))
  {}

  lemma TakesSecond(t: Table)
    requires |t.slots| >= 2 && t.slots[0].inUse && !t.slots[1].inUse && t.highest == 0
    ensures forall n ::
      TakeSlot(t.(free := n))
        == (Table(t.slots[1 := t.slots[1].(inUse := true)], 1, n), Some(Lease(1, t.slots[1].next, 1)))
  {}

  // ---- A refused SEQUENCE ----

  /** One refused SEQUENCE on a new session, and the client finishes on it: the slot ends wedged. */
  lemma RefusalWedges() returns (ss: seq<Sys>, acts: seq<Action>)
    ensures Run(ss, acts) && acts == [TakeToken(0), Scan(0), Send(0, 0), Deliver(0, Refuse), Finish(0)]
    ensures |ss[4].threads| == 1 && ss[4].threads[0].Waiting? && ss[4].threads[0].answer == Some(Refused)
    ensures Wedged(End(ss), 0)
  {
    hide Run, Next;
    StartRun(1, 1);
    ss, acts := [Init(1, 1)], [];
    TakesFirst(End(ss).table);
    ss, acts := Acquires(ss, acts, 0);
    RunLength(ss, acts);
    ss, acts := FinishesRefused(ss, acts, 0, 0);
    RunLength(ss, acts);
  }

  /** Send, be refused, finish: the client's count goes up, the server's does not. */
  lemma FinishesRefused(ss: seq<Sys>, acts: seq<Action>, t: nat, req: nat) returns (ss': seq<Sys>, acts': seq<Action>)
    requires Run(ss, acts) && t < |End(ss).threads| && End(ss).threads[t].Leased?
    ensures Run(ss', acts') && acts' == acts + [Send(t, req), Deliver(t, Refuse), Finish(t)] && |ss'| == |ss| + 3
    ensures var s, u := End(ss), ss'[|ss| + 1]; var pc := s.threads[t];
      u == s.(threads := s.threads[t := Waiting(pc.lease, pc.num, req, Some(Refused))])
    ensures var s := End(ss); var i := s.threads[t].lease.slotID;
      i < |s.done| && End(ss').done == s.done[i := s.done[i] + 1] && End(ss').exec == s.exec && End(ss').late == s.late
  {
    hide Inv;
    var s := End(ss);
    RunInv(ss, acts, |ss| - 1);
    InvShape(s);
    ss', acts' := ExtendRun(ss, acts, Send(t, req));
    RunInv(ss', acts', |ss'| - 1);
    InvShape(End(ss'));
    ss', acts' := ExtendRun(ss', acts', Deliver(t, Refuse));
    RunInv(ss', acts', |ss'| - 1);
    InvShape(End(ss'));
    ss', acts' := ExtendRun(ss', acts', Finish(t));
  }
}
