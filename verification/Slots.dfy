/** The NFSv4.1 session slot table as a step system: any number of clients, each atomic step of
    acquiring and releasing a slot on its own, and a server that keeps one sequence id per slot
    (section 2.10.6.1 and section 18.46 of RFC 8881) behind a network that loses and delays. */
module Slots {
  import opened Machine

  // ---- The table ----

  datatype Slot = Slot(next: uint32, inUse: bool)

  datatype Lease = Lease(slotID: nat, seqID: uint32, highest: nat)

  /** `free` counts the tokens left in the semaphore channel. */
  datatype Table = Table(slots: seq<Slot>, highest: nat, free: nat)

  function Bump(v: uint32): uint32 { (v + 1) % TWO32 }

  /** The first free slot from i on, or the number of slots. */
  function FirstFree(slots: seq<Slot>, i: nat): (k: nat)
    requires i <= |slots|
    ensures i <= k <= |slots|
    ensures k < |slots| ==> !slots[k].inUse
    ensures forall j :: i <= j < k ==> slots[j].inUse
    decreases |slots| - i
  {
    if i == |slots| || !slots[i].inUse then i else FirstFree(slots, i + 1)
  }

  /** The locked half of acquiring: take the first free slot, if there is one. */
  function TakeSlot(t: Table): (Table, Option<Lease>) {
    var i := FirstFree(t.slots, 0);
    if i == |t.slots| then (t, None)
    else
      var hi := if i > t.highest then i else t.highest;
      (Table(t.slots[i := t.slots[i].(inUse := true)], hi, t.free), Some(Lease(i, t.slots[i].next, hi)))
  }

  /** The locked half of releasing. */
  function ClearSlot(t: Table, i: nat, advance: bool): Table
    requires i < |t.slots|
  {
    var n := if advance then Bump(t.slots[i].next) else t.slots[i].next;
    t.(slots := t.slots[i := Slot(n, false)])
  }

  // ---- The server ----

  /** A replay carries the reply the server kept, which is the one to request `of`. */
  datatype Verdict = Executed | Replayed(of: nat) | Refused | Bare

  /** What the server does with a request: follow the protocol, refuse the SEQUENCE for some
      reason of its own, or answer without any SEQUENCE result. */
  datatype Choice = Process | Refuse | AnswerBare

  function Serve(last: uint32, cached: nat, seqID: uint32, c: Choice): Verdict {
    match c
    case Refuse => Refused
    case AnswerBare => Bare
    case Process => if seqID == Bump(last) then Executed else if seqID == last then Replayed(cached) else Refused
  }

  // ---- The system ----

  /** Where a client is between the atomic steps. `num` is its request's place in the history of the
      slot, counted without wrapping; `req` tells what it asks for. */
  datatype Pc =
    | Idle
    | HasToken
    | Leased(lease: Lease, num: nat)
    | Waiting(lease: Lease, num: nat, req: nat, answer: Option<Verdict>)
    | Owing

  predicate Holds(pc: Pc) { pc.Leased? || pc.Waiting? }

  datatype Msg = Msg(slotID: nat, seqID: uint32, num: nat, req: nat)

  /** `last` and `cached` are the server's: per slot the sequence id it executed last and the request
      whose reply it keeps. `late` holds requests whose client has given up on them. `done` and `exec`
      are history: how many requests per slot the client has finished and the server has executed. */
  datatype Sys = Sys(table: Table, threads: seq<Pc>, last: seq<uint32>, cached: seq<nat>, late: seq<Msg>,
                     done: seq<nat>, exec: seq<nat>)

  function Init(slots: nat, threads: nat): Sys
    requires slots >= 1
  {
    Sys(Table(seq(slots, _ => Slot(1, false)), 0, slots), seq(threads, _ => Idle),
        seq(slots, _ => 0), seq(slots, _ => 0), [], seq(slots, _ => 0), seq(slots, _ => 0))
  }

  datatype Action =
    | TakeToken(t: nat)
    | Scan(t: nat)
    | Send(t: nat, req: nat)
    | Deliver(t: nat, choice: Choice)
    | Finish(t: nat)
    | GiveUp(t: nat, lost: bool)
    | Return(t: nat)
    | DeliverLate(k: nat, choice: Choice)

  predicate Enabled(s: Sys, a: Action) {
    match a
    case TakeToken(t) => t < |s.threads| && s.threads[t].Idle? && s.table.free > 0
    case Scan(t) => t < |s.threads| && s.threads[t].HasToken?
    case Send(t, _) => t < |s.threads| && s.threads[t].Leased?
    case Deliver(t, _) => t < |s.threads| && s.threads[t].Waiting? && s.threads[t].answer.None?
    case Finish(t) => t < |s.threads| && s.threads[t].Waiting? && s.threads[t].answer.Some?
    case GiveUp(t, _) => t < |s.threads| && Holds(s.threads[t])
    case Return(t) => t < |s.threads| && s.threads[t].Owing? && s.table.free < |s.table.slots|
    case DeliverLate(k, _) => k < |s.late|
  }

  function Served(s: Sys, i: nat, seqID: uint32, req: nat, c: Choice): (Sys, Verdict)
    requires i < |s.last| && i < |s.cached| && i < |s.exec|
  {
    var v := Serve(s.last[i], s.cached[i], seqID, c);
    (if v.Executed?
     then s.(last := s.last[i := seqID], cached := s.cached[i := req], exec := s.exec[i := s.exec[i] + 1])
     else s, v)
  }

  predicate Shape(s: Sys) {
    && |s.table.slots| >= 1
    && |s.last| == |s.cached| == |s.done| == |s.exec| == |s.table.slots|
    && (forall t :: 0 <= t < |s.threads| && Holds(s.threads[t]) ==> s.threads[t].lease.slotID < |s.table.slots|)
    && (forall k :: 0 <= k < |s.late| ==> s.late[k].slotID < |s.table.slots|)
  }

  function Next(s: Sys, a: Action): Sys
    requires Shape(s) && Enabled(s, a)
  {
    match a
    case TakeToken(t) => s.(table := s.table.(free := s.table.free - 1), threads := s.threads[t := HasToken])
    case Scan(t) =>
      var (table, got) := TakeSlot(s.table);
      if got.None? then s.(table := table.(free := table.free + 1), threads := s.threads[t := Idle])
      else s.(table := table, threads := s.threads[t := Leased(got.value, s.done[got.value.slotID] + 1)])
    case Send(t, req) => s.(threads := s.threads[t := Waiting(s.threads[t].lease, s.threads[t].num, req, None)])
    case Deliver(t, c) =>
      var (r, v) := Served(s, s.threads[t].lease.slotID, s.threads[t].lease.seqID, s.threads[t].req, c);
      r.(threads := s.threads[t := s.threads[t].(answer := Some(v))])
    case Finish(t) =>
      var i := s.threads[t].lease.slotID;
      s.(table := ClearSlot(s.table, i, true), threads := s.threads[t := Owing], done := s.done[i := s.done[i] + 1])
    case GiveUp(t, lost) =>
      var pc := s.threads[t];
      s.(table := ClearSlot(s.table, pc.lease.slotID, false), threads := s.threads[t := Owing],
         late := if pc.Waiting? && pc.answer.None? && !lost
                 then s.late + [Msg(pc.lease.slotID, pc.lease.seqID, pc.num, pc.req)] else s.late)
    case Return(t) => s.(table := s.table.(free := s.table.free + 1), threads := s.threads[t := Idle])
    case DeliverLate(k, c) =>
      Served(s, s.late[k].slotID, s.late[k].seqID, s.late[k].req, c).0.(late := s.late[..k] + s.late[k + 1..])
  }

  // ---- Counting ----

  function Count<T>(s: seq<T>, p: T -> bool): (n: nat)
    ensures n <= |s|
  {
    if s == [] then 0 else (if p(s[0]) then 1 else 0) + Count(s[1..], p)
  }

  lemma {:induction false} CountUpdate<T>(s: seq<T>, i: nat, v: T, p: T -> bool)
    requires i < |s|
    ensures Count(s[i := v], p) + (if p(s[i]) then 1 else 0) == Count(s, p) + (if p(v) then 1 else 0)
    decreases |s|
  {
    if i == 0 {
      assert s[0 := v][1..] == s[1..];
    } else {
      assert s[i := v][1..] == s[1..][i - 1 := v];
      CountUpdate(s[1..], i - 1, v, p);
    }
  }

  lemma {:induction false} CountAll<T>(s: seq<T>, p: T -> bool)
    ensures Count(s, p) == |s| <==> forall i :: 0 <= i < |s| ==> p(s[i])
    ensures Count(s, p) == 0 <==> forall i :: 0 <= i < |s| ==> !p(s[i])
    decreases |s|
  {
    if s != [] {
      CountAll(s[1..], p);
      assert forall i :: 0 < i < |s| ==> s[i] == s[1..][i - 1];
      assert forall i :: 0 <= i < |s| - 1 ==> s[1..][i] == s[i + 1];
    }
  }

  function Busy(s: Sys): nat { Count(s.table.slots, (x: Slot) => x.inUse) }

  function Acquiring(s: Sys): nat { Count(s.threads, (pc: Pc) => pc.HasToken?) }

  function Releasing(s: Sys): nat { Count(s.threads, (pc: Pc) => pc.Owing?) }

  // ---- What every step keeps ----

  /** No token is created or lost. */
  predicate Balanced(s: Sys) {
    s.table.free + Acquiring(s) + Busy(s) + Releasing(s) == |s.table.slots|
  }

  /** A held lease is for a busy slot and carries that slot's stored sequence id. */
  predicate LeaseOk(s: Sys, t: nat)
    requires Shape(s) && t < |s.threads|
  {
    var pc := s.threads[t];
    Holds(pc) ==>
      && s.table.slots[pc.lease.slotID].inUse
      && pc.lease.seqID == s.table.slots[pc.lease.slotID].next
      && pc.num == s.done[pc.lease.slotID] + 1
      && pc.lease.slotID <= pc.lease.highest <= s.table.highest
  }

  predicate HeldBy(s: Sys, i: nat, t: nat) {
    t < |s.threads| && Holds(s.threads[t]) && s.threads[t].lease.slotID == i
  }

  ghost predicate Leases(s: Sys)
    requires Shape(s)
  {
    && (forall t :: 0 <= t < |s.threads| ==> LeaseOk(s, t))
    && (forall t, u, i :: HeldBy(s, i, t) && HeldBy(s, i, u) ==> t == u)
    && (forall i :: 0 <= i < |s.table.slots| && s.table.slots[i].inUse ==> exists t :: HeldBy(s, i, t))
  }

  /** A slot's sequence id is one more than the number of its finished requests, wrapped; the
      server's is the number it has executed. */
  predicate Numbers(s: Sys)
    requires Shape(s)
  {
    && s.table.highest < |s.table.slots|
    && (forall i :: 0 <= i < |s.done| ==> s.table.slots[i].next == (1 + s.done[i]) % TWO32)
    && (forall i :: 0 <= i < |s.done| ==> s.last[i] == s.exec[i] % TWO32)
    && (forall i :: 0 <= i < |s.done| && s.table.slots[i].inUse ==> i <= s.table.highest)
    && (forall k :: 0 <= k < |s.late| ==>
          s.late[k].seqID == s.late[k].num % TWO32 && 1 <= s.late[k].num <= s.done[s.late[k].slotID] + 1)
  }

  ghost predicate Inv(s: Sys) { Shape(s) && Balanced(s) && Leases(s) && Numbers(s) }

  lemma BumpMod(n: nat)
    ensures Bump(n % TWO32) == (n + 1) % TWO32
    ensures Bump(n % TWO32) != n % TWO32
  {}

  lemma InitInv(slots: nat, threads: nat)
    requires slots >= 1
    ensures Inv(Init(slots, threads))
  {
    hide Count;
    var s := Init(slots, threads);
    assert Balanced(s) by {
      CountAll(s.table.slots, (x: Slot) => x.inUse);
      CountAll(s.threads, (pc: Pc) => pc.HasToken?);
      CountAll(s.threads, (pc: Pc) => pc.Owing?);
    }
    assert Leases(s);
    assert Numbers(s);
  }

  /** While a client holds a token but no slot, some slot is free: the scan always finds one. */
  lemma ScanFinds(s: Sys, t: nat)
    requires Inv(s) && Enabled(s, Scan(t))
    ensures TakeSlot(s.table).1.Some?
  {
    CountAll(s.threads, (pc: Pc) => pc.HasToken?);
    CountAll(s.table.slots, (x: Slot) => x.inUse);
  }

  /** While a client owes a token, the channel has room for it: the send never blocks. */
  lemma ReturnNeverBlocks(s: Sys, t: nat)
    requires Inv(s) && t < |s.threads| && s.threads[t].Owing?
    ensures Enabled(s, Return(t))
  {
    CountAll(s.threads, (pc: Pc) => pc.Owing?);
  }

  lemma ShapeStep(s: Sys, a: Action)
    requires Shape(s) && Enabled(s, a)
    ensures Shape(Next(s, a))
  {
    hide Serve, Bump;
  }

  /** Taking and releasing a slot change the count of busy ones by one; nothing else changes it. */
  lemma BusyStep(s: Sys, a: Action)
    requires Inv(s) && Enabled(s, a)
    ensures Busy(Next(s, a)) == Busy(s) + (if a.Scan? then 1 else 0) - (if a.Finish? || a.GiveUp? then 1 else 0)
  {
    hide Serve, Bump, Numbers, Leases, Balanced;
    var r := Next(s, a);
    if a.Scan? {
      ScanFinds(s, a.t);
      var i := FirstFree(s.table.slots, 0);
      CountUpdate(s.table.slots, i, r.table.slots[i], (x: Slot) => x.inUse);
    }
    if a.Finish? || a.GiveUp? {
      var i := s.threads[a.t].lease.slotID;
      HeldIsBusy(s, a.t);
      CountUpdate(s.table.slots, i, r.table.slots[i], (x: Slot) => x.inUse);
    }
  }

  lemma BalancedStep(s: Sys, a: Action)
    requires Inv(s) && Enabled(s, a)
    ensures Balanced(Next(s, a))
  {
    hide Serve, Bump, Numbers, Leases, Busy;
    var r := Next(s, a);
    BusyStep(s, a);
    if a.Scan? { ScanFinds(s, a.t); }
    if !a.DeliverLate? {
      CountUpdate(s.threads, a.t, r.threads[a.t], (pc: Pc) => pc.HasToken?);
      CountUpdate(s.threads, a.t, r.threads[a.t], (pc: Pc) => pc.Owing?);
    }
  }

  lemma HeldIsBusy(s: Sys, t: nat)
    requires Inv(s) && t < |s.threads| && Holds(s.threads[t])
    ensures s.table.slots[s.threads[t].lease.slotID].inUse
  {
    assert LeaseOk(s, t);
  }

  lemma ServeExecuted(last: uint32, cached: nat, seqID: uint32, c: Choice)
    ensures Serve(last, cached, seqID, c).Executed? ==> seqID == Bump(last)
  {}

  lemma LateStep(s: Sys, a: Action)
    requires Inv(s) && Enabled(s, a) && Shape(Next(s, a))
    ensures var u := Next(s, a);
      forall k :: 0 <= k < |u.late| ==>
        u.late[k].seqID == u.late[k].num % TWO32 && 1 <= u.late[k].num <= u.done[u.late[k].slotID] + 1
  {
    hide Balanced, Bump, Serve, FirstFree;
    if !a.DeliverLate? { assert LeaseOk(s, a.t); }
  }

  lemma SlotNumbersStep(s: Sys, a: Action, i: nat)
    requires Inv(s) && Enabled(s, a) && Shape(Next(s, a)) && i < |s.done|
    ensures var u := Next(s, a);
      && i < |u.done| && u.table.highest < |u.table.slots|
      && u.table.slots[i].next == (1 + u.done[i]) % TWO32 && u.last[i] == u.exec[i] % TWO32
      && (u.table.slots[i].inUse ==> i <= u.table.highest)
  {
    hide Balanced, Bump, Serve;
    if !a.DeliverLate? { assert LeaseOk(s, a.t); }
    match a {
      case Finish(t) => BumpMod(1 + s.done[i]);
      case Deliver(t, c) =>
        BumpMod(s.exec[i]);
        ServeExecuted(s.last[i], s.cached[i], s.threads[t].lease.seqID, c);
      case DeliverLate(k, c) =>
        BumpMod(s.exec[i]);
        ServeExecuted(s.last[i], s.cached[i], s.late[k].seqID, c);
      case _ =>
    }
  }

  lemma NumbersStep(s: Sys, a: Action)
    requires Inv(s) && Enabled(s, a) && Shape(Next(s, a))
    ensures Numbers(Next(s, a))
  {
    hide Next, Balanced, Leases;
    var u := Next(s, a);
    LateStep(s, a);
    SizesStep(s, a);
    SlotNumbersStep(s, a, 0);
    forall i | 0 <= i < |s.done|
      ensures u.table.slots[i].next == (1 + u.done[i]) % TWO32 && u.last[i] == u.exec[i] % TWO32
      ensures u.table.slots[i].inUse ==> i <= u.table.highest
    {
      SlotNumbersStep(s, a, i);
    }
  }

  lemma LeaseOkStep(s: Sys, a: Action, u: nat)
    requires Inv(s) && Enabled(s, a) && Shape(Next(s, a)) && u < |s.threads|
    ensures LeaseOk(Next(s, a), u)
  {
    hide Balanced, Numbers, Bump, Serve;
    assert LeaseOk(s, u);
    if a.Scan? { ScanFinds(s, a.t); }
    if a.Finish? || a.GiveUp? {
      assert HeldBy(s, s.threads[a.t].lease.slotID, a.t);
      if Holds(s.threads[u]) {
        assert HeldBy(s, s.threads[u].lease.slotID, u);
      }
    }
  }

  lemma HolderStep(s: Sys, a: Action, u: nat, i: nat)
    requires Inv(s) && Enabled(s, a) && Shape(Next(s, a)) && HeldBy(Next(s, a), i, u)
    ensures HeldBy(s, i, u) || (a.Scan? && u == a.t && i == FirstFree(s.table.slots, 0))
    ensures HeldBy(s, i, u) ==> s.table.slots[i].inUse
  {
    hide Balanced, Numbers, Bump, Serve, FirstFree;
    assert LeaseOk(s, u);
  }

  lemma HoldersStep(s: Sys, a: Action, i: nat)
    requires Inv(s) && Enabled(s, a) && Shape(Next(s, a))
    requires i < |s.table.slots| && Next(s, a).table.slots[i].inUse
    ensures exists t :: HeldBy(Next(s, a), i, t)
  {
    hide Balanced, Numbers, Bump, Serve;
    if a.Scan? && i == FirstFree(s.table.slots, 0) {
      assert HeldBy(Next(s, a), i, a.t);
    } else {
      var t :| HeldBy(s, i, t);
      assert HeldBy(Next(s, a), i, t);
    }
  }

  lemma LeasesStep(s: Sys, a: Action)
    requires Inv(s) && Enabled(s, a) && Shape(Next(s, a))
    ensures Leases(Next(s, a))
  {
    hide Balanced, Numbers, Bump, Serve, LeaseOk, Next, HeldBy, FirstFree;
    var r := Next(s, a);
    SizesStep(s, a);
    forall u | 0 <= u < |r.threads| ensures LeaseOk(r, u) { LeaseOkStep(s, a, u); }
    forall u, v, i | HeldBy(r, i, u) && HeldBy(r, i, v) ensures u == v {
      HolderIndex(r, i, u);
      HolderStep(s, a, u, i);
      HolderStep(s, a, v, i);
    }
    forall i | 0 <= i < |r.table.slots| && r.table.slots[i].inUse ensures exists t :: HeldBy(r, i, t) {
      HoldersStep(s, a, i);
    }
  }

  lemma HolderIndex(s: Sys, i: nat, t: nat)
    requires Shape(s) && HeldBy(s, i, t)
    ensures i < |s.table.slots|
  {}

  lemma SizesStep(s: Sys, a: Action)
    requires Shape(s) && Enabled(s, a)
    ensures |Next(s, a).threads| == |s.threads| && |Next(s, a).table.slots| == |s.table.slots|
  {
    hide Bump, Serve;
  }

  lemma InvStep(s: Sys, a: Action)
    requires Inv(s) && Enabled(s, a)
    ensures Inv(Next(s, a))
  {
    hide Balanced, Leases, Numbers;
    ShapeStep(s, a);
    BalancedStep(s, a);
    LeasesStep(s, a);
    NumbersStep(s, a);
  }

  // ---- Runs ----

  ghost predicate Run(ss: seq<Sys>, acts: seq<Action>) {
    && |ss| == |acts| + 1
    && (exists n: nat, k: nat :: n >= 1 && ss[0] == Init(n, k))
    && (forall j :: 0 <= j < |acts| ==> Shape(ss[j]) && Enabled(ss[j], acts[j]) && ss[j + 1] == Next(ss[j], acts[j]))
  }

  lemma RunLength(ss: seq<Sys>, acts: seq<Action>)
    requires Run(ss, acts)
    ensures |ss| == |acts| + 1
  {}

  lemma RunStep(ss: seq<Sys>, acts: seq<Action>, j: nat)
    requires Run(ss, acts) && j < |acts|
    ensures |ss| == |acts| + 1 && Shape(ss[j]) && Enabled(ss[j], acts[j]) && ss[j + 1] == Next(ss[j], acts[j])
  {}

  /** In every interleaving of any number of clients: tokens balance, leases are exclusive and carry
      the stored sequence id, and sequence ids count finished requests. */
  lemma {:induction false} RunInv(ss: seq<Sys>, acts: seq<Action>, j: nat)
    requires Run(ss, acts) && j < |ss|
    ensures Inv(ss[j])
  {
    hide Inv, Init;
    if j == 0 {
      var n: nat, k: nat :| n >= 1 && ss[0] == Init(n, k);
      InitInv(n, k);
    } else {
      RunInv(ss, acts, j - 1);
      InvStep(ss[j - 1], acts[j - 1]);
    }
  }

  /** So the fallback after the scan is dead code and no client ever blocks giving a token back. */
  lemma NoFallbackNoBlocking(ss: seq<Sys>, acts: seq<Action>, j: nat, t: nat)
    requires Run(ss, acts) && j < |ss| && t < |ss[j].threads|
    ensures ss[j].table.free + Acquiring(ss[j]) + Busy(ss[j]) + Releasing(ss[j]) == |ss[j].table.slots|
    ensures ss[j].threads[t].HasToken? ==> TakeSlot(ss[j].table).1.Some?
    ensures ss[j].threads[t].Owing? ==> ss[j].table.free < |ss[j].table.slots|
  {
    RunInv(ss, acts, j);
    if ss[j].threads[t].HasToken? { ScanFinds(ss[j], t); }
    if ss[j].threads[t].Owing? { ReturnNeverBlocks(ss[j], t); }
  }

  /** In every interleaving, two held leases name different slots, and a held lease carries its slot's
      stored sequence id, which is one more than the number of requests finished on the slot, wrapped. */
  lemma LeasesExclusive(ss: seq<Sys>, acts: seq<Action>, j: nat, t: nat, u: nat)
    requires Run(ss, acts) && j < |ss| && t < |ss[j].threads| && u < |ss[j].threads|
    requires Holds(ss[j].threads[t]) && Holds(ss[j].threads[u])
    ensures var s, l := ss[j], ss[j].threads[t].lease;
      && (t != u ==> l.slotID != s.threads[u].lease.slotID)
      && l.slotID < |s.table.slots| && l.slotID < |s.done| && s.table.slots[l.slotID].inUse
      && l.seqID == s.table.slots[l.slotID].next == (1 + s.done[l.slotID]) % TWO32
  {
    hide Balanced;
    RunInv(ss, acts, j);
    assert LeaseOk(ss[j], t);
    assert HeldBy(ss[j], ss[j].threads[t].lease.slotID, t) && HeldBy(ss[j], ss[j].threads[u].lease.slotID, u);
  }

  /** A granted lease reports a highest slot at least as high as every slot then busy, its own included. */
  lemma GrantCoversBusy(ss: seq<Sys>, acts: seq<Action>, j: nat)
    requires Run(ss, acts) && j < |acts| && acts[j].Scan?
    ensures var pc, slots := ss[j + 1].threads[acts[j].t], ss[j + 1].table.slots;
      pc.Leased? && forall i :: 0 <= i < |slots| && slots[i].inUse ==> i <= pc.lease.highest
  {
    hide Balanced, Leases;
    RunInv(ss, acts, j);
    RunInv(ss, acts, j + 1);
    ScanFinds(ss[j], acts[j].t);
  }

  /** The slot the scan of step j hands out. */
  function Granted(ss: seq<Sys>, j: nat): nat
    requires j < |ss|
  {
    FirstFree(ss[j].table.slots, 0)
  }

  /** The table's mark is exactly the highest slot any scan has handed out so far, 0 before the first:
      it is reached and never passed, and no release lowers it. */
  lemma {:induction false} HighestEverGranted(ss: seq<Sys>, acts: seq<Action>, j: nat)
    requires Run(ss, acts) && j < |ss|
    ensures forall h :: 0 <= h < j && acts[h].Scan? ==> Granted(ss, h) <= ss[j].table.highest
    ensures ss[j].table.highest == 0 || exists h :: 0 <= h < j && acts[h].Scan? && Granted(ss, h) == ss[j].table.highest
  {
    hide Inv, Next, Granted;
    if j == 0 {
      var n: nat, k: nat :| n >= 1 && ss[0] == Init(n, k);
    } else {
      HighestEverGranted(ss, acts, j - 1);
      RunInv(ss, acts, j - 1);
      HighestStep(ss, acts, j - 1);
      if ss[j].table.highest != ss[j - 1].table.highest {
        assert 0 <= j - 1 < j && acts[j - 1].Scan? && Granted(ss, j - 1) == ss[j].table.highest;
      }
    }
  }

  lemma HighestStep(ss: seq<Sys>, acts: seq<Action>, j: nat)
    requires Run(ss, acts) && j < |acts| && Inv(ss[j])
    ensures ss[j + 1].table.highest
         == if acts[j].Scan? && Granted(ss, j) > ss[j].table.highest then Granted(ss, j) else ss[j].table.highest
  {
    hide Inv, Bump, Serve, FirstFree, Run;
    RunStep(ss, acts, j);
    if acts[j].Scan? { ScanFinds(ss[j], acts[j].t); }
  }

  predicate HighestBusy(slots: seq<Slot>, i: nat) {
    i < |slots| && slots[i].inUse && forall k :: i < k < |slots| ==> !slots[k].inUse
  }

  /** What a new lease reports is the highest slot in use if and only if the marked slot was in use when
      the scan began or the scan reached it. */
  lemma ReportsHighestBusyIff(ss: seq<Sys>, acts: seq<Action>, j: nat)
    requires Run(ss, acts) && j < |acts| && acts[j].Scan?
    ensures var pc, t := ss[j + 1].threads[acts[j].t], ss[j].table;
      && pc.Leased? && t.highest < |t.slots|
      && (HighestBusy(ss[j + 1].table.slots, pc.lease.highest)
          <==> t.slots[t.highest].inUse || FirstFree(t.slots, 0) >= t.highest)
  {
    hide Balanced, Leases, FirstFree;
    GrantCoversBusy(ss, acts, j);
    RunInv(ss, acts, j);
    ScanFinds(ss[j], acts[j].t);
  }
}
