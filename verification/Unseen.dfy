/** What a client cannot see. Two runs with the same client steps may differ in what the network lost and the
    server executed; so when two different requests have gone out under one number, no client can tell
    whose reply the server keeps. */
module Unseen {
  import opened Machine
  import opened Slots
  import opened Lockstep
  import opened Scenarios
  import opened Replies

  /** What the clients do in a step: deliveries, and the fate of a request given up on, are not theirs. */
  function Seen(a: Action): seq<Action> {
    match a
    case Deliver(_, _) => []
    case DeliverLate(_, _) => []
    case GiveUp(t, _) => [GiveUp(t, true)]
    case _ => [a]
  }

  function ClientSteps(acts: seq<Action>): seq<Action> {
    if acts == [] then [] else ClientSteps(acts[..|acts| - 1]) + Seen(acts[|acts| - 1])
  }

  lemma ClientStepsSnoc(acts: seq<Action>, a: Action)
    ensures ClientSteps(acts + [a]) == ClientSteps(acts) + Seen(a)
  {
    assert (acts + [a])[..|acts|] == acts;
  }

  // ---- A run and its shadow, in which number n on slot i is delivered for one chosen request only ----

  predicate On(pc: Pc, i: nat, n: nat) { Holds(pc) && pc.lease.slotID == i && pc.num == n }

  function Without(late: seq<Msg>, i: nat, n: nat): (r: seq<Msg>)
    ensures |r| <= |late|
  {
    if late == [] then []
    else
      var m := late[|late| - 1];
      Without(late[..|late| - 1], i, n) + if m.slotID == i && m.num == n then [] else [m]
  }

  lemma {:induction false} WithoutJoin(a: seq<Msg>, b: seq<Msg>, i: nat, n: nat)
    ensures Without(a + b, i, n) == Without(a, i, n) + Without(b, i, n)
    decreases |b|
  {
    if b == [] {
      assert a + b == a;
    } else {
      assert (a + b)[..|a + b| - 1] == a + b[..|b| - 1];
      WithoutJoin(a, b[..|b| - 1], i, n);
    }
  }

  /** Where the k-th message is among those kept, and what is left when it goes. */
  lemma WithoutAt(late: seq<Msg>, k: nat, i: nat, n: nat)
    requires k < |late|
    ensures var m, p := late[k], |Without(late[..k], i, n)|;
      var rest := Without(late[..k] + late[k + 1..], i, n);
      if m.slotID == i && m.num == n then rest == Without(late, i, n)
      else p < |Without(late, i, n)| && Without(late, i, n)[p] == m
           && rest == Without(late, i, n)[..p] + Without(late, i, n)[p + 1..]
  {
    hide Without;
    var a, m, b := late[..k], late[k], late[k + 1..];
    assert late == a + [m] + b;
    WithoutSnoc(a, m, i, n);
    WithoutJoin(a + [m], b, i, n);
    WithoutJoin(a, b, i, n);
    Middle(Without(a, i, n), m, Without(b, i, n));
  }

  lemma Middle(a: seq<Msg>, m: Msg, b: seq<Msg>)
    ensures (a + [m] + b)[|a|] == m && (a + [m] + b)[..|a|] == a && (a + [m] + b)[|a| + 1..] == b
    ensures a + [] + b == a + b
  {}

  lemma WithoutSnoc(late: seq<Msg>, m: Msg, i: nat, n: nat)
    ensures Without(late + [m], i, n) == Without(late, i, n) + if m.slotID == i && m.num == n then [] else [m]
  {
    assert (late + [m])[..|late|] == late;
  }

  /** The same client, up to what it has been answered on slot i under number n. */
  predicate Alike(p: Pc, q: Pc, i: nat, n: nat) {
    if On(p, i, n)
    then On(q, i, n) && p.lease == q.lease && (p.Leased? <==> q.Leased?) && (p.Waiting? ==> p.req == q.req)
    else p == q
  }

  predicate SameClients(ps: seq<Pc>, qs: seq<Pc>, i: nat, n: nat) {
    |qs| == |ps| && forall x :: 0 <= x < |ps| ==> Alike(ps[x], qs[x], i, n)
  }

  /** What a server has executed and kept, per slot. */
  datatype Server = Server(exec: seq<nat>, cached: seq<nat>)

  /** The same server, except that on slot i it has executed number n for q, if taken, and otherwise not. */
  predicate SameServer(done: seq<nat>, s: Server, u: Server, i: nat, n: nat, q: nat, taken: bool) {
    && |u.exec| == |s.exec| == |done| && |u.cached| == |s.cached| == |done| && i < |done|
    && (forall x :: 0 <= x < |done| && x != i ==> u.exec[x] == s.exec[x] && u.cached[x] == s.cached[x])
    && (done[i] + 1 < n ==> u.exec[i] == s.exec[i] && u.cached[i] == s.cached[i] && !taken)
    && (done[i] + 1 == n ==> u.exec[i] == (if taken then n else n - 1) && (taken ==> u.cached[i] == q))
  }

  predicate Shadow(s: Sys, u: Sys, i: nat, n: nat, q: nat, taken: bool) {
    && u.table == s.table && u.done == s.done && SameClients(s.threads, u.threads, i, n)
    && SameServer(s.done, Server(s.exec, s.cached), Server(u.exec, u.cached), i, n, q, taken)
    && u.late == Without(s.late, i, n)
  }

  /** The shadow's step for a step of the run, if it takes one. */
  function Shadowed(s: Sys, a: Action, i: nat, n: nat): Option<Action>
    requires Enabled(s, a)
  {
    match a
    case Deliver(t, _) => if On(s.threads[t], i, n) then None else Some(a)
    case GiveUp(t, _) => Some(if On(s.threads[t], i, n) then GiveUp(t, true) else a)
    case DeliverLate(k, c) =>
      if s.late[k].slotID == i && s.late[k].num == n then None else Some(DeliverLate(|Without(s.late[..k], i, n)|, c))
    case _ => Some(a)
  }

  lemma ShadowedSeen(s: Sys, a: Action, i: nat, n: nat)
    requires Enabled(s, a)
    ensures Shadowed(s, a, i, n).None? ==> Seen(a) == []
    ensures Shadowed(s, a, i, n).Some? ==> Seen(Shadowed(s, a, i, n).value) == Seen(a)
  {}

  /** A step of the run from s that keeps in step and within number n of slot i. */
  ghost predicate Good(s: Sys, a: Action, i: nat, n: nat) {
    && Inv(s) && Enabled(s, a) && AllInStep(s) && AnswersMeanExecuted(s) && Timely(s, a) && !SkipsAhead(s, a)
    && i < |s.done| && s.done[i] + 1 <= n && n + 1 < TWO32
    && i < |Next(s, a).done| && Next(s, a).done[i] + 1 <= n
  }

  /** A request on another slot, or before number n - 1 is done on slot i, does the same to both servers. */
  lemma ServedAlike(s: Sys, u: Sys, x: nat, seqID: uint32, req: nat, c: Choice, i: nat, n: nat, q: nat, taken: bool)
    requires Inv(s) && Inv(u) && s.done == u.done && x < |s.done| && i < |s.done| && (x != i || s.done[i] + 1 < n)
    requires SameServer(s.done, Server(s.exec, s.cached), Server(u.exec, u.cached), i, n, q, taken)
    ensures var (s1, v) := Served(s, x, seqID, req, c); var (u1, w) := Served(u, x, seqID, req, c);
      v == w && SameServer(s.done, Server(s1.exec, s1.cached), Server(u1.exec, u1.cached), i, n, q, taken)
  {
    hide Balanced, Leases, Bump;
  }

  lemma QuietStep(s: Sys, a: Action, u: Sys, i: nat, n: nat, q: nat, taken: bool)
    requires Good(s, a, i, n) && Inv(u) && Shadow(s, u, i, n, q, taken)
    requires a.TakeToken? || a.Scan? || a.Send? || a.Return?
    ensures Enabled(u, a) && Timely(u, a) && !SkipsAhead(u, a) && Shadow(Next(s, a), Next(u, a), i, n, q, taken)
  {
    hide Balanced, Leases, Numbers, Bump, Without, TakeSlot, AllInStep, AnswersMeanExecuted;
    if a.Scan? { ScanFinds(s, a.t); }
    assert Alike(s.threads[a.t], u.threads[a.t], i, n);
  }

  lemma FinishStep(s: Sys, t: nat, u: Sys, i: nat, n: nat, q: nat, taken: bool)
    requires Good(s, Finish(t), i, n) && Inv(u) && Shadow(s, u, i, n, q, taken)
    ensures Enabled(u, Finish(t)) && Timely(u, Finish(t)) && !SkipsAhead(u, Finish(t))
    ensures Shadow(Next(s, Finish(t)), Next(u, Finish(t)), i, n, q, taken)
  {
    hide Balanced, Bump, Without, ClearSlot;
    assert LeaseOk(s, t) && Alike(s.threads[t], u.threads[t], i, n);
    FinishInStep(s, t);
    SoleFinisher(s, t, i, n);
  }

  /** Nobody finishes number n. */
  lemma SoleFinisher(s: Sys, t: nat, i: nat, n: nat)
    requires Inv(s) && Enabled(s, Finish(t)) && i < |s.done| && Next(s, Finish(t)).done[i] + 1 <= n
    ensures !On(s.threads[t], i, n)
  {
    assert LeaseOk(s, t);
  }

  lemma GiveUpStep(s: Sys, t: nat, lost: bool, u: Sys, i: nat, n: nat, q: nat, taken: bool)
    requires Good(s, GiveUp(t, lost), i, n) && Inv(u) && Shadow(s, u, i, n, q, taken)
    ensures var b := Shadowed(s, GiveUp(t, lost), i, n).value;
      Enabled(u, b) && Timely(u, b) && !SkipsAhead(u, b) && Shadow(Next(s, GiveUp(t, lost)), Next(u, b), i, n, q, taken)
  {
    hide Balanced, Leases, Numbers, Bump, Without, ClearSlot, AllInStep, AnswersMeanExecuted;
    var pc := s.threads[t];
    assert Alike(pc, u.threads[t], i, n);
    if pc.Waiting? {
      var m := Msg(pc.lease.slotID, pc.lease.seqID, pc.num, pc.req);
      WithoutSnoc(s.late, m, i, n);
    }
  }

  lemma DeliverStep(s: Sys, t: nat, c: Choice, u: Sys, i: nat, n: nat, q: nat, taken: bool)
    requires Good(s, Deliver(t, c), i, n) && Inv(u) && Shadow(s, u, i, n, q, taken)
    ensures if On(s.threads[t], i, n) then Shadow(Next(s, Deliver(t, c)), u, i, n, q, taken)
            else Enabled(u, Deliver(t, c)) && Shadow(Next(s, Deliver(t, c)), Next(u, Deliver(t, c)), i, n, q, taken)
  {
    hide Balanced, Bump, Without, Serve, AllInStep, AnswersMeanExecuted, Numbers;
    var l := s.threads[t].lease;
    assert LeaseOk(s, t) && Alike(s.threads[t], u.threads[t], i, n);
    if !On(s.threads[t], i, n) {
      hide SameServer, Served;
      ServedAlike(s, u, l.slotID, l.seqID, s.threads[t].req, c, i, n, q, taken);
      ServedFrame(s, l.slotID, l.seqID, s.threads[t].req, c);
      ServedFrame(u, l.slotID, l.seqID, s.threads[t].req, c);
    }
  }

  lemma ServedFrame(s: Sys, x: nat, seqID: uint32, req: nat, c: Choice)
    requires x < |s.last| && x < |s.cached| && x < |s.exec|
    ensures var r := Served(s, x, seqID, req, c).0;
      r.table == s.table && r.threads == s.threads && r.late == s.late && r.done == s.done
  {}

  /** An old request on slot i changes nothing in the run or in the shadow. */
  lemma OldChangesNothing(s: Sys, k: nat, c: Choice, i: nat, n: nat)
    requires Inv(s) && k < |s.late| && s.late[k].slotID == i && s.late[k].num < n && n + 1 < TWO32
    requires s.done[i] + 1 == n && (s.exec[i] == n - 1 || s.exec[i] == n)
    ensures !Serve(s.last[i], s.cached[i], s.late[k].seqID, c).Executed?
  {
    hide Balanced, Bump, Leases;
    BumpMod(s.exec[i]);
    CloseMod(s.late[k].num, s.exec[i] + 1);
  }

  lemma LateStep(s: Sys, k: nat, c: Choice, u: Sys, i: nat, n: nat, q: nat, taken: bool)
    requires Good(s, DeliverLate(k, c), i, n) && Inv(u) && Shadow(s, u, i, n, q, taken)
    ensures var b := Shadowed(s, DeliverLate(k, c), i, n);
      if b.None? then Shadow(Next(s, DeliverLate(k, c)), u, i, n, q, taken)
      else Enabled(u, b.value) && Timely(u, b.value) && !SkipsAhead(u, b.value)
           && Shadow(Next(s, DeliverLate(k, c)), Next(u, b.value), i, n, q, taken)
  {
    hide Balanced, Bump, Without, Serve, AnswersMeanExecuted, AllInStep, Leases, SameClients;
    var m := s.late[k];
    WithoutAt(s.late, k, i, n);
    if m.slotID == i && s.done[i] + 1 == n {
      if m.num != n {
        InStepHere(s, i);
        OldChangesNothing(s, k, c, i, n);
        OldChangesNothing(u, |Without(s.late[..k], i, n)|, c, i, n);
      }
    } else {
      hide SameServer, Served;
      ServedAlike(s, u, m.slotID, m.seqID, m.req, c, i, n, q, taken);
      ServedFrame(s, m.slotID, m.seqID, m.req, c);
      ServedFrame(u, m.slotID, m.seqID, m.req, c);
    }
  }

  lemma InStepHere(s: Sys, i: nat)
    requires AllInStep(s) && i < |s.done|
    ensures InStep(s, i)
  {}

  lemma ShadowStep(s: Sys, a: Action, u: Sys, i: nat, n: nat, q: nat, taken: bool)
    requires Good(s, a, i, n) && Inv(u) && Shadow(s, u, i, n, q, taken)
    ensures var b := Shadowed(s, a, i, n);
      if b.None? then Shadow(Next(s, a), u, i, n, q, taken)
      else Enabled(u, b.value) && Timely(u, b.value) && !SkipsAhead(u, b.value)
           && Shadow(Next(s, a), Next(u, b.value), i, n, q, taken)
  {
    hide Good, Shadow, Next, Without, Timely, SkipsAhead, Inv;
    match a {
      case Deliver(t, c) => DeliverStep(s, t, c, u, i, n, q, taken); NeitherLateNorFinish(u, a);
      case GiveUp(t, lost) => GiveUpStep(s, t, lost, u, i, n, q, taken);
      case DeliverLate(k, c) => LateStep(s, k, c, u, i, n, q, taken);
      case Finish(t) => FinishStep(s, t, u, i, n, q, taken);
      case _ => QuietStep(s, a, u, i, n, q, taken);
    }
  }

  lemma NeitherLateNorFinish(u: Sys, a: Action)
    requires !a.DeliverLate? && !a.Finish?
    ensures Timely(u, a) && !SkipsAhead(u, a)
  {}

  /** The chosen request reaches the server as soon as it is sent. */
  lemma TakenNow(s: Sys, u: Sys, t: nat, i: nat, n: nat, q: nat)
    requires Inv(u) && Shadow(s, u, i, n, q, false) && s.done[i] + 1 == n
    requires t < |u.threads| && u.threads[t].Waiting? && On(u.threads[t], i, n) && u.threads[t].req == q
    requires u.threads[t].answer.None?
    requires t < |s.threads| && On(s.threads[t], i, n)
    ensures var b := Deliver(t, Process); Enabled(u, b) && Shadow(s, Next(u, b), i, n, q, true)
  {
    hide Balanced, Bump, Without, Serve, Numbers;
    NoGap(u, t);
  }

  // ---- The whole run ----

  /** Timely delays, and nobody finishes on a refused or missing SEQUENCE result for a request not executed. */
  predicate Orderly(ss: seq<Sys>, acts: seq<Action>) {
    |ss| == |acts| + 1 && forall j :: 0 <= j < |acts| ==> Timely(ss[j], acts[j]) && !SkipsAhead(ss[j], acts[j])
  }

  lemma OrderlySnoc(ss: seq<Sys>, acts: seq<Action>, a: Action) returns (ss': seq<Sys>, acts': seq<Action>)
    requires ss != [] && Run(ss, acts) && Orderly(ss, acts)
    requires Enabled(End(ss), a) && Timely(End(ss), a) && !SkipsAhead(End(ss), a)
    ensures Run(ss', acts') && Orderly(ss', acts') && Shape(End(ss)) && ss' == ss + [Next(End(ss), a)]
    ensures acts' == acts + [a]
    ensures ClientSteps(acts') == ClientSteps(acts) + Seen(a)
  {
    hide Inv, Next, Timely, SkipsAhead, ClientSteps, Seen;
    RunInv(ss, acts, |ss| - 1);
    InvShape(End(ss));
    ss', acts' := ExtendRun(ss, acts, a);
    ClientStepsSnoc(acts, a);
  }

  lemma GoodStep(ss: seq<Sys>, acts: seq<Action>, i: nat, n: nat, j: nat)
    requires Run(ss, acts) && Orderly(ss, acts) && j < |acts| && i < |ss[0].done| && n + 1 < TWO32
    requires i < |ss[|acts|].done| && ss[|acts|].done[i] + 1 == n
    ensures Good(ss[j], acts[j], i, n)
  {
    hide Inv, AllInStep, AnswersMeanExecuted, Timely, SkipsAhead, Next;
    RunInv(ss, acts, j);
    RunStep(ss, acts, j);
    InStepUntil(ss, acts, j);
    DoneGrows(ss, acts, 0, j, i);
    DoneGrows(ss, acts, j, j + 1, i);
    DoneGrows(ss, acts, j + 1, |acts|, i);
  }

  /** Every run in step has a shadow with the same client steps, in which the server has executed number n of
      slot i for the request sent at step h. */
  lemma {:induction false} ShadowRun(ss: seq<Sys>, acts: seq<Action>, i: nat, n: nat, q: nat, h: nat, j: nat)
    returns (us: seq<Sys>, bs: seq<Action>)
    requires Run(ss, acts) && Orderly(ss, acts) && j < |ss| && i < |ss[0].done| && n + 1 < TWO32
    requires i < |ss[|acts|].done| && ss[|acts|].done[i] + 1 == n && SentAs(ss, acts, h, i, n, q)
    ensures us != [] && Run(us, bs) && Orderly(us, bs) && us[0] == ss[0]
    ensures Shadow(ss[j], End(us), i, n, q, h < j) && ClientSteps(bs) == ClientSteps(acts[..j])
    decreases j
  {
    hide Inv, Shadow, Good, Next, Timely, SkipsAhead, ClientSteps, Seen, Shadowed, Run, Orderly;
    RunLength(ss, acts);
    if j == 0 {
      us, bs := FirstShadow(ss, acts, i, n, q);
    } else {
      us, bs := ShadowRun(ss, acts, i, n, q, h, j - 1);
      us, bs := ShadowMore(ss, acts, i, n, q, h, j - 1, us, bs);
    }
  }

  lemma FirstShadow(ss: seq<Sys>, acts: seq<Action>, i: nat, n: nat, q: nat) returns (us: seq<Sys>, bs: seq<Action>)
    requires Run(ss, acts) && i < |ss[0].done| && n >= 1
    ensures us != [] && Run(us, bs) && Orderly(us, bs) && us[0] == ss[0]
    ensures Shadow(ss[0], End(us), i, n, q, false) && ClientSteps(bs) == ClientSteps(acts[..0])
  {
    us, bs := [ss[0]], [];
    var a: nat, b: nat :| a >= 1 && ss[0] == Init(a, b);
    assert acts[..0] == [];
  }

  lemma ShadowMore(ss: seq<Sys>, acts: seq<Action>, i: nat, n: nat, q: nat, h: nat, j: nat, us: seq<Sys>,
                   bs: seq<Action>)
    returns (us': seq<Sys>, bs': seq<Action>)
    requires Run(ss, acts) && Orderly(ss, acts) && j < |acts| && i < |ss[0].done| && n + 1 < TWO32
    requires i < |ss[|acts|].done| && ss[|acts|].done[i] + 1 == n && SentAs(ss, acts, h, i, n, q)
    requires us != [] && Run(us, bs) && Orderly(us, bs) && us[0] == ss[0]
    requires Shadow(ss[j], End(us), i, n, q, h < j) && ClientSteps(bs) == ClientSteps(acts[..j])
    ensures us' != [] && Run(us', bs') && Orderly(us', bs') && us'[0] == ss[0]
    ensures Shadow(ss[j + 1], End(us'), i, n, q, h < j + 1) && ClientSteps(bs') == ClientSteps(acts[..j + 1])
  {
    hide Inv, Shadow, Good, Next, Timely, SkipsAhead, ClientSteps, Seen, Shadowed, Orderly, Run;
    RunStep(ss, acts, j);
    GoodStep(ss, acts, i, n, j);
    RunInv(us, bs, |us| - 1);
    var s, a := ss[j], acts[j];
    ShadowStep(s, a, End(us), i, n, q, h < j);
    ShadowedSeen(s, a, i, n);
    assert acts[..j + 1] == acts[..j] + [a];
    ClientStepsSnoc(acts[..j], a);
    us', bs' := us, bs;
    var b := Shadowed(s, a, i, n);
    if b.Some? { us', bs' := OrderlySnoc(us, bs, b.value); }
    if j == h {
      SendIsTaken(ss, acts, i, n, q, h, End(us));
      RunInv(us', bs', |us'| - 1);
      TakenNow(ss[j + 1], End(us'), a.t, i, n, q);
      NeitherLateNorFinish(End(us'), Deliver(a.t, Process));
      us', bs' := OrderlySnoc(us', bs', Deliver(a.t, Process));
      UnseenDelivery(a.t);
    }
  }

  lemma UnseenDelivery(t: nat)
    ensures Seen(Deliver(t, Process)) == []
  {}

  lemma SendIsTaken(ss: seq<Sys>, acts: seq<Action>, i: nat, n: nat, q: nat, h: nat, u: Sys)
    requires Run(ss, acts) && SentAs(ss, acts, h, i, n, q) && Good(ss[h], acts[h], i, n)
    requires Shadow(ss[h], u, i, n, q, false) && Inv(u)
    ensures var a, s := acts[h], ss[h + 1];
      && Shadowed(ss[h], a, i, n) == Some(a) && Enabled(u, a)
      && i < |s.done| && s.done[i] + 1 == n && a.t < |s.threads| && On(s.threads[a.t], i, n)
      && var v := Next(u, a);
         && a.t < |v.threads| && v.threads[a.t].Waiting? && On(v.threads[a.t], i, n)
         && v.threads[a.t].req == q && v.threads[a.t].answer.None?
  {
    hide Balanced, Numbers, Bump, Without, AllInStep, AnswersMeanExecuted;
    RunStep(ss, acts, h);
    assert LeaseOk(ss[h], acts[h].t) && Alike(ss[h].threads[acts[h].t], u.threads[acts[h].t], i, n);
  }

  /** In every run in step: if request q has gone out under the number a client now sends r under, there is
      another run in step with the same client steps in which the client is answered with the reply to q. */
  lemma CannotTell(ss: seq<Sys>, acts: seq<Action>, t: nat, r: nat, h: nat, q: nat)
    returns (us: seq<Sys>, bs: seq<Action>)
    requires ss != [] && Run(ss, acts) && Orderly(ss, acts) && t < |End(ss).threads| && End(ss).threads[t].Leased?
    requires var pc := End(ss).threads[t]; pc.num + 1 < TWO32 && SentAs(ss, acts, h, pc.lease.slotID, pc.num, q)
    ensures us != [] && Run(us, bs) && Orderly(us, bs) && us[0] == ss[0]
    ensures ClientSteps(bs) == ClientSteps(acts) + [Send(t, r)]
    ensures var pc := End(ss).threads[t];
      t < |End(us).threads| && End(us).threads[t] == Waiting(pc.lease, pc.num, r, Some(Replayed(q)))
  {
    hide Inv, Shadow, Next, Timely, SkipsAhead, ClientSteps, Orderly, Run;
    RunLength(ss, acts);
    var pc := End(ss).threads[t];
    var i, n := pc.lease.slotID, pc.num;
    LeasedNumber(ss, acts, t);
    us, bs := ShadowRun(ss, acts, i, n, q, h, |acts|);
    assert acts[..|acts|] == acts;
    RunInv(us, bs, |us| - 1);
    ShadowLeased(End(ss), End(us), t, i, n, q);
    NeitherLateNorFinish(End(us), Send(t, r));
    us, bs := OrderlySnoc(us, bs, Send(t, r));
    RunInv(us, bs, |us| - 1);
    SentIsWaiting(us[|us| - 2], t, r);
    NeitherLateNorFinish(End(us), Deliver(t, Process));
    CachedAnswer(End(us), t);
    us, bs := OrderlySnoc(us, bs, Deliver(t, Process));
    UnseenDelivery(t);
  }

  lemma LeasedNumber(ss: seq<Sys>, acts: seq<Action>, t: nat)
    requires ss != [] && Run(ss, acts) && t < |End(ss).threads| && End(ss).threads[t].Leased?
    ensures var pc, s := End(ss).threads[t], ss[|acts|];
      && s == End(ss) && pc.lease.slotID < |s.done| && s.done[pc.lease.slotID] + 1 == pc.num
      && pc.lease.slotID < |ss[0].done|
  {
    hide Balanced, Numbers, Next;
    RunInv(ss, acts, |ss| - 1);
    assert LeaseOk(End(ss), t);
    SlotsStay(ss, acts, |acts|);
  }

  lemma {:induction false} SlotsStay(ss: seq<Sys>, acts: seq<Action>, j: nat)
    requires Run(ss, acts) && j < |ss|
    ensures |ss[j].done| == |ss[0].done|
  {
    hide Bump, Serve;
    if j > 0 { SlotsStay(ss, acts, j - 1); }
  }

  lemma ShadowLeased(s: Sys, u: Sys, t: nat, i: nat, n: nat, q: nat)
    requires Shadow(s, u, i, n, q, true) && t < |s.threads| && s.threads[t].Leased? && On(s.threads[t], i, n)
    requires s.done[i] + 1 == n
    ensures t < |u.threads| && u.threads[t] == s.threads[t] && u.exec[i] == u.done[i] + 1 && u.cached[i] == q
  {
    assert Alike(s.threads[t], u.threads[t], i, n);
  }

  lemma SentIsWaiting(u: Sys, t: nat, r: nat)
    requires Shape(u) && Enabled(u, Send(t, r))
    ensures var v := Next(u, Send(t, r)); var pc := u.threads[t];
      && Enabled(v, Deliver(t, Process)) && v.threads[t] == Waiting(pc.lease, pc.num, r, None)
      && v.exec == u.exec && v.done == u.done && v.cached == u.cached
  {}

  // ---- The client steps fix all a client can see ----

  function Erased(pc: Pc): Pc { if pc.Waiting? then pc.(answer := None) else pc }

  /** The clients' part of a state, without what they have been answered. */
  datatype ClientSide = ClientSide(table: Table, threads: seq<Pc>, done: seq<nat>)

  function Side(s: Sys): ClientSide {
    ClientSide(s.table, seq(|s.threads|, x requires 0 <= x < |s.threads| => Erased(s.threads[x])), s.done)
  }

  lemma UnseenStep(s: Sys, a: Action)
    requires Shape(s) && Enabled(s, a) && Seen(a) == []
    ensures Side(Next(s, a)) == Side(s)
  {
    hide Serve;
    var u := Next(s, a);
    assert forall x :: 0 <= x < |s.threads| ==> Erased(u.threads[x]) == Erased(s.threads[x]);
  }

  lemma SeenStep(s: Sys, a: Action, u: Sys, b: Action)
    requires Shape(s) && Enabled(s, a) && Shape(u) && Enabled(u, b) && Seen(a) == Seen(b) != [] && Side(s) == Side(u)
    ensures Side(Next(s, a)) == Side(Next(u, b))
  {
    hide Serve, Bump, TakeSlot, ClearSlot;
    var t := Seen(a)[0].t;
    assert Side(s).threads[t] == Side(u).threads[t];
    assert forall x :: 0 <= x < |s.threads| ==> Erased(s.threads[x]) == Side(s).threads[x] == Side(u).threads[x];
    assert Side(Next(s, a)).threads == Side(Next(u, b)).threads;
  }

  lemma RunPrefix(ss: seq<Sys>, acts: seq<Action>)
    requires Run(ss, acts) && acts != []
    ensures Run(ss[..|acts|], acts[..|acts| - 1]) && |ss| == |acts| + 1
  {
    hide Next, Init, Shape, Enabled;
  }

  /** Whatever was sent in the one run was sent, under the same number, in the other. */
  ghost predicate Covers(ss: seq<Sys>, acts: seq<Action>, us: seq<Sys>, bs: seq<Action>) {
    forall i, n, q :: WasSent(us, bs, |bs|, i, n, q) ==> WasSent(ss, acts, |acts|, i, n, q)
  }

  ghost predicate CoversStep(ss: seq<Sys>, acts: seq<Action>, j: nat, us: seq<Sys>, bs: seq<Action>, k: nat) {
    forall i, n, q :: SentAs(us, bs, k, i, n, q) ==> SentAs(ss, acts, j, i, n, q)
  }

  /** Two runs with the same client steps leave the clients alike, and send alike. */
  lemma {:induction false} SameSteps(ss: seq<Sys>, acts: seq<Action>, us: seq<Sys>, bs: seq<Action>)
    requires ss != [] && us != [] && Run(ss, acts) && Run(us, bs) && ss[0] == us[0]
    requires ClientSteps(acts) == ClientSteps(bs)
    ensures Side(End(ss)) == Side(End(us)) && Covers(ss, acts, us, bs)
    decreases |acts| + |bs|
  {
    hide Run, Next, Seen, Side, WasSent, Shape, Enabled;
    RunLength(ss, acts);
    RunLength(us, bs);
    if bs != [] && Seen(bs[|bs| - 1]) == [] {
      var m := |bs| - 1;
      RunPrefix(us, bs);
      RunStep(us, bs, m);
      UnseenStep(us[m], bs[m]);
      SameSteps(ss, acts, us[..|bs|], bs[..m]);
      SentEarlier(us, bs);
    } else if acts != [] && Seen(acts[|acts| - 1]) == [] {
      var m := |acts| - 1;
      RunPrefix(ss, acts);
      RunStep(ss, acts, m);
      UnseenStep(ss[m], acts[m]);
      SameSteps(ss[..|acts|], acts[..m], us, bs);
      SentStill(ss, acts);
    } else if acts != [] && bs != [] {
      var m, k := |acts| - 1, |bs| - 1;
      RunPrefix(ss, acts);
      RunPrefix(us, bs);
      RunStep(ss, acts, m);
      RunStep(us, bs, k);
      LastSeen(acts, bs);
      SameSteps(ss[..|acts|], acts[..m], us[..|bs|], bs[..k]);
      SeenStep(ss[m], acts[m], us[k], bs[k]);
      SentAlike(ss, acts, us, bs);
      SentLast(ss, acts, us, bs);
    } else {
      NothingSent(us, bs);
      SomethingSeen(acts);
      SomethingSeen(bs);
    }
  }

  lemma SomethingSeen(acts: seq<Action>)
    requires acts != [] ==> Seen(acts[|acts| - 1]) != []
    ensures ClientSteps(acts) == [] ==> acts == []
  {}

  lemma NothingSent(us: seq<Sys>, bs: seq<Action>)
    ensures bs == [] ==> forall i, n, q :: !WasSent(us, bs, |bs|, i, n, q)
  {}

  lemma SnocEqual(a: seq<Action>, x: seq<Action>, b: seq<Action>, y: seq<Action>)
    requires |x| == 1 && |y| == 1 && a + x == b + y
    ensures a == b && x == y
  {
    assert a == (a + x)[..|a|] && b == (b + y)[..|b|];
    assert x[0] == (a + x)[|a|] && y[0] == (b + y)[|b|];
  }

  lemma SeenOne(a: Action)
    ensures Seen(a) != [] ==> |Seen(a)| == 1
  {}

  lemma LastSeen(acts: seq<Action>, bs: seq<Action>)
    requires acts != [] && bs != [] && ClientSteps(acts) == ClientSteps(bs)
    requires Seen(acts[|acts| - 1]) != [] && Seen(bs[|bs| - 1]) != []
    ensures Seen(acts[|acts| - 1]) == Seen(bs[|bs| - 1])
    ensures ClientSteps(acts[..|acts| - 1]) == ClientSteps(bs[..|bs| - 1])
  {
    hide Seen;
    SeenOne(acts[|acts| - 1]);
    SeenOne(bs[|bs| - 1]);
    SnocEqual(ClientSteps(acts[..|acts| - 1]), Seen(acts[|acts| - 1]), ClientSteps(bs[..|bs| - 1]), Seen(bs[|bs| - 1]));
  }

  lemma SentAlike(ss: seq<Sys>, acts: seq<Action>, us: seq<Sys>, bs: seq<Action>)
    requires acts != [] && bs != [] && |ss| == |acts| + 1 && |us| == |bs| + 1
    requires Enabled(ss[|acts| - 1], acts[|acts| - 1]) && Enabled(us[|bs| - 1], bs[|bs| - 1])
    requires Seen(acts[|acts| - 1]) == Seen(bs[|bs| - 1]) && Side(ss[|acts| - 1]) == Side(us[|bs| - 1])
    ensures CoversStep(ss, acts, |acts| - 1, us, bs, |bs| - 1)
  {
    var s, u, b := ss[|acts| - 1], us[|bs| - 1], bs[|bs| - 1];
    if b.Send? { assert Side(s).threads[b.t] == Side(u).threads[b.t]; }
  }

  lemma SentEarlier(us: seq<Sys>, bs: seq<Action>)
    requires bs != [] && |us| == |bs| + 1 && Seen(bs[|bs| - 1]) == []
    ensures Covers(us[..|bs|], bs[..|bs| - 1], us, bs)
  {
    forall i, n, q | WasSent(us, bs, |bs|, i, n, q) ensures WasSent(us[..|bs|], bs[..|bs| - 1], |bs| - 1, i, n, q) {
      var h :| 0 <= h < |bs| && SentAs(us, bs, h, i, n, q);
      assert SentAs(us[..|bs|], bs[..|bs| - 1], h, i, n, q);
    }
  }

  lemma SentStill(ss: seq<Sys>, acts: seq<Action>)
    requires acts != [] && |ss| == |acts| + 1
    ensures Covers(ss, acts, ss[..|acts|], acts[..|acts| - 1])
  {
    forall i, n, q | WasSent(ss[..|acts|], acts[..|acts| - 1], |acts| - 1, i, n, q)
      ensures WasSent(ss, acts, |acts|, i, n, q)
    {
      var h :| 0 <= h < |acts| - 1 && SentAs(ss[..|acts|], acts[..|acts| - 1], h, i, n, q);
      assert SentAs(ss, acts, h, i, n, q);
    }
  }

  lemma SentLast(ss: seq<Sys>, acts: seq<Action>, us: seq<Sys>, bs: seq<Action>)
    requires acts != [] && bs != [] && |ss| == |acts| + 1 && |us| == |bs| + 1
    requires Seen(acts[|acts| - 1]) == Seen(bs[|bs| - 1])
    requires Seen(acts[|acts| - 1]) != []
    requires CoversStep(ss, acts, |acts| - 1, us, bs, |bs| - 1)
    requires Covers(ss[..|acts|], acts[..|acts| - 1], us[..|bs|], bs[..|bs| - 1])
    ensures Covers(ss, acts, us, bs)
  {
    SentStill(ss, acts);
    forall i, n, q | WasSent(us, bs, |bs|, i, n, q) ensures WasSent(ss, acts, |acts|, i, n, q) {
      var h :| 0 <= h < |bs| && SentAs(us, bs, h, i, n, q);
      if h < |bs| - 1 {
        assert SentAs(us[..|bs|], bs[..|bs| - 1], h, i, n, q);
        assert WasSent(us[..|bs|], bs[..|bs| - 1], |bs| - 1, i, n, q);
      } else {
        assert SentAs(ss, acts, |acts| - 1, i, n, q);
      }
    }
  }

  // ---- What a client can know ----

  /** Another run in step that looks the same to the clients, and goes on with the send. */
  ghost predicate LooksSame(ss: seq<Sys>, acts: seq<Action>, t: nat, r: nat, us: seq<Sys>, bs: seq<Action>) {
    && ss != [] && us != [] && Run(us, bs) && Orderly(us, bs) && us[0] == ss[0]
    && ClientSteps(bs) == ClientSteps(acts) + [Send(t, r)]
  }

  /** From what the clients have done a client about to send r can be sure of never getting the reply to
      another request, over every run in step they cannot tell from this one, if and only if no other
      request has gone out under the number. */
  lemma SureIff(ss: seq<Sys>, acts: seq<Action>, t: nat, r: nat)
    requires ss != [] && Run(ss, acts) && Orderly(ss, acts) && t < |End(ss).threads| && End(ss).threads[t].Leased?
    requires End(ss).threads[t].num + 1 < TWO32
    ensures (forall h, q :: SentAs(ss, acts, h, End(ss).threads[t].lease.slotID, End(ss).threads[t].num, q) ==> q == r)
       <==> (forall us, bs :: LooksSame(ss, acts, t, r, us, bs) ==> EndsOwn(us, t))
  {
    hide Run, Orderly, SentAs;
    var pc := End(ss).threads[t];
    if forall h, q :: SentAs(ss, acts, h, pc.lease.slotID, pc.num, q) ==> q == r {
      forall us, bs | LooksSame(ss, acts, t, r, us, bs) ensures EndsOwn(us, t) { SureOwn(ss, acts, t, r, us, bs); }
    } else {
      var h, q :| SentAs(ss, acts, h, pc.lease.slotID, pc.num, q) && q != r;
      var us, bs := CannotTell(ss, acts, t, r, h, q);
      assert LooksSame(ss, acts, t, r, us, bs);
    }
  }

  lemma SureOwn(ss: seq<Sys>, acts: seq<Action>, t: nat, r: nat, us: seq<Sys>, bs: seq<Action>)
    requires ss != [] && Run(ss, acts) && Orderly(ss, acts) && t < |End(ss).threads| && End(ss).threads[t].Leased?
    requires forall h, q :: SentAs(ss, acts, h, End(ss).threads[t].lease.slotID, End(ss).threads[t].num, q) ==> q == r
    requires LooksSame(ss, acts, t, r, us, bs)
    ensures EndsOwn(us, t)
  {
    hide Run, Orderly, SentAs, Next, Timely, SkipsAhead, ClientSteps, Inv, Origins, WasSent;
    var pc := End(ss).threads[t];
    RunLength(ss, acts);
    RunLength(us, bs);
    NeitherLateNorFinish(End(ss), Send(t, r));
    var all, steps := OrderlySnoc(ss, acts, Send(t, r));
    SentIsWaiting(End(ss), t, r);
    SameSteps(all, steps, us, bs);
    SameWaiting(End(all), End(us), t);
    OrderlyIs(us, bs);
    OriginsUntil(us, bs, |bs|);
    if t < |End(us).threads| && !OwnAnswer(End(us).threads[t]) {
      AnswerWasSent(us, bs, t);
      var q := End(us).threads[t].answer.value.of;
      assert WasSent(all, steps, |steps|, pc.lease.slotID, pc.num, q);
      OnlyThatSent(ss, acts, all, t, r, q);
    }
  }

  lemma OrderlyIs(us: seq<Sys>, bs: seq<Action>)
    requires Orderly(us, bs)
    ensures |us| == |bs| + 1 && forall j :: 0 <= j < |bs| ==> Timely(us[j], bs[j]) && !SkipsAhead(us[j], bs[j])
  {}

  lemma SameWaiting(s: Sys, u: Sys, t: nat)
    requires Side(s) == Side(u) && t < |s.threads| && s.threads[t].Waiting?
    ensures t < |u.threads| && u.threads[t].Waiting? && u.threads[t].lease == s.threads[t].lease
    ensures u.threads[t].num == s.threads[t].num && u.threads[t].req == s.threads[t].req
  {
    assert Side(s).threads[t] == Side(u).threads[t];
  }

  lemma AnswerWasSent(us: seq<Sys>, bs: seq<Action>, t: nat)
    requires us != [] && |us| == |bs| + 1 && Shape(End(us)) && Origins(us, bs, |bs|)
    requires t < |End(us).threads| && !OwnAnswer(End(us).threads[t])
    ensures var pc := End(us).threads[t];
      pc.Waiting? && pc.answer.Some? && pc.answer.value.Replayed?
      && pc.answer.value.of != pc.req && WasSent(us, bs, |bs|, pc.lease.slotID, pc.num, pc.answer.value.of)
  {
    hide WasSent;
  }

  lemma OnlyThatSent(ss: seq<Sys>, acts: seq<Action>, all: seq<Sys>, t: nat, r: nat, q: nat)
    requires ss != [] && |ss| == |acts| + 1 && t < |End(ss).threads| && End(ss).threads[t].Leased? && ss <= all
    requires forall h, p :: SentAs(ss, acts, h, End(ss).threads[t].lease.slotID, End(ss).threads[t].num, p) ==> p == r
    requires WasSent(all, acts + [Send(t, r)], |acts| + 1, End(ss).threads[t].lease.slotID, End(ss).threads[t].num, q)
    ensures q == r
  {
    var i, n := End(ss).threads[t].lease.slotID, End(ss).threads[t].num;
    var h :| 0 <= h < |acts| + 1 && SentAs(all, acts + [Send(t, r)], h, i, n, q);
    if h < |acts| { assert SentAs(ss, acts, h, i, n, q); }
  }
}
