/** The session object, its leases, and the caller that puts SEQUENCE in front of every compound. */
module Sessions {
  import opened Machine
  import opened Xdr
  import opened Ops
  import opened Compound
  import opened Slots
  import opened Requests

  // ---- Acquire and release run to the end, on values ----

  /** Waiting for a token ends with one or by cancellation; with no token free only the latter. */
  function Acquire(t: Table, cancelled: bool): (Table, Option<Lease>) {
    if cancelled || t.free == 0 then (t, None)
    else
      var (u, got) := TakeSlot(t.(free := t.free - 1));
      if got.Some? then (u, got) else (u.(free := u.free + 1), None)
  }

  function Release(t: Table, i: nat, advance: bool): Table
    requires i < |t.slots|
  {
    var u := ClearSlot(t, i, advance);
    u.(free := u.free + 1)
  }

  function BusySlots(t: Table): nat { Count(t.slots, (x: Slot) => x.inUse) }

  /** Nobody is between the two halves of an acquire or a release. */
  predicate Kept(t: Table) { t.free + BusySlots(t) == |t.slots| }

  lemma AcquireFinds(t: Table, cancelled: bool)
    requires Kept(t)
    ensures Acquire(t, cancelled).1.Some? <==> !cancelled && t.free > 0
    ensures Acquire(t, cancelled).1.None? ==> Acquire(t, cancelled).0 == t
  {
    CountAll(t.slots, (x: Slot) => x.inUse);
  }

  /** Releasing what was acquired gives the table back, up to the sequence id and the high-water mark. */
  lemma AcquireRelease(t: Table, advance: bool)
    requires Kept(t) && t.free > 0
    ensures var (u, got) := Acquire(t, false);
      && got.Some? && got.value.slotID == FirstFree(t.slots, 0) < |t.slots| && |u.slots| == |t.slots|
      && !t.slots[got.value.slotID].inUse && got.value.seqID == t.slots[got.value.slotID].next
      && got.value.highest == u.highest == (if got.value.slotID > t.highest then got.value.slotID else t.highest)
      && Kept(Release(u, got.value.slotID, advance))
      && var n := if advance then Bump(got.value.seqID) else got.value.seqID;
         Release(u, got.value.slotID, advance)
           == Table(t.slots[got.value.slotID := Slot(n, false)], u.highest, t.free)
  {
    hide Bump;
    AcquireFinds(t, false);
    var (u, got) := Acquire(t, false);
    var i := got.value.slotID;
    var v := Release(u, i, advance);
    assert v.slots == t.slots[i := v.slots[i]];
    CountUpdate(t.slots, i, v.slots[i], (x: Slot) => x.inUse);
  }

  // ---- The objects ----

  class Session {
    const id: seq<byte>
    const slots: array<Slot>
    var highest: nat
    var free: nat

    function T(): Table
      reads this, slots
    {
      Table(slots[..], highest, free)
    }

    constructor (id: seq<byte>, slotCount: int)
      ensures fresh(slots) && this.id == id
      ensures slots.Length == if slotCount < 1 then 1 else slotCount
      ensures T() == Init(slots.Length, 0).table && Kept(T())
    {
      var n := if slotCount < 1 then 1 else slotCount;
      this.id := id;
      slots := new Slot[n](_ => Slot(1, false));
      highest, free := 0, n;
      new;
      CountAll(slots[..], (x: Slot) => x.inUse);
      assert slots[..] == Init(slots.Length, 0).table.slots;
    }

    /** The scan under the lock; the token is already taken. */
    method TakeFirst() returns (got: Option<Lease>)
      modifies this`highest, slots
      ensures (T(), got) == TakeSlot(old(T()))
    {
      hide Bump;
      for i := 0 to slots.Length
        invariant unchanged(this) && unchanged(slots)
        invariant forall j :: 0 <= j < i ==> slots[j].inUse
      {
        if !slots[i].inUse {
          assert FirstFree(slots[..], 0) == i by { FirstFreeIs(slots[..], 0, i); }
          slots[i] := slots[i].(inUse := true);
          assert slots[..] == old(slots[..])[i := slots[i]];
          if i > highest { highest := i; }
          return Some(Lease(i, slots[i].next, highest));
        }
      }
      FirstFreeIs(slots[..], 0, slots.Length);
      got := None;
    }

    method AcquireSlot(cancelled: bool) returns (l: SlotLease?)
      modifies this, slots
      ensures T() == Acquire(old(T()), cancelled).0
      ensures l == null <==> Acquire(old(T()), cancelled).1.None?
      ensures l != null ==> fresh(l) && l.s == this && !l.released && Some(l.lease) == Acquire(old(T()), cancelled).1
      ensures l != null ==> l.lease.slotID < slots.Length
    {
      hide TakeSlot, Bump;
      if cancelled || free == 0 { return null; }
      free := free - 1;
      var got := TakeFirst();
      if got.Some? {
        TakeSlotInRange(old(T()).(free := free));
        l := new SlotLease(this, got.value);
        return;
      }
      // Dead while the tokens balance (Slots.NoFallbackNoBlocking).
      free := free + 1;
      l := null;
    }
  }

  lemma {:induction false} FirstFreeIs(slots: seq<Slot>, i: nat, k: nat)
    requires i <= k <= |slots| && forall j :: i <= j < k ==> slots[j].inUse
    requires k < |slots| ==> !slots[k].inUse
    ensures FirstFree(slots, i) == k
    decreases k - i
  {
    if i < k { FirstFreeIs(slots, i + 1, k); }
  }

  lemma TakeSlotInRange(t: Table)
    ensures TakeSlot(t).1.Some? ==> TakeSlot(t).1.value.slotID < |t.slots|
    ensures |TakeSlot(t).0.slots| == |t.slots|
  {}

  class SlotLease {
    const s: Session
    const lease: Lease
    var released: bool

    constructor (s: Session, lease: Lease)
      ensures this.s == s && this.lease == lease && !released
    {
      this.s, this.lease, released := s, lease, false;
    }

    /** The first release clears the slot and gives the token back; a second one does nothing. */
    method ReleaseOnce(advance: bool)
      requires lease.slotID < s.slots.Length
      modifies this, s, s.slots
      ensures released
      ensures s.T() == if old(released) then old(s.T()) else Release(old(s.T()), lease.slotID, advance)
    {
      if released { return; }
      released := true;
      var i := lease.slotID;
      if advance { s.slots[i] := s.slots[i].(next := Bump(s.slots[i].next)); }
      s.slots[i] := s.slots[i].(inUse := false);
      assert s.slots[..] == old(s.slots[..])[i := s.slots[i]];
      s.free := s.free + 1;
    }

    method Done()
      requires lease.slotID < s.slots.Length
      modifies this, s, s.slots
      ensures released
      ensures s.T() == if old(released) then old(s.T()) else Release(old(s.T()), lease.slotID, true)
    {
      ReleaseOnce(true);
    }

    method Retry()
      requires lease.slotID < s.slots.Length
      modifies this, s, s.slots
      ensures released
      ensures s.T() == if old(released) then old(s.T()) else Release(old(s.T()), lease.slotID, false)
    {
      ReleaseOnce(false);
    }
  }

  // ---- The session caller ----

  datatype CallError =
    | Cancelled
    | Transport
    | Undecodable(why: DecodeError)
    | StatusError(status: uint32)
    | SequenceError(status: uint32)

  predicate HasStatus(e: CallError, st: uint32) {
    (e.StatusError? || e.SequenceError?) && e.status == st
  }

  /** What the transport below does with a compound: fail, or bring back a reply body. */
  datatype BaseOutcome = BaseFails(error: CallError) | Replied(body: seq<byte>)

  type CallResult = Result<CompoundResult, CallError>

  function BaseCall(b: BaseOutcome, rs: seq<Res>): (r: (CallResult, seq<Res>))
    ensures |r.1| == |rs|
  {
    match b
    case BaseFails(e) => (Err(e), rs)
    case Replied(body) =>
      var (r, rs', _) := GetCompound(rs, Dec(body, None));
      (if r.Ok? then Ok(r.value) else Err(Undecodable(r.error)), rs')
  }

  const NO_SEQUENCE := SequenceRes(0, Zeros(SESSION_ID_LEN), 0, 0, 0, 0, 0)

  /** One request that went out: its slot, sequence id and reported highest slot, and whether the base call
      came back without error. */
  datatype Sent = Sent(slotID: nat, seqID: uint32, highest: nat, returned: bool)

  /** One compound through the session: the table, the caller's decoders, the result, what was sent. */
  function SessionCall(t: Table, rs: seq<Res>, cancelled: bool,
                       b: BaseOutcome): (r: (Table, seq<Res>, CallResult, Option<Sent>))
    ensures |r.1| == |rs|
  {
    var (u, got) := Acquire(t, cancelled);
    if got.None? then (u, rs, Err(Cancelled), None)
    else
      var l := got.value;
      TakeSlotInRange(t.(free := t.free - 1));
      var (r, ws) := BaseCall(b, [NO_SEQUENCE] + rs);
      var back := Release(u, l.slotID, r.Ok?);
      var sent := Some(Sent(l.slotID, l.seqID, l.highest, r.Ok?));
      if r.Err? then (back, ws[1..], r, sent)
      else if ws[0].status != NFS4_OK then (back, ws[1..], Err(SequenceError(ws[0].status)), sent)
      else
        var n := r.value.numResults;
        (back, ws[1..], Ok(r.value.(numResults := if n > 0 then n - 1 else 0)), sent)
  }

  /** One session call takes and gives back at most one lease, for the first free slot, and touches
      nothing else: the slot is free again, advanced exactly when the base call returned without error. */
  lemma SessionCallKeeps(t: Table, rs: seq<Res>, cancelled: bool, b: BaseOutcome)
    requires Kept(t)
    ensures var (u, _, r, sent) := SessionCall(t, rs, cancelled, b);
      && Kept(u) && u.free == t.free && |u.slots| == |t.slots|
      && (sent.Some? <==> !cancelled && t.free > 0)
      && (sent.None? ==> u == t && r == Err(Cancelled))
      && (sent.Some? ==>
            && sent.value.slotID == FirstFree(t.slots, 0) < |t.slots| && !t.slots[sent.value.slotID].inUse
            && sent.value.seqID == t.slots[sent.value.slotID].next
            && sent.value.highest == u.highest
            && u.highest == (if sent.value.slotID > t.highest then sent.value.slotID else t.highest)
            && u.slots == t.slots[sent.value.slotID :=
                 Slot(if sent.value.returned then Bump(sent.value.seqID) else sent.value.seqID, false)])
  {
    hide Bump, BaseCall, TakeSlot, Release, Kept;
    AcquireFinds(t, cancelled);
    if !cancelled && t.free > 0 {
      AcquireRelease(t, true);
      AcquireRelease(t, false);
    }
  }

  /** For every reply whose leading SEQUENCE result is OK, the caller cannot tell the session is
      there: decoders and result are those of decoding the reply without the SEQUENCE. */
  lemma SessionIsTransparent(t: Table, rs: seq<Res>, status: uint32, tag: seq<byte>, n: uint32, sq: Body,
                             body: seq<byte>)
    requires Kept(t) && t.free > 0
    requires |tag| <= MAX_LEN && n + 1 < TWO32 && sq.BSequence? && BodyOk(sq)
    ensures var (_, rs1, r1, _) := SessionCall(t, rs, false, Replied(WithSequence(status, tag, n, sq, body)));
      var (r2, rs2) := BaseCall(Replied(RawReply(status, tag, n, body)), rs);
      rs1 == rs2 && (r2.Ok? ==> r1 == r2) && (r2.Err? ==> r1.Err? && r1.error.Undecodable?)
  {
    hide GetCompound, WithSequence, RawReply, TakeSlot, Release, Kept, BodyOk, Fill;
    AcquireFinds(t, false);
    SequenceIsTransparent(NO_SEQUENCE, rs, status, tag, n, sq, body);
    SequenceFilled(sq);
  }

  /** A reply without any result goes through as it is, and counts as returned: the slot advances. */
  lemma BareReplyPasses(t: Table, rs: seq<Res>, status: uint32, tag: seq<byte>, body: seq<byte>)
    requires Kept(t) && t.free > 0 && |tag| <= MAX_LEN
    ensures var (_, rs1, r, sent) := SessionCall(t, rs, false, Replied(RawReply(status, tag, 0, body)));
      rs1 == rs && r == Ok(CompoundResult(status, tag, 0)) && sent.Some? && sent.value.returned
  {
    hide GetU32, PutU32, GetOpaque, PutOpaque, TakeSlot, Release, Kept;
    AcquireFinds(t, false);
    var all := [NO_SEQUENCE] + rs;
    assert GetCompound(all, Dec(RawReply(status, tag, 0, body), None)).0 == Ok(CompoundResult(status, tag, 0));
    assert all[1..] == rs;
  }

  lemma SequenceFilled(sq: Body)
    requires sq.BSequence?
    ensures Fill(NO_SEQUENCE, Answer(OP_SEQUENCE, NFS4_OK, sq)).status == NFS4_OK
  {}

  /** A request on the table's first free slot, under its stored id, reporting the mark raised to the slot. */
  predicate OnFirstFree(t: Table, e: Sent) {
    && e.slotID < |t.slots| && !t.slots[e.slotID].inUse && (forall j :: 0 <= j < e.slotID ==> t.slots[j].inUse)
    && e.seqID == t.slots[e.slotID].next && e.highest == if e.slotID > t.highest then e.slotID else t.highest
  }

  lemma LeaseIs(t: Table, cancelled: bool, returned: bool)
    ensures Acquire(t, cancelled).1.Some? ==>
      var l := Acquire(t, cancelled).1.value; OnFirstFree(t, Sent(l.slotID, l.seqID, l.highest, returned))
  {}

  /** The caller's request as it goes out under a lease. */
  function RequestFor(r: Request, id: seq<byte>, e: Sent): Request {
    Wrapped(r, SequenceFor(id, Lease(e.slotID, e.seqID, e.highest)))
  }

  /** The base call with a SEQUENCE decoder in front of the caller's own. */
  method CallBase(results: array<Res>, b: BaseOutcome) returns (r: CallResult, status: uint32)
    modifies results
    ensures var (x, ws) := BaseCall(b, [NO_SEQUENCE] + old(results[..]));
      r == x && status == ws[0].status && results[..] == ws[1..]
  {
    hide GetCompound;
    var n := results.Length;
    var wrapped := new Res[n + 1](i requires 0 <= i < n + 1 reads results =>
      if i == 0 then NO_SEQUENCE else results[i - 1]);
    assert wrapped[..] == [NO_SEQUENCE] + results[..];
    match b {
      case BaseFails(e) => r := Err(e);
      case Replied(body) =>
        var d := new Decoder(body);
        var x := DecodeCompound(d, wrapped);
        r := if x.Ok? then Ok(x.value) else Err(Undecodable(x.error));
    }
    ghost var after := wrapped[..];
    forall i | 0 <= i < n { results[i] := wrapped[i + 1]; }
    assert results[..] == after[1..];
    status := wrapped[0].status;
  }

  /** The caller object: acquire, prepend, call, release on every path. What goes out is the caller's request
      behind a SEQUENCE that names the leased slot. */
  method CallCompound(s: Session, c: Builder, results: array<Res>, cancelled: bool, b: BaseOutcome)
    returns (r: CallResult, sent: Option<Sent>, request: Option<Request>)
    modifies s, s.slots, results
    ensures (s.T(), results[..], r, sent) == SessionCall(old(s.T()), old(results[..]), cancelled, b)
    ensures sent.None? <==> request.None?
    ensures sent.Some? ==> OnFirstFree(old(s.T()), sent.value)
    ensures sent.Some? ==> request == Some(RequestFor(c.R(), s.id, sent.value))
    ensures sent.Some? && RequestOk(c.R()) && |c.ops| + 1 < TWO32 && |s.id| == SESSION_ID_LEN ==>
              SeenAs(RequestBytes(request.value), c.R(), s.id, sent.value.seqID, sent.value.slotID, sent.value.highest)
  {
    hide BaseCall, Acquire, Release, Wrapped, SequenceFor, SeenAs, RequestBytes, OnFirstFree;
    sent, request := None, None;
    var lease := s.AcquireSlot(cancelled);
    if lease == null { return Err(Cancelled), None, None; }
    var w := WrapRequest(c, SequenceFor(s.id, lease.lease));
    request := Some(w.R());
    if RequestOk(c.R()) && |c.ops| + 1 < TWO32 && |s.id| == SESSION_ID_LEN { NamesLease(c.R(), s.id, lease.lease); }
    var status;
    r, status := CallBase(results, b);
    LeaseIs(old(s.T()), cancelled, r.Ok?);
    sent := Some(Sent(lease.lease.slotID, lease.lease.seqID, lease.lease.highest, r.Ok?));
    if r.Err? {
      lease.Retry();
      return;
    }
    lease.Done();
    if status != NFS4_OK { return Err(SequenceError(status)), sent, request; }
    if r.value.numResults > 0 {
      r := Ok(r.value.(numResults := r.value.numResults - 1));
    }
  }
}
