/** The ONC RPC client: transaction ids, reply headers (section 9 of RFC 5531) and the
    acceptance of replies over a whole connection. */
module Rpc {
  import opened Machine
  import opened Xdr
  import opened Record

  const MSG_CALL := 0
  const MSG_REPLY := 1
  const RPC_VERSION := 2
  const MSG_ACCEPTED := 0
  const MSG_DENIED := 1
  const ACCEPT_SUCCESS := 0
  const ACCEPT_PROG_MISMATCH := 2
  const REJECT_RPC_MISMATCH := 0
  const REJECT_AUTH_ERROR := 1

  // ---- Reply headers ----

  datatype Auth = Auth(flavor: uint32, body: seq<byte>)

  datatype ReplyBody =
    | Accepted(verf: Auth, acceptStat: uint32, low: uint32, high: uint32)
    | RpcMismatch(lowVersion: uint32, highVersion: uint32)
    | AuthError(authStat: uint32)

  datatype ReplyHeader = ReplyHeader(xid: uint32, body: ReplyBody)

  datatype HeaderError = Malformed | NotAReply | UnknownReject | UnknownReply

  /** The numbers of RFC 5531, section 9. */
  lemma AssignedNumbers()
    ensures MSG_CALL == 0 && MSG_REPLY == 1 && RPC_VERSION == 2 && MSG_ACCEPTED == 0 && MSG_DENIED == 1
    ensures ACCEPT_SUCCESS == 0 && ACCEPT_PROG_MISMATCH == 2 && REJECT_RPC_MISMATCH == 0 && REJECT_AUTH_ERROR == 1
  {}

  predicate IsSuccess(h: ReplyHeader) {
    h.body.Accepted? && h.body.acceptStat == ACCEPT_SUCCESS
  }

  function GetAuth(d: Dec): (Auth, Dec) {
    var (flavor, e) := GetU32(d);
    var (body, f) := GetOpaque(e);
    (Auth(flavor, body), f)
  }

  function GetPair(d: Dec): (uint32, uint32, Dec) {
    var (a, e) := GetU32(d);
    var (b, f) := GetU32(e);
    (a, b, f)
  }

  function Checked(h: ReplyHeader, d: Dec): (Result<ReplyHeader, HeaderError>, Dec) {
    (if d.Good() then Ok(h) else Err(Malformed), d)
  }

  function GetReplyHeader(d: Dec): (Result<ReplyHeader, HeaderError>, Dec) {
    var (xid, d1) := GetU32(d);
    var (mtype, d2) := GetU32(d1);
    if !d2.Good() then (Err(Malformed), d2)
    else if mtype != MSG_REPLY then (Err(NotAReply), d2)
    else
      var (stat, d3) := GetU32(d2);
      if stat == MSG_ACCEPTED then
        var (verf, d4) := GetAuth(d3);
        var (acc, d5) := GetU32(d4);
        if acc == ACCEPT_PROG_MISMATCH then
          var (lo, hi, d6) := GetPair(d5);
          Checked(ReplyHeader(xid, Accepted(verf, acc, lo, hi)), d6)
        else Checked(ReplyHeader(xid, Accepted(verf, acc, 0, 0)), d5)
      else if stat == MSG_DENIED then
        var (rej, d4) := GetU32(d3);
        if rej == REJECT_RPC_MISMATCH then
          var (lo, hi, d5) := GetPair(d4);
          Checked(ReplyHeader(xid, RpcMismatch(lo, hi)), d5)
        else if rej == REJECT_AUTH_ERROR then
          var (a, d5) := GetU32(d4);
          Checked(ReplyHeader(xid, AuthError(a)), d5)
        else (Err(UnknownReject), d4)
      else (Err(UnknownReply), d3)
  }

  predicate HeaderOk(h: ReplyHeader) {
    h.body.Accepted? ==>
      && |h.body.verf.body| <= MAX_LEN
      && (h.body.acceptStat != ACCEPT_PROG_MISMATCH ==> h.body.low == h.body.high == 0)
  }

  /** A reply header as a server writes it, in front of the results. */
  function PutHeader(h: ReplyHeader, tail: seq<byte>): seq<byte>
    requires HeaderOk(h)
  {
    PutU32(h.xid, PutU32(MSG_REPLY,
      match h.body
      case Accepted(verf, acc, lo, hi) =>
        PutU32(MSG_ACCEPTED, PutU32(verf.flavor, PutOpaque(verf.body,
          PutU32(acc, if acc == ACCEPT_PROG_MISMATCH then PutU32(lo, PutU32(hi, tail)) else tail))))
      case RpcMismatch(lo, hi) => PutU32(MSG_DENIED, PutU32(REJECT_RPC_MISMATCH, PutU32(lo, PutU32(hi, tail))))
      case AuthError(a) => PutU32(MSG_DENIED, PutU32(REJECT_AUTH_ERROR, PutU32(a, tail)))))
  }

  /** Every reply header, accepted or denied, decodes to itself and leaves what follows. */
  lemma HeaderRoundTrip(h: ReplyHeader, tail: seq<byte>)
    requires HeaderOk(h)
    ensures GetReplyHeader(Dec(PutHeader(h, tail), None)) == (Ok(h), Dec(tail, None))
  {
    hide BE32, FromBE32, GetU32, GetOpaque, PutU32, PutOpaque;
    match h.body
    case Accepted(_, _, _, _) =>
    case RpcMismatch(_, _) =>
    case AuthError(_) =>
  }

  /** The record a server sends in answer to the call with this xid. */
  function AnswerTo(xid: uint32, verf: Auth, results: seq<byte>): seq<byte>
    requires |verf.body| <= MAX_LEN
  {
    PutHeader(ReplyHeader(xid, Accepted(verf, ACCEPT_SUCCESS, 0, 0)), results)
  }

  lemma AnswerHeader(xid: uint32, verf: Auth, results: seq<byte>)
    requires |verf.body| <= MAX_LEN
    ensures GetReplyHeader(Dec(AnswerTo(xid, verf, results), None))
         == (Ok(ReplyHeader(xid, Accepted(verf, ACCEPT_SUCCESS, 0, 0))), Dec(results, None))
  {
    hide GetReplyHeader, PutHeader;
    HeaderRoundTrip(ReplyHeader(xid, Accepted(verf, ACCEPT_SUCCESS, 0, 0)), results);
  }

  method DecodeAuth(d: Decoder) returns (a: Auth)
    modifies d
    ensures (a, d.S()) == GetAuth(old(d.S()))
  {
    var flavor := d.Uint32();
    var body := d.Opaque();
    a := Auth(flavor, body);
  }

  method DecodeReplyHeader(d: Decoder) returns (r: Result<ReplyHeader, HeaderError>)
    modifies d
    ensures (r, d.S()) == GetReplyHeader(old(d.S()))
  {
    hide BE32, FromBE32, GetU32, GetOpaque;
    var xid := d.Uint32();
    var mtype := d.Uint32();
    if d.err.Some? { return Err(Malformed); }
    if mtype != MSG_REPLY { return Err(NotAReply); }
    var body: ReplyBody;
    var stat := d.Uint32();
    if stat == MSG_ACCEPTED {
      var verf := DecodeAuth(d);
      var acc := d.Uint32();
      var lo, hi := 0, 0;
      if acc == ACCEPT_PROG_MISMATCH {
        lo := d.Uint32();
        hi := d.Uint32();
      }
      body := Accepted(verf, acc, lo, hi);
    } else if stat == MSG_DENIED {
      var rej := d.Uint32();
      if rej == REJECT_RPC_MISMATCH {
        var lo := d.Uint32();
        var hi := d.Uint32();
        body := RpcMismatch(lo, hi);
      } else if rej == REJECT_AUTH_ERROR {
        var a := d.Uint32();
        body := AuthError(a);
      } else {
        return Err(UnknownReject);
      }
    } else {
      return Err(UnknownReply);
    }
    if d.err.Some? { return Err(Malformed); }
    r := Ok(ReplyHeader(xid, body));
  }

  // ---- Transaction ids ----

  const XIDS := 0xFFFF_FFFF  // the non-zero 32-bit values

  function NextXid(x: uint32): (y: uint32)
    ensures y != 0
  {
    var y := (x + 1) % TWO32;
    if y == 0 then 1 else y
  }

  /** The counter after k allocations. */
  function XidAfter(seed: uint32, k: nat): uint32 {
    if k == 0 then seed else (seed + k - 1) % XIDS + 1
  }

  lemma XidStep(seed: uint32, k: nat)
    ensures NextXid(XidAfter(seed, k)) == XidAfter(seed, k + 1)
  {
    if k > 0 {
      var a := seed + k - 1;
      assert (a + 1) % XIDS == if a % XIDS + 1 == XIDS then 0 else a % XIDS + 1;
    }
  }

  /** Two allocations agree exactly when a multiple of 2^32 - 1 apart: any 2^32 - 1
      consecutive ids are pairwise distinct, and none is zero. */
  lemma XidsRepeatIff(seed: uint32, i: nat, j: nat)
    requires 1 <= i <= j
    ensures XidAfter(seed, i) == XidAfter(seed, j) <==> (j - i) % XIDS == 0
    ensures XidAfter(seed, i) != 0
  {
    var a, b := seed + i - 1, seed + j - 1;
    assert a == a / XIDS * XIDS + a % XIDS && b == b / XIDS * XIDS + b % XIDS;
    assert b - a == (b / XIDS - a / XIDS) * XIDS + (b % XIDS - a % XIDS);
  }

  // ---- One call on values ----

  /** The call message: `body` is program, version, procedure, credentials and arguments. */
  function CallBytes(xid: uint32, body: seq<byte>): seq<byte> {
    PutU32(xid, PutU32(MSG_CALL, PutU32(RPC_VERSION, body)))
  }

  /** The link as the client sees it. */
  datatype Link = Link(nextID: uint32, open: bool, room: nat, inbound: seq<byte>, outbound: seq<byte>)

  /** What the environment does during one call: the context may be done before it starts or while it
      waits, with this much of the request written; bytes arrive; the result decoder accepts the body
      or not. */
  datatype Env = Env(ctxDone: bool, cancelled: bool, written: nat, arrives: seq<byte>, decodes: Dec -> bool,
                     request: seq<byte>)

  datatype Outcome =
    | NotStarted
    | Cancelled(xid: uint32)
    | Failed(xid: uint32)
    | Success(xid: uint32, record: seq<byte>)

  predicate Accepts(xid: uint32, record: seq<byte>, decodes: Dec -> bool) {
    var (h, d) := GetReplyHeader(Dec(record, None));
    h.Ok? && h.value.xid == xid && IsSuccess(h.value) && decodes(d)
  }

  /** A call's request, or as much of it as the link and the cancellation let through. */
  function RequestTaken(l: Link, xid: uint32, c: Env): (q: seq<byte>)
    ensures |q| <= l.room
  {
    var q := RecordTaken(l.open, l.room, CallBytes(xid, c.request));
    if c.cancelled then Fits(q, c.written) else q
  }

  predicate Sends(l: Link, xid: uint32, c: Env) {
    var rec := RecordBytes(CallBytes(xid, c.request)); l.open && rec.Ok? && |rec.value| <= l.room
  }

  function CallStep(l: Link, c: Env): (Link, Outcome) {
    if c.ctxDone then (l, NotStarted)
    else
      var xid := NextXid(l.nextID);
      var taken := RequestTaken(l, xid, c);
      var u := Link(xid, l.open && !c.cancelled, l.room - |taken|, l.inbound, l.outbound + taken);
      if c.cancelled then (u, Cancelled(xid))
      else if !Sends(l, xid, c) then (u.(inbound := l.inbound + c.arrives), Failed(xid))
      else
        var (m, rest) := Parse(l.inbound + c.arrives, []);
        (u.(inbound := rest),
         if m.Ok? && Accepts(xid, m.value, c.decodes) then Success(xid, m.value) else Failed(xid))
  }

  /** A record read as a call: its id, message type and RPC version, and what follows. */
  function ReadCall(m: seq<byte>): (uint32, uint32, uint32, Dec) {
    var (xid, d1) := GetU32(Dec(m, None));
    var (mtype, d2) := GetU32(d1);
    var (version, d3) := GetU32(d2);
    (xid, mtype, version, d3)
  }

  /** What a call that goes through adds to the stream is one record (within the fragment limit): a call
      (message type 0) of RPC version 2 under the call's own id, and then exactly its request. */
  lemma SendsItsCall(l: Link, c: Env)
    requires !c.ctxDone && !c.cancelled && Sends(l, NextXid(l.nextID), c) && |c.request| + 12 <= MAX_FRAGMENT
    ensures var (u, o) := CallStep(l, c);
      && |l.outbound| <= |u.outbound| && u.outbound[..|l.outbound|] == l.outbound
      && var (m, rest) := Parse(u.outbound[|l.outbound|..], []);
         m.Ok? && rest == [] && Started(o) && ReadCall(m.value) == (o.xid, 0, 2, Dec(c.request, None))
  {
    hide Parse, Accepts, NextXid, PutU32, GetU32, RecordBytes;
    var xid := NextXid(l.nextID);
    var payload := CallBytes(xid, c.request);
    var rec := RecordBytes(payload).value;
    assert Fits(rec, l.room) == rec;
    assert (l.outbound + rec)[|l.outbound|..] == rec == rec + [];
    WriteThenRead(payload, []);
  }

  /** The round trip: when the server's answer to the id it read in that request is next in the stream, and
      its results decode, the call succeeds with it. */
  lemma OwnAnswerAccepted(l: Link, c: Env, verf: Auth, results: seq<byte>, rest: seq<byte>)
    requires !c.ctxDone && !c.cancelled && Sends(l, NextXid(l.nextID), c) && |c.request| + 12 <= MAX_FRAGMENT
    requires |verf.body| <= MAX_LEN && c.decodes(Dec(results, None))
    requires var sent := CallStep(l, c).0.outbound; |l.outbound| <= |sent| && Parse(sent[|l.outbound|..], []).0.Ok?
    requires var request := Parse(CallStep(l, c).0.outbound[|l.outbound|..], []).0.value;
      Parse(l.inbound + c.arrives, []) == (Ok(AnswerTo(ReadCall(request).0, verf, results)), rest)
    ensures var (u, o) := CallStep(l, c);
      && o.Success? && o.record == AnswerTo(o.xid, verf, results) && u.inbound == rest && u.open
  {
    hide Parse, GetReplyHeader, NextXid, RequestTaken, RecordBytes, CallBytes, ReadCall, AnswerTo;
    SendsItsCall(l, c);
    AnswerHeader(NextXid(l.nextID), verf, results);
  }

  /** Of the headers a server can write, exactly an accepted one with accept_stat 0 and the call's own id is
      accepted, if its results decode: no denied reply, no other accept_stat. */
  lemma AcceptedIff(xid: uint32, h: ReplyHeader, results: seq<byte>, decodes: Dec -> bool)
    requires HeaderOk(h)
    ensures Accepts(xid, PutHeader(h, results), decodes)
       <==> h.xid == xid && h.body.Accepted? && h.body.acceptStat == 0 && decodes(Dec(results, None))
  {
    hide GetReplyHeader, PutHeader;
    HeaderRoundTrip(h, results);
  }

  /** Whatever the record, it is accepted only if it starts with the call's id, message type 1 (reply) and
      reply_stat 0 (accepted). */
  lemma AcceptedWords(xid: uint32, m: seq<byte>, decodes: Dec -> bool)
    requires Accepts(xid, m, decodes)
    ensures var (x, mtype, stat, _) := ReadCall(m); x == xid && mtype == 1 && stat == 0
  {
    hide GetU32, GetOpaque;
  }

  // ---- Runs ----

  function LinkAt(l: Link, run: seq<Env>, i: nat): Link
    requires i <= |run|
  {
    if i == 0 then l else CallStep(LinkAt(l, run, i - 1), run[i - 1]).0
  }

  function OutcomeAt(l: Link, run: seq<Env>, i: nat): Outcome
    requires i < |run|
  {
    CallStep(LinkAt(l, run, i), run[i]).1
  }

  /** Ids allocated by the first i calls. */
  function Allocated(run: seq<Env>, i: nat): nat
    requires i <= |run|
  {
    if i == 0 then 0 else Allocated(run, i - 1) + if run[i - 1].ctxDone then 0 else 1
  }

  lemma {:induction false} CounterAt(l: Link, run: seq<Env>, i: nat)
    requires i <= |run|
    ensures LinkAt(l, run, i).nextID == XidAfter(l.nextID, Allocated(run, i))
  {
    hide Parse, Accepts, XidAfter, NextXid, RequestTaken, Sends;
    if i == 0 {
      assert XidAfter(l.nextID, 0) == l.nextID by { ZeroAllocations(l.nextID); }
    } else {
      CounterAt(l, run, i - 1);
      XidStep(l.nextID, Allocated(run, i - 1));
    }
  }

  lemma ZeroAllocations(seed: uint32)
    ensures XidAfter(seed, 0) == seed
  {}

  lemma {:induction false} AllocatedMonotone(run: seq<Env>, i: nat, j: nat)
    requires i <= j <= |run|
    ensures Allocated(run, i) <= Allocated(run, j) <= Allocated(run, i) + (j - i)
    decreases j
  {
    if i < j { AllocatedMonotone(run, i, j - 1); }
  }

  predicate Started(o: Outcome) { !o.NotStarted? }

  /** The id of a call that started. */
  lemma XidOfCall(l: Link, run: seq<Env>, i: nat)
    requires i < |run| && Started(OutcomeAt(l, run, i))
    ensures OutcomeAt(l, run, i).xid == XidAfter(l.nextID, Allocated(run, i) + 1)
    ensures Allocated(run, i + 1) == Allocated(run, i) + 1
  {
    hide Parse, Accepts, XidAfter, NextXid, RequestTaken, Sends;
    CounterAt(l, run, i);
    XidStep(l.nextID, Allocated(run, i));
  }

  /** Over every run on a connection, whatever bytes arrive and however far the reply stream is
      out of step: a call succeeds only on a record that bears its own id, and that record is not
      the answer to any earlier call among the last 2^32 - 1 ids. */
  lemma SuccessIsOwnReply(l: Link, run: seq<Env>, i: nat, j: nat, verf: Auth, results: seq<byte>)
    requires i <= j < |run| && j - i < XIDS && |verf.body| <= MAX_LEN
    ensures var o := OutcomeAt(l, run, j); o.Success? ==> Accepts(o.xid, o.record, run[j].decodes)
    ensures var (p, o) := (OutcomeAt(l, run, i), OutcomeAt(l, run, j));
      o.Success? && Started(p) && o.record == AnswerTo(p.xid, verf, results) ==> i == j
  {
    hide Parse, GetReplyHeader, XidAfter, NextXid, RequestTaken, Sends, AnswerTo, LinkAt;
    if i < j && OutcomeAt(l, run, j).Success? && Started(OutcomeAt(l, run, i)) {
      XidOfCall(l, run, i);
      XidOfCall(l, run, j);
      AllocatedMonotone(run, i + 1, j);
      XidsRepeatIff(l.nextID, Allocated(run, i) + 1, Allocated(run, j) + 1);
      AnswerHeader(OutcomeAt(l, run, i).xid, verf, results);
    }
  }

  /** Exactly how far the guarantee reaches: a late answer to call i that is next in the stream
      when call j reads is taken for call j's own iff the ids between them have wrapped round. */
  lemma StaleAnswerTakenIff(l: Link, run: seq<Env>, i: nat, j: nat, verf: Auth, results: seq<byte>, rest: seq<byte>)
    requires i < j < |run| && Started(OutcomeAt(l, run, i)) && |verf.body| <= MAX_LEN
    requires var s := LinkAt(l, run, j);
      && Sends(s, NextXid(s.nextID), run[j])
      && Parse(s.inbound + run[j].arrives, []) == (Ok(AnswerTo(OutcomeAt(l, run, i).xid, verf, results)), rest)
    requires !run[j].ctxDone && !run[j].cancelled
    requires run[j].decodes(Dec(results, None))
    ensures OutcomeAt(l, run, j).Success? <==> (Allocated(run, j) - Allocated(run, i)) % XIDS == 0
  {
    hide Parse, GetReplyHeader, XidAfter, NextXid, RequestTaken, Sends, AnswerTo, LinkAt;
    XidOfCall(l, run, i);
    CounterAt(l, run, j);
    XidStep(l.nextID, Allocated(run, j));
    AllocatedMonotone(run, i + 1, j);
    XidsRepeatIff(l.nextID, Allocated(run, i) + 1, Allocated(run, j) + 1);
    AnswerHeader(OutcomeAt(l, run, i).xid, verf, results);
  }

  /** A cancelled call closes the connection: nothing succeeds on it and nothing is sent afterwards. */
  lemma {:induction false} NothingAfterCancel(l: Link, run: seq<Env>, i: nat, j: nat)
    requires i < j < |run| && OutcomeAt(l, run, i).Cancelled?
    ensures !LinkAt(l, run, j).open && !OutcomeAt(l, run, j).Success?
    ensures LinkAt(l, run, j).outbound == LinkAt(l, run, i + 1).outbound
    decreases j
  {
    hide Parse, Accepts, NextXid, RequestTaken, Sends;
    ClosedSendsNothing(LinkAt(l, run, j), run[j]);
    if i + 1 < j {
      NothingAfterCancel(l, run, i, j - 1);
      ClosedSendsNothing(LinkAt(l, run, j - 1), run[j - 1]);
    }
  }

  lemma ClosedSendsNothing(l: Link, c: Env)
    ensures !l.open ==> RequestTaken(l, NextXid(l.nextID), c) == [] && !Sends(l, NextXid(l.nextID), c)
  {
    hide RecordBytes, CallBytes, NextXid;
  }

  // ---- The client object ----

  class Client {
    var nextID: uint32
    const conn: Stream

    constructor (conn: Stream, seed: uint32)
      ensures this.conn == conn && nextID == seed
    {
      this.conn, nextID := conn, seed;
    }

    function View(): Link
      reads this, conn
    {
      Link(nextID, conn.open, conn.room, conn.inbound, conn.outbound)
    }

    method AllocXID() returns (xid: uint32)
      modifies this
      ensures xid == nextID == NextXid(old(nextID))
    {
      nextID := (nextID + 1) % TWO32;
      if nextID == 0 { nextID := 1; }
      xid := nextID;
    }

    method DecodeReply(xid: uint32, reply: seq<byte>, decodes: Dec -> bool) returns (ok: bool)
      ensures ok == Accepts(xid, reply, decodes)
    {
      var dec := new Decoder(reply);
      var h := DecodeReplyHeader(dec);
      if h.Err? { return false; }
      if h.value.xid != xid { return false; }
      if !IsSuccess(h.value) { return false; }
      ok := decodes(dec.S());
    }

    /** One call; bytes that arrive while it waits are appended to the stream. When the context ends it,
        the write may have got anywhere, and the connection is closed. */
    method Call(c: Env) returns (o: Outcome)
      modifies this, conn
      ensures (View(), o) == CallStep(old(View()), c)
    {
      hide Parse, Accepts, RecordBytes, NextXid, CallBytes;
      if c.ctxDone { return NotStarted; }
      var xid := AllocXID();
      var payload := CallBytes(xid, c.request);
      if c.cancelled {
        PartOfRecord(payload, c.written);
        conn.Close();
        return Cancelled(xid);
      }
      conn.inbound := conn.inbound + c.arrives;
      var sent := WriteRecord(conn, payload);
      if sent.Err? { return Failed(xid); }
      var reply := ReadRecord(conn);
      if reply.Err? { return Failed(xid); }
      var ok := DecodeReply(xid, reply.value, c.decodes);
      o := if ok then Success(xid, reply.value) else Failed(xid);
    }

    /** The write of a record broken off after n bytes at most. */
    method PartOfRecord(payload: seq<byte>, n: nat)
      modifies conn
      ensures unchanged(conn`open) && unchanged(conn`inbound)
      ensures conn.outbound == old(conn.outbound) + Fits(RecordTaken(old(conn.open), old(conn.room), payload), n)
      ensures conn.room == old(conn.room) - |Fits(RecordTaken(old(conn.open), old(conn.room), payload), n)|
    {
      hide Marker;
      var rec := RecordBytes(payload);
      if rec.Ok? {
        var part := Fits(rec.value, n);
        var _ := conn.Write(part);
        assert Fits(part, old(conn.room)) == Fits(Fits(rec.value, old(conn.room)), n);
      }
    }
  }
}
