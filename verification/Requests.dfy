/** COMPOUND requests: building, encoding, and what the server sees once the session caller has put
    its SEQUENCE in front. */
module Requests {
  import opened Machine
  import opened Xdr
  import opened Ops
  import opened Slots

  /** A request; each operation is the bytes of its encoded argument. */
  datatype Request = Request(tag: seq<byte>, minorVersion: uint32, ops: seq<seq<byte>>)

  predicate RequestOk(r: Request) { |r.tag| <= MAX_LEN && |r.ops| < TWO32 }

  function ArgBytes(ops: seq<seq<byte>>): seq<byte> {
    if ops == [] then [] else ArgBytes(ops[..|ops| - 1]) + ops[|ops| - 1]
  }

  function PutRequest(r: Request): seq<byte>
    requires RequestOk(r)
  {
    PutOpaque(r.tag, PutU32(r.minorVersion, PutU32(|r.ops|, ArgBytes(r.ops))))
  }

  /** What the builder writes, lengths cut to 32 bits. */
  function HeadBytes(r: Request): seq<byte> {
    OpaqueBytes(r.tag) + BE32(r.minorVersion) + BE32(|r.ops| % TWO32)
  }

  function RequestBytes(r: Request): seq<byte> { HeadBytes(r) + ArgBytes(r.ops) }

  lemma RequestSplits(r: Request)
    requires RequestOk(r)
    ensures PutRequest(r) == RequestBytes(r)
  {
    hide BE32, FromBE32, GetU32, GetOpaque, GetFixed, FixedBytes, ArgBytes;
  }

  datatype SequenceArgs = SequenceArgs(sessionID: seq<byte>, seqID: uint32, slotID: uint32, highest: uint32,
                                       cacheThis: bool)

  /** The SEQUENCE argument for a lease; slot ids are cut to 32 bits. */
  function SequenceFor(id: seq<byte>, l: Lease): SequenceArgs {
    SequenceArgs(id, l.seqID, l.slotID % TWO32, l.highest % TWO32, false)
  }

  function PutSequence(a: SequenceArgs, tail: seq<byte>): seq<byte> {
    PutU32(OP_SEQUENCE, PutFixed(a.sessionID,
      PutU32(a.seqID, PutU32(a.slotID, PutU32(a.highest, PutBool(a.cacheThis, tail))))))
  }

  function Wrapped(r: Request, a: SequenceArgs): Request {
    r.(ops := [PutSequence(a, [])] + r.ops)
  }

  // ---- What the server reads ----

  datatype Seen = Seen(tag: seq<byte>, minorVersion: uint32, count: uint32, firstOp: uint32, sequence: SequenceArgs)

  function GetSequenceArgs(d: Dec): (uint32, SequenceArgs, Dec) {
    var (op, d1) := GetU32(d);
    var (id, d2) := GetFixed(d1, SESSION_ID_LEN);
    var (sq, d3) := GetU32(d2);
    var (slot, d4) := GetU32(d3);
    var (hi, d5) := GetU32(d4);
    var (cache, d6) := GetBool(d5);
    (op, SequenceArgs(id, sq, slot, hi, cache), d6)
  }

  function ServerReads(d: Dec): (Seen, Dec) {
    var (tag, d1) := GetOpaque(d);
    var (minor, d2) := GetU32(d1);
    var (count, d3) := GetU32(d2);
    var (op, args, d4) := GetSequenceArgs(d3);
    (Seen(tag, minor, count, op, args), d4)
  }

  lemma SequenceRoundTrip(a: SequenceArgs, tail: seq<byte>)
    requires |a.sessionID| == SESSION_ID_LEN
    ensures GetSequenceArgs(Dec(PutSequence(a, tail), None)) == (OP_SEQUENCE, a, Dec(tail, None))
  {
    hide GetU32, GetFixed, GetBool, PutU32, PutFixed, PutBool;
    var t := PutU32(a.seqID, PutU32(a.slotID, PutU32(a.highest, PutBool(a.cacheThis, tail))));
    assert GetFixed(Dec(PutFixed(a.sessionID, t), None), |a.sessionID|) == (a.sessionID, Dec(t, None));
  }

  lemma {:induction false} ArgBytesJoin(a: seq<seq<byte>>, b: seq<seq<byte>>)
    ensures ArgBytes(a + b) == ArgBytes(a) + ArgBytes(b)
    decreases |b|
  {
    if b == [] {
      assert a + b == a;
    } else {
      assert (a + b)[..|a + b| - 1] == a + b[..|b| - 1];
      ArgBytesJoin(a, b[..|b| - 1]);
    }
  }

  lemma PutSequenceSplits(a: SequenceArgs, tail: seq<byte>)
    ensures PutSequence(a, tail) == PutSequence(a, []) + tail
  {
    hide BE32, FromBE32, GetU32, GetFixed, GetBool, FixedBytes;
  }

  /** The server finds the caller's tag and version, one more operation, first the SEQUENCE with the
      lease's slot and sequence id, and after it exactly the caller's own argument bytes. */
  lemma WrappedIsSeen(r: Request, a: SequenceArgs)
    requires RequestOk(r) && |r.ops| + 1 < TWO32 && |a.sessionID| == SESSION_ID_LEN
    ensures ServerReads(Dec(PutRequest(Wrapped(r, a)), None))
         == (Seen(r.tag, r.minorVersion, |r.ops| + 1, OP_SEQUENCE, a), Dec(ArgBytes(r.ops), None))
  {
    hide GetU32, GetOpaque, PutU32, PutOpaque, PutSequence, GetSequenceArgs;
    var own, first := ArgBytes(r.ops), [PutSequence(a, [])];
    assert ArgBytes(first) == PutSequence(a, []) by { assert first[..0] == []; }
    ArgBytesJoin(first, r.ops);
    PutSequenceSplits(a, own);
    assert ArgBytes(Wrapped(r, a).ops) == PutSequence(a, own);
    SequenceRoundTrip(a, own);
  }

  /** What a server finds that reads these bytes as a request of the session: the caller's own tag, version
      and arguments, and in front of them SEQUENCE (operation 53) for this slot, id and highest slot. */
  predicate SeenAs(bytes: seq<byte>, r: Request, id: seq<byte>, seqID: uint32, slotID: nat, highest: nat) {
    var (seen, rest) := ServerReads(Dec(bytes, None));
    && seen.tag == r.tag && seen.minorVersion == r.minorVersion && seen.count == |r.ops| + 1
    && seen.firstOp == 53 && seen.sequence.sessionID == id && seen.sequence.seqID == seqID
    && seen.sequence.slotID == slotID % TWO32 && seen.sequence.highest == highest % TWO32 && !seen.sequence.cacheThis
    && rest == Dec(ArgBytes(r.ops), None)
  }

  /** The request wrapped for a lease names that lease. */
  lemma NamesLease(r: Request, id: seq<byte>, l: Lease)
    requires RequestOk(r) && |r.ops| + 1 < TWO32 && |id| == SESSION_ID_LEN
    ensures SeenAs(RequestBytes(Wrapped(r, SequenceFor(id, l))), r, id, l.seqID, l.slotID, l.highest)
  {
    hide ServerReads, PutRequest, RequestBytes, ArgBytes, PutSequence;
    RequestSplits(Wrapped(r, SequenceFor(id, l)));
    WrappedIsSeen(r, SequenceFor(id, l));
  }

  // ---- The builder ----

  class Builder {
    const tag: seq<byte>
    var minorVersion: uint32
    var ops: seq<seq<byte>>

    constructor (tag: seq<byte>)
      ensures this.tag == tag && minorVersion == 0 && ops == []
    {
      this.tag, minorVersion, ops := tag, 0, [];
    }

    function R(): Request
      reads this
    {
      Request(tag, minorVersion, ops)
    }

    method Add(op: seq<byte>)
      modifies this
      ensures R() == old(R()).(ops := old(ops) + [op])
    {
      ops := ops + [op];
    }

    method EncodeHead(e: Encoder)
      modifies e
      ensures e.Wrote(HeadBytes(R()))
    {
      hide BE32, FromBE32, OpaqueBytes, Fits;
      var tagged, version := OpaqueBytes(tag), BE32(minorVersion);
      e.Opaque(tag);
      FitsJoin(tagged, version, old(e.room));
      e.Uint32(minorVersion);
      FitsJoin(tagged + version, BE32(|ops| % TWO32), old(e.room));
      e.Uint32(|ops| % TWO32);
    }

    /** The request lands whole, or a prefix of it and a latched failure. */
    method Encode(e: Encoder)
      modifies e
      ensures e.Wrote(RequestBytes(R()))
      ensures RequestOk(R()) ==> e.Wrote(PutRequest(R()))
    {
      hide HeadBytes, Fits, PutRequest;
      EncodeHead(e);
      assert ops[..0] == [] && HeadBytes(R()) + [] == HeadBytes(R());
      for i := 0 to |ops|
        invariant e.Wrote(HeadBytes(R()) + ArgBytes(ops[..i]))
      {
        ghost var before, room := HeadBytes(R()) + ArgBytes(ops[..i]), e.room;
        e.Write(ops[i]);
        assert ops[..i + 1][..i] == ops[..i];
        FitsJoin(before, ops[i], old(e.room));
        assert HeadBytes(R()) + ArgBytes(ops[..i + 1]) == before + ops[i];
        FitsAll(before, old(e.room));
      }
      assert ops[..|ops|] == ops;
      if RequestOk(R()) { RequestSplits(R()); }
    }
  }

  lemma FitsAll(p: seq<byte>, room: nat)
    ensures |p| <= room ==> Fits(p, room) == p
  {}

  /** A new compound with SEQUENCE first, then the caller's operations in order. */
  method WrapRequest(c: Builder, a: SequenceArgs) returns (w: Builder)
    ensures fresh(w) && w.R() == Wrapped(c.R(), a)
  {
    hide PutSequence;
    w := new Builder(c.tag);
    w.minorVersion := c.minorVersion;
    w.Add(PutSequence(a, []));
    for i := 0 to |c.ops|
      invariant fresh(w) && w.R() == Request(c.tag, c.minorVersion, [PutSequence(a, [])] + c.ops[..i])
    {
      w.Add(c.ops[i]);
    }
    assert c.ops[..|c.ops|] == c.ops;
  }
}
