/** NFSv4 operation results: the client's decoders, the server's encoding of each result
    (RFC 7530 section 16, RFC 8881 section 18.46), and the proof that they are inverse. */
module Ops {
  import opened Machine
  import opened Xdr

  const NFS4_OK := 0
  const NFS4ERR_DELAY := 10008
  const NFS4ERR_GRACE := 10013
  const NFS4ERR_SEQ_MISORDERED := 10063
  const VERIFIER_SIZE := 8
  const SESSION_ID_LEN := 16
  const OTHER_LEN := 12

  const OP_GETATTR := 9
  const OP_GETFH := 10
  const OP_OPEN := 18
  const OP_READ := 25
  const OP_READDIR := 26
  const OP_SETATTR := 34
  const OP_WRITE := 38
  const OP_SEQUENCE := 53

  type Bitmap = seq<uint32>

  datatype Stateid = Stateid(seqid: uint32, other: seq<byte>)

  datatype DirEntry = DirEntry(cookie: uint64, name: seq<byte>, attrMask: Bitmap, attrVals: seq<byte>)

  /** A result decoder: the fields it has filled so far. */
  datatype Res =
    | StatusRes(status: uint32)
    | GetfhRes(status: uint32, fh: seq<byte>)
    | GetattrRes(status: uint32, attrMask: Bitmap, attrVals: seq<byte>)
    | ReadRes(status: uint32, eof: bool, data: seq<byte>)
    | ReaddirRes(status: uint32, cookieverf: seq<byte>, entries: seq<DirEntry>, dirEof: bool)
    | OpenRes(status: uint32, stateid: Stateid, rflags: uint32, attrSet: Bitmap)
    | WriteRes(status: uint32, count: uint32, committed: uint32, verf: seq<byte>)
    | SetattrRes(status: uint32, attrSet: Bitmap)
    | SequenceRes(status: uint32, sessionID: seq<byte>, sequenceID: uint32, slotID: uint32,
                  highestSlotID: uint32, targetHighest: uint32, statusFlags: uint32)

  /** The opnum a decoder insists on; 0 when it takes any. */
  function ExpectedOp(r: Res): uint32 {
    match r
    case StatusRes(_) => 0
    case GetfhRes(_, _) => OP_GETFH
    case GetattrRes(_, _, _) => OP_GETATTR
    case ReadRes(_, _, _) => OP_READ
    case ReaddirRes(_, _, _, _) => OP_READDIR
    case OpenRes(_, _, _, _) => OP_OPEN
    case WriteRes(_, _, _, _) => OP_WRITE
    case SetattrRes(_, _) => OP_SETATTR
    case SequenceRes(_, _, _, _, _, _, _) => OP_SEQUENCE
  }

  /** The operation numbers and sizes of RFC 7530 and RFC 8881. */
  lemma Assigned(r: Res)
    ensures ExpectedOp(r) == match r
                             case StatusRes(_) => 0
                             case GetattrRes(_, _, _) => 9
                             case GetfhRes(_, _) => 10
                             case OpenRes(_, _, _, _) => 18
                             case ReadRes(_, _, _) => 25
                             case ReaddirRes(_, _, _, _) => 26
                             case SetattrRes(_, _) => 34
                             case WriteRes(_, _, _, _) => 38
                             case SequenceRes(_, _, _, _, _, _, _) => 53
    ensures NFS4_OK == 0 && VERIFIER_SIZE == 8 && SESSION_ID_LEN == 16 && OTHER_LEN == 12
  {}

  // ---- Bitmaps, stateids, directory entries ----

  function GetWords(d: Dec, n: nat): (r: (Bitmap, Dec))
    ensures |r.0| == n && |r.1.rest| <= |d.rest|
    ensures r.1.Good() ==> d.Good()
    decreases n
  {
    if n == 0 then ([], d)
    else
      var (w, e) := GetU32(d);
      var (ws, f) := GetWords(e, n - 1);
      ([w] + ws, f)
  }

  function GetBitmap(d: Dec): (r: (Bitmap, Dec))
    ensures |r.1.rest| <= |d.rest|
    ensures r.1.Good() ==> d.Good()
  {
    var (n, e) := GetU32(d);
    if !e.Good() then ([], e) else GetWords(e, n)
  }

  function GetStateid(d: Dec): (r: (Stateid, Dec))
    ensures |r.1.rest| <= |d.rest|
    ensures r.1.Good() ==> d.Good()
  {
    var (seqid, e) := GetU32(d);
    var (other, f) := GetFixed(e, OTHER_LEN);
    (Stateid(seqid, if f.Good() then other else Zeros(OTHER_LEN)), f)
  }

  function GetEntry(d: Dec): (r: (DirEntry, Dec))
    ensures |r.1.rest| <= |d.rest|
    ensures r.1.Good() ==> d.Good()
  {
    var (cookie, d1) := GetU64(d);
    var (name, d2) := GetOpaque(d1);
    var (mask, d3) := GetBitmap(d2);
    var (vals, d4) := GetOpaque(d3);
    (DirEntry(cookie, name, mask, vals), d4)
  }

  /** Appends entries until the list ends; the flag says an entry broke off half way. */
  function GetEntries(es: seq<DirEntry>, d: Dec): (r: (seq<DirEntry>, bool, Dec))
    ensures r.2.Good() ==> d.Good()
    ensures r.1 ==> !r.2.Good()
    decreases |d.rest|
  {
    var (more, d1) := GetBool(d);
    if !d1.Good() || !more then (es, false, d1)
    else
      var (e, d2) := GetEntry(d1);
      if !d2.Good() then (es, true, d2) else GetEntries(es + [e], d2)
  }

  function PutWords(ws: Bitmap, tail: seq<byte>): (s: seq<byte>)
    ensures GetWords(Dec(s, None), |ws|) == (ws, Dec(tail, None))
  {
    if ws == [] then tail
    else
      var t := PutWords(ws[1..], tail);
      assert [ws[0]] + ws[1..] == ws;
      PutU32(ws[0], t)
  }

  function PutBitmap(ws: Bitmap, tail: seq<byte>): (s: seq<byte>)
    requires |ws| < TWO32
    ensures GetBitmap(Dec(s, None)) == (ws, Dec(tail, None))
  {
    PutU32(|ws|, PutWords(ws, tail))
  }

  predicate StateidOk(s: Stateid) { |s.other| == OTHER_LEN }

  function PutStateid(s: Stateid, tail: seq<byte>): (b: seq<byte>)
    requires StateidOk(s)
    ensures GetStateid(Dec(b, None)) == (s, Dec(tail, None))
  {
    PutU32(s.seqid, PutFixed(s.other, tail))
  }

  predicate EntryOk(e: DirEntry) {
    |e.name| <= MAX_LEN && |e.attrMask| < TWO32 && |e.attrVals| <= MAX_LEN
  }

  function PutEntry(e: DirEntry, tail: seq<byte>): (s: seq<byte>)
    requires EntryOk(e)
    ensures GetEntry(Dec(s, None)) == (e, Dec(tail, None))
  {
    PutU64(e.cookie, PutOpaque(e.name, PutBitmap(e.attrMask, PutOpaque(e.attrVals, tail))))
  }

  function PutEntries(es: seq<DirEntry>, tail: seq<byte>): seq<byte>
    requires forall e :: e in es ==> EntryOk(e)
  {
    if es == [] then PutBool(false, tail) else PutBool(true, PutEntry(es[0], PutEntries(es[1..], tail)))
  }

  lemma {:induction false} EntriesRoundTrip(before: seq<DirEntry>, es: seq<DirEntry>, tail: seq<byte>)
    requires forall e :: e in es ==> EntryOk(e)
    ensures GetEntries(before, Dec(PutEntries(es, tail), None)) == (before + es, false, Dec(tail, None))
    decreases |es|
  {
    hide GetBool, GetEntry, PutBool, PutEntry;
    if es == [] {
      assert before + es == before;
    } else {
      EntriesRoundTrip(before + [es[0]], es[1..], tail);
      assert before + [es[0]] + es[1..] == before + es;
    }
  }

  // ---- The result decoders on values ----

  function GetReaddir(r: Res, d: Dec): (x: (Res, Dec))
    requires r.ReaddirRes?
    ensures x.0.ReaddirRes?
  {
    var (verf, d1) := GetFixed(d, VERIFIER_SIZE);
    var kept := if d1.Good() then verf else r.cookieverf;
    var (es, broken, d2) := GetEntries(r.entries, d1);
    if broken then (r.(cookieverf := kept, entries := es), d2)
    else
      var (eof, d3) := GetBool(d2);
      (r.(cookieverf := kept, entries := es, dirEof := eof), d3)
  }

  /** Skips an nfsace4. */
  function SkipAce(d: Dec): Dec {
    GetOpaque(GetU32(GetU32(GetU32(d).1).1).1).1
  }

  function SkipSpaceLimit(d: Dec): Dec {
    var (unit, e) := GetU32(d);
    if unit == 1 then GetU64(e).1
    else if unit == 2 then GetU32(GetU32(e).1).1
    else e
  }

  function SkipDelegation(d: Dec): Dec {
    var (t, e) := GetU32(d);
    if t == 1 then SkipAce(GetBool(GetStateid(e).1).1)
    else if t == 2 then SkipAce(SkipSpaceLimit(GetBool(GetStateid(e).1).1))
    else e
  }

  function GetOpen(r: Res, d: Dec): (x: (Res, Dec))
    requires r.OpenRes?
    ensures x.0.OpenRes?
  {
    var (sid, d1) := GetStateid(d);
    var d2 := GetU64(GetU64(GetBool(d1).1).1).1;
    var (rflags, d3) := GetU32(d2);
    var (set_, d4) := GetBitmap(d3);
    (r.(stateid := sid, rflags := rflags, attrSet := set_), SkipDelegation(d4))
  }

  function GetWrite(r: Res, d: Dec): (x: (Res, Dec))
    requires r.WriteRes?
    ensures x.0.WriteRes?
  {
    var (count, d1) := GetU32(d);
    var (how, d2) := GetU32(d1);
    var (verf, d3) := GetFixed(d2, VERIFIER_SIZE);
    (r.(count := count, committed := how, verf := if d3.Good() then verf else r.verf), d3)
  }

  function GetSequence(r: Res, d: Dec): (x: (Res, Dec))
    requires r.SequenceRes?
    ensures x.0.SequenceRes?
  {
    var (id, d1) := GetFixed(d, SESSION_ID_LEN);
    var (sq, d2) := GetU32(d1);
    var (slot, d3) := GetU32(d2);
    var (hi, d4) := GetU32(d3);
    var (target, d5) := GetU32(d4);
    var (flags, d6) := GetU32(d5);
    (r.(sessionID := if d1.Good() then id else r.sessionID, sequenceID := sq, slotID := slot,
        highestSlotID := hi, targetHighest := target, statusFlags := flags), d6)
  }

  function WithStatus(r: Res, st: uint32): Res { r.(status := st) }

  /** What a decoder does with the part after an OK status. */
  function GetBody(s: Res, d: Dec): (Res, Dec) {
    match s
    case GetfhRes(_, _) =>
      var (fh, e) := GetOpaque(d);
      (s.(fh := fh), e)
    case GetattrRes(_, _, _) =>
      var (mask, e) := GetBitmap(d);
      var (vals, f) := GetOpaque(e);
      (s.(attrMask := mask, attrVals := vals), f)
    case ReadRes(_, _, _) =>
      var (eof, e) := GetBool(d);
      var (data, f) := GetOpaque(e);
      (s.(eof := eof, data := data), f)
    case ReaddirRes(_, _, _, _) => GetReaddir(s, d)
    case OpenRes(_, _, _, _) => GetOpen(s, d)
    case WriteRes(_, _, _, _) => GetWrite(s, d)
    case SequenceRes(_, _, _, _, _, _, _) => GetSequence(s, d)
    case _ => (s, d)
  }

  /** What a decoder does with a result. SETATTR reads its bitmap whatever the status. */
  function GetRes(r: Res, d: Dec): (Res, Dec) {
    var (st, e) := GetU32(d);
    if r.SetattrRes? then
      var (set_, f) := GetBitmap(e);
      (SetattrRes(st, set_), f)
    else if st != NFS4_OK then (WithStatus(r, st), e)
    else GetBody(WithStatus(r, st), e)
  }

  // ---- What a server sends ----

  datatype Ace = Ace(kind: uint32, flag: uint32, mask: uint32, who: seq<byte>)

  datatype SpaceLimit = SizeLimit(bytes: uint64) | BlockLimit(blocks: uint32, blockSize: uint32)

  datatype Delegation =
    | NoDelegation
    | ReadDelegation(sid: Stateid, recall: bool, ace: Ace)
    | WriteDelegation(sid: Stateid, recall: bool, limit: SpaceLimit, ace: Ace)

  /** A successful result body. */
  datatype Body =
    | BStatus
    | BGetfh(fh: seq<byte>)
    | BGetattr(mask: Bitmap, vals: seq<byte>)
    | BRead(eof: bool, data: seq<byte>)
    | BReaddir(cookieverf: seq<byte>, entries: seq<DirEntry>, dirEof: bool)
    | BOpen(sid: Stateid, atomic: bool, before: uint64, after: uint64, rflags: uint32, set_: Bitmap, deleg: Delegation)
    | BWrite(count: uint32, committed: uint32, verf: seq<byte>)
    | BSequence(id: seq<byte>, sequenceID: uint32, slotID: uint32, highest: uint32, target: uint32, flags: uint32)

  /** A result: the operation answered, its status, and the body it carries when it succeeded.
      SETATTR carries the attributes set whatever its status. */
  datatype Wire =
    | Answer(op: uint32, status: uint32, body: Body)
    | SetattrAnswer(status: uint32, set_: Bitmap)
  {
    function Op(): uint32 { if Answer? then op else OP_SETATTR }
  }

  predicate AceOk(a: Ace) { |a.who| <= MAX_LEN }

  predicate DelegationOk(g: Delegation) {
    match g
    case NoDelegation => true
    case ReadDelegation(sid, _, ace) => StateidOk(sid) && AceOk(ace)
    case WriteDelegation(sid, _, _, ace) => StateidOk(sid) && AceOk(ace)
  }

  predicate BodyOk(b: Body) {
    match b
    case BStatus => true
    case BGetfh(fh) => |fh| <= MAX_LEN
    case BGetattr(mask, vals) => |mask| < TWO32 && |vals| <= MAX_LEN
    case BRead(_, data) => |data| <= MAX_LEN
    case BReaddir(verf, es, _) => |verf| == VERIFIER_SIZE && forall e :: e in es ==> EntryOk(e)
    case BOpen(sid, _, _, _, _, set_, g) => StateidOk(sid) && |set_| < TWO32 && DelegationOk(g)
    case BWrite(_, _, verf) => |verf| == VERIFIER_SIZE
    case BSequence(id, _, _, _, _, _) => |id| == SESSION_ID_LEN
  }

  predicate WireOk(w: Wire) {
    match w
    case Answer(op, _, b) => BodyOk(b) && op != OP_SETATTR
    case SetattrAnswer(_, set_) => |set_| < TWO32
  }

  /** The decoder is the one for this operation. */
  predicate Matches(r: Res, w: Wire) {
    match w
    case SetattrAnswer(_, _) => r.SetattrRes?
    case Answer(op, _, b) =>
      && (ExpectedOp(r) == 0 || ExpectedOp(r) == op)
      && match b {
           case BStatus => r.StatusRes?
           case BGetfh(_) => r.GetfhRes?
           case BGetattr(_, _) => r.GetattrRes?
           case BRead(_, _) => r.ReadRes?
           case BReaddir(_, _, _) => r.ReaddirRes?
           case BOpen(_, _, _, _, _, _, _) => r.OpenRes?
           case BWrite(_, _, _) => r.WriteRes?
           case BSequence(_, _, _, _, _, _) => r.SequenceRes?
         }
  }

  function PutAce(a: Ace, tail: seq<byte>): (s: seq<byte>)
    requires AceOk(a)
    ensures SkipAce(Dec(s, None)) == Dec(tail, None)
  {
    PutU32(a.kind, PutU32(a.flag, PutU32(a.mask, PutOpaque(a.who, tail))))
  }

  function PutSpaceLimit(l: SpaceLimit, tail: seq<byte>): (s: seq<byte>)
    ensures SkipSpaceLimit(Dec(s, None)) == Dec(tail, None)
  {
    match l
    case SizeLimit(bytes) => PutU32(1, PutU64(bytes, tail))
    case BlockLimit(blocks, blockSize) => PutU32(2, PutU32(blocks, PutU32(blockSize, tail)))
  }

  function PutDelegation(g: Delegation, tail: seq<byte>): (s: seq<byte>)
    requires DelegationOk(g)
    ensures SkipDelegation(Dec(s, None)) == Dec(tail, None)
  {
    match g
    case NoDelegation => PutU32(0, tail)
    case ReadDelegation(sid, recall, ace) => PutU32(1, PutStateid(sid, PutBool(recall, PutAce(ace, tail))))
    case WriteDelegation(sid, recall, limit, ace) =>
      PutU32(2, PutStateid(sid, PutBool(recall, PutSpaceLimit(limit, PutAce(ace, tail)))))
  }

  /** Of any other delegation type the decoder steps over the discriminant alone: it lands on what follows
      exactly when the type has an empty arm. */
  lemma OtherDelegationIff(kind: uint32, arm: seq<byte>, tail: seq<byte>)
    requires kind != 1 && kind != 2
    ensures SkipDelegation(Dec(PutU32(kind, arm + tail), None)) == Dec(tail, None) <==> arm == []
  {
    hide GetU32;
    if arm == [] { assert arm + tail == tail; } else { assert |arm + tail| > |tail|; }
  }

  function PutBody(b: Body, tail: seq<byte>): seq<byte>
    requires BodyOk(b)
  {
    match b
    case BStatus => tail
    case BGetfh(fh) => PutOpaque(fh, tail)
    case BGetattr(mask, vals) => PutBitmap(mask, PutOpaque(vals, tail))
    case BRead(eof, data) => PutBool(eof, PutOpaque(data, tail))
    case BReaddir(verf, es, eof) => PutFixed(verf, PutEntries(es, PutBool(eof, tail)))
    case BOpen(sid, atomic, before, after, rflags, set_, g) =>
      PutStateid(sid, PutBool(atomic, PutU64(before, PutU64(after,
        PutU32(rflags, PutBitmap(set_, PutDelegation(g, tail)))))))
    case BWrite(count, committed, verf) => PutU32(count, PutU32(committed, PutFixed(verf, tail)))
    case BSequence(id, sq, slot, hi, target, flags) =>
      PutFixed(id, PutU32(sq, PutU32(slot, PutU32(hi, PutU32(target, PutU32(flags, tail))))))
  }

  /** A result body on the wire, the opnum already written. */
  function PutWire(w: Wire, tail: seq<byte>): seq<byte>
    requires WireOk(w)
  {
    match w
    case SetattrAnswer(status, set_) => PutU32(status, PutBitmap(set_, tail))
    case Answer(_, status, b) => PutU32(status, if status == NFS4_OK then PutBody(b, tail) else tail)
  }

  /** The decoder after it has taken a successful body. */
  function Filled(r: Res, b: Body): Res {
    match b
    case BGetfh(fh) => if r.GetfhRes? then r.(fh := fh) else r
    case BGetattr(mask, vals) => if r.GetattrRes? then r.(attrMask := mask, attrVals := vals) else r
    case BRead(eof, data) => if r.ReadRes? then r.(eof := eof, data := data) else r
    case BReaddir(verf, es, eof) =>
      if r.ReaddirRes? then r.(cookieverf := verf, entries := r.entries + es, dirEof := eof) else r
    case BOpen(sid, _, _, _, rflags, set_, _) =>
      if r.OpenRes? then r.(stateid := sid, rflags := rflags, attrSet := set_) else r
    case BWrite(count, committed, verf) =>
      if r.WriteRes? then r.(count := count, committed := committed, verf := verf) else r
    case BSequence(id, sq, slot, hi, target, flags) =>
      if r.SequenceRes? then SequenceRes(r.status, id, sq, slot, hi, target, flags) else r
    case BStatus => r
  }

  /** The decoder after it has taken a whole result. */
  function Fill(r: Res, w: Wire): Res {
    match w
    case SetattrAnswer(status, set_) => if r.SetattrRes? then SetattrRes(status, set_) else r
    case Answer(_, status, b) =>
      var s := WithStatus(r, status);
      if status == NFS4_OK then Filled(s, b) else s
  }

  lemma ReaddirRoundTrip(r: Res, verf: seq<byte>, es: seq<DirEntry>, eof: bool, tail: seq<byte>)
    requires r.ReaddirRes? && |verf| == VERIFIER_SIZE && forall e :: e in es ==> EntryOk(e)
    ensures GetReaddir(r, Dec(PutFixed(verf, PutEntries(es, PutBool(eof, tail))), None))
         == (r.(cookieverf := verf, entries := r.entries + es, dirEof := eof), Dec(tail, None))
  {
    hide GetFixed, PutFixed, GetBool, PutBool, PutEntries, GetEntries;
    var t := PutEntries(es, PutBool(eof, tail));
    EntriesRoundTrip(r.entries, es, PutBool(eof, tail));
    assert GetFixed(Dec(PutFixed(verf, t), None), |verf|) == (verf, Dec(t, None));
  }

  /** A decoder given what the server encoded holds exactly the encoded values. */
  lemma ResRoundTrip(r: Res, w: Wire, tail: seq<byte>)
    requires WireOk(w) && Matches(r, w)
    ensures GetRes(r, Dec(PutWire(w, tail), None)) == (Fill(r, w), Dec(tail, None))
  {
    hide GetU32, PutU32, GetU64, PutU64, GetOpaque, PutOpaque, GetFixed, PutFixed, GetBool, PutBool,
         GetBitmap, PutBitmap, GetStateid, PutStateid, SkipDelegation, PutDelegation, GetReaddir, GetEntries,
         PutEntries;
    if w.Answer? && w.status == NFS4_OK {
      match w.body {
        case BReaddir(verf, es, eof) => ReaddirRoundTrip(WithStatus(r, NFS4_OK), verf, es, eof, tail);
        case BWrite(_, _, verf) =>
          assert GetFixed(Dec(PutFixed(verf, tail), None), |verf|) == (verf, Dec(tail, None));
        case BSequence(id, sq, slot, hi, target, flags) =>
          var t := PutU32(sq, PutU32(slot, PutU32(hi, PutU32(target, PutU32(flags, tail)))));
          assert GetFixed(Dec(PutFixed(id, t), None), |id|) == (id, Dec(t, None));
        case _ =>
      }
    }
  }

  // ---- More input never changes a decode that already succeeded ----

  lemma {:induction false} WordsExt(d: Dec, n: nat, x: seq<byte>)
    requires GetWords(d, n).1.Good()
    ensures GetWords(Dec(d.rest + x, None), n) == (GetWords(d, n).0, Dec(GetWords(d, n).1.rest + x, None))
    decreases n
  {
    hide GetU32;
    if n > 0 {
      U32Ext(d, x);
      WordsExt(GetU32(d).1, n - 1, x);
    }
  }

  lemma BitmapExt(d: Dec, x: seq<byte>)
    requires GetBitmap(d).1.Good()
    ensures GetBitmap(Dec(d.rest + x, None)) == (GetBitmap(d).0, Dec(GetBitmap(d).1.rest + x, None))
  {
    hide GetU32, GetWords;
    U32Ext(d, x);
    WordsExt(GetU32(d).1, GetU32(d).0, x);
  }

  lemma StateidExt(d: Dec, x: seq<byte>)
    requires GetStateid(d).1.Good()
    ensures GetStateid(Dec(d.rest + x, None)) == (GetStateid(d).0, Dec(GetStateid(d).1.rest + x, None))
  {
    hide GetU32, GetFixed;
    U32Ext(d, x);
    FixedExt(GetU32(d).1, OTHER_LEN, x);
  }

  lemma EntryExt(d: Dec, x: seq<byte>)
    requires GetEntry(d).1.Good()
    ensures GetEntry(Dec(d.rest + x, None)) == (GetEntry(d).0, Dec(GetEntry(d).1.rest + x, None))
  {
    hide GetU64, GetOpaque, GetBitmap;
    var d1 := GetU64(d).1;
    var d2 := GetOpaque(d1).1;
    var d3 := GetBitmap(d2).1;
    U64Ext(d, x);
    OpaqueExt(d1, x);
    BitmapExt(d2, x);
    OpaqueExt(d3, x);
  }

  lemma {:induction false} EntriesExt(es: seq<DirEntry>, d: Dec, x: seq<byte>)
    requires GetEntries(es, d).2.Good()
    ensures GetEntries(es, Dec(d.rest + x, None))
         == (GetEntries(es, d).0, false, Dec(GetEntries(es, d).2.rest + x, None))
    decreases |d.rest|
  {
    hide GetU32, GetEntry;
    U32Ext(d, x);
    var d1 := GetBool(d).1;
    if GetBool(d).0 {
      EntryExt(d1, x);
      EntriesExt(es + [GetEntry(d1).0], GetEntry(d1).1, x);
    }
  }

  lemma AceExt(d: Dec, x: seq<byte>)
    requires SkipAce(d).Good()
    ensures SkipAce(Dec(d.rest + x, None)) == Dec(SkipAce(d).rest + x, None)
  {
    hide GetU32, GetOpaque;
    var d1 := GetU32(d).1;
    var d2 := GetU32(d1).1;
    U32Ext(d, x);
    U32Ext(d1, x);
    U32Ext(d2, x);
    OpaqueExt(GetU32(d2).1, x);
  }

  lemma SpaceLimitExt(d: Dec, x: seq<byte>)
    requires SkipSpaceLimit(d).Good()
    ensures SkipSpaceLimit(Dec(d.rest + x, None)) == Dec(SkipSpaceLimit(d).rest + x, None)
  {
    hide GetU32, GetU64;
    var (unit, d1) := GetU32(d);
    U32Ext(d, x);
    if unit == 1 {
      U64Ext(d1, x);
    } else if unit == 2 {
      U32Ext(d1, x);
      U32Ext(GetU32(d1).1, x);
    }
  }

  lemma DelegationExt(d: Dec, x: seq<byte>)
    requires SkipDelegation(d).Good()
    ensures SkipDelegation(Dec(d.rest + x, None)) == Dec(SkipDelegation(d).rest + x, None)
  {
    hide GetU32, GetStateid, SkipAce, SkipSpaceLimit;
    var (t, d1) := GetU32(d);
    if t == 1 || t == 2 {
      var d2 := GetStateid(d1).1;
      var d3 := GetBool(d2).1;
      if t == 2 {
        AceGood(SkipSpaceLimit(d3));
        SpaceLimitGood(d3);
      } else {
        AceGood(d3);
      }
      U32Ext(d, x);
      StateidExt(d1, x);
      U32Ext(d2, x);
      if t == 2 {
        SpaceLimitExt(d3, x);
        AceExt(SkipSpaceLimit(d3), x);
      } else {
        AceExt(d3, x);
      }
    } else {
      U32Ext(d, x);
    }
  }

  lemma AceGood(d: Dec)
    ensures SkipAce(d).Good() ==> d.Good()
  {}

  lemma SpaceLimitGood(d: Dec)
    ensures SkipSpaceLimit(d).Good() ==> d.Good()
  {}

  lemma DelegationGood(d: Dec)
    ensures SkipDelegation(d).Good() ==> d.Good()
  {
    hide GetU32, GetStateid, SkipAce, SkipSpaceLimit;
    var d3 := GetBool(GetStateid(GetU32(d).1).1).1;
    AceGood(d3);
    AceGood(SkipSpaceLimit(d3));
    SpaceLimitGood(d3);
  }

  lemma OpenExt(r: Res, d: Dec, x: seq<byte>)
    requires r.OpenRes? && GetOpen(r, d).1.Good()
    ensures GetOpen(r, Dec(d.rest + x, None)) == (GetOpen(r, d).0, Dec(GetOpen(r, d).1.rest + x, None))
  {
    hide GetU32, GetU64, GetStateid, GetBitmap, SkipDelegation;
    var d1 := GetStateid(d).1;
    var d2 := GetBool(d1).1;
    var d3 := GetU64(d2).1;
    var d4 := GetU64(d3).1;
    var d5 := GetU32(d4).1;
    var d6 := GetBitmap(d5).1;
    DelegationGood(d6);
    StateidExt(d, x);
    U32Ext(d1, x);
    U64Ext(d2, x);
    U64Ext(d3, x);
    U32Ext(d4, x);
    BitmapExt(d5, x);
    DelegationExt(d6, x);
  }

  lemma ReaddirExt(r: Res, d: Dec, x: seq<byte>)
    requires r.ReaddirRes? && GetReaddir(r, d).1.Good()
    ensures GetReaddir(r, Dec(d.rest + x, None)) == (GetReaddir(r, d).0, Dec(GetReaddir(r, d).1.rest + x, None))
  {
    hide GetFixed, GetEntries, GetU32;
    var d1 := GetFixed(d, VERIFIER_SIZE).1;
    FixedExt(d, VERIFIER_SIZE, x);
    EntriesExt(r.entries, d1, x);
    U32Ext(GetEntries(r.entries, d1).2, x);
  }

  lemma SequenceExt(r: Res, d: Dec, x: seq<byte>)
    requires r.SequenceRes? && GetSequence(r, d).1.Good()
    ensures GetSequence(r, Dec(d.rest + x, None)) == (GetSequence(r, d).0, Dec(GetSequence(r, d).1.rest + x, None))
  {
    hide GetFixed, GetU32;
    var d1 := GetFixed(d, SESSION_ID_LEN).1;
    var d2 := GetU32(d1).1;
    var d3 := GetU32(d2).1;
    var d4 := GetU32(d3).1;
    FixedExt(d, SESSION_ID_LEN, x);
    U32Ext(d1, x);
    U32Ext(d2, x);
    U32Ext(d3, x);
    U32Ext(d4, x);
    U32Ext(GetU32(d4).1, x);
  }

  lemma WriteExt(r: Res, d: Dec, x: seq<byte>)
    requires r.WriteRes? && GetWrite(r, d).1.Good()
    ensures GetWrite(r, Dec(d.rest + x, None)) == (GetWrite(r, d).0, Dec(GetWrite(r, d).1.rest + x, None))
  {
    hide GetFixed, GetU32;
    var d1 := GetU32(d).1;
    var d2 := GetU32(d1).1;
    U32Ext(d, x);
    U32Ext(d1, x);
    FixedExt(d2, VERIFIER_SIZE, x);
  }

  lemma BodyGood(r: Res, d: Dec)
    ensures GetRes(r, d).1.Good() ==> GetU32(d).1.Good()
  {
    hide GetU32, GetU64, GetFixed, GetOpaque, GetBitmap, GetStateid, GetEntries, SkipDelegation;
    if r.OpenRes? {
      DelegationGood(GetBitmap(GetU32(GetU64(GetU64(GetBool(GetStateid(GetU32(d).1).1).1).1).1).1).1);
    }
  }

  lemma ResExt(r: Res, d: Dec, x: seq<byte>)
    requires GetRes(r, d).1.Good()
    ensures GetRes(r, Dec(d.rest + x, None)) == (GetRes(r, d).0, Dec(GetRes(r, d).1.rest + x, None))
  {
    hide GetU32, GetFixed, GetOpaque, GetBitmap, GetReaddir, GetOpen, GetWrite, GetSequence;
    var (st, d1) := GetU32(d);
    var s := WithStatus(r, st);
    BodyGood(r, d);
    U32Ext(d, x);
    if r.SetattrRes? {
      BitmapExt(d1, x);
    } else if st == NFS4_OK {
      match s {
        case GetfhRes(_, _) => OpaqueExt(d1, x);
        case GetattrRes(_, _, _) =>
          BitmapExt(d1, x);
          OpaqueExt(GetBitmap(d1).1, x);
        case ReadRes(_, _, _) =>
          U32Ext(d1, x);
          OpaqueExt(GetBool(d1).1, x);
        case ReaddirRes(_, _, _, _) => ReaddirExt(s, d1, x);
        case OpenRes(_, _, _, _) => OpenExt(s, d1, x);
        case WriteRes(_, _, _, _) => WriteExt(s, d1, x);
        case SequenceRes(_, _, _, _, _, _, _) => SequenceExt(s, d1, x);
        case _ =>
      }
    }
  }
}
