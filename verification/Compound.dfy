/** COMPOUND replies: the decoder with early termination (section 15.2 of RFC 7530), and what reusing
    decoders across replies does to them. */
module Compound {
  import opened Machine
  import opened Xdr
  import opened Ops

  // ---- Result decoders as they run ----

  method DecodeBitmap(d: Decoder) returns (b: Bitmap)
    modifies d
    ensures (b, d.S()) == GetBitmap(old(d.S()))
  {
    hide GetU32;
    var n := d.Uint32();
    if d.err.Some? { return []; }
    ghost var start := d.S();
    b := [];
    assert b + GetWords(start, n).0 == GetWords(start, n).0;
    for i := 0 to n
      invariant |b| == i
      invariant GetWords(start, n) == (b + GetWords(d.S(), n - i).0, GetWords(d.S(), n - i).1)
    {
      var w := d.Uint32();
      assert b + ([w] + GetWords(d.S(), n - i - 1).0) == b + [w] + GetWords(d.S(), n - i - 1).0;
      b := b + [w];
    }
    assert b + [] == b;
  }

  method DecodeStateid(d: Decoder) returns (s: Stateid)
    modifies d
    ensures (s, d.S()) == GetStateid(old(d.S()))
  {
    var other := Zeros(OTHER_LEN);
    var seqid := d.Uint32();
    var got := d.FixedOpaque(OTHER_LEN);
    if d.err.None? { other := got; }
    s := Stateid(seqid, other);
  }

  method DecodeEntry(d: Decoder) returns (e: DirEntry)
    modifies d
    ensures (e, d.S()) == GetEntry(old(d.S()))
  {
    hide GetU64, GetOpaque, GetBitmap;
    var cookie := d.Uint64();
    var name := d.Opaque();
    var mask := DecodeBitmap(d);
    var vals := d.Opaque();
    e := DirEntry(cookie, name, mask, vals);
  }

  method DecodeReaddir(d: Decoder, r: Res) returns (x: Res)
    requires r.ReaddirRes?
    modifies d
    ensures (x, d.S()) == GetReaddir(r, old(d.S()))
  {
    hide GetU32, GetFixed, GetEntry;
    x := r;
    var verf := d.FixedOpaque(VERIFIER_SIZE);
    if d.err.None? { x := x.(cookieverf := verf); }
    ghost var start := d.S();
    while true
      invariant x.ReaddirRes?
      invariant x == r.(cookieverf := x.cookieverf, entries := x.entries)
      invariant x.cookieverf == if start.Good() then verf else r.cookieverf
      invariant GetEntries(r.entries, start) == GetEntries(x.entries, d.S())
      decreases |d.rest|
    {
      var more := d.Bool();
      if d.err.Some? || !more { break; }
      var e := DecodeEntry(d);
      if d.err.Some? { return; }
      x := x.(entries := x.entries + [e]);
    }
    var eof := d.Bool();
    x := x.(dirEof := eof);
  }

  method SkipNfsace4(d: Decoder)
    modifies d
    ensures d.S() == SkipAce(old(d.S()))
  {
    hide GetU32, GetOpaque;
    var _ := d.Uint32();
    var _ := d.Uint32();
    var _ := d.Uint32();
    var _ := d.Opaque();
  }

  method DecodeOpen(d: Decoder, r: Res) returns (x: Res)
    requires r.OpenRes?
    modifies d
    ensures (x, d.S()) == GetOpen(r, old(d.S()))
  {
    hide GetU32, GetU64, GetStateid, GetBitmap, SkipAce;
    var sid := DecodeStateid(d);
    var _ := d.Bool();
    var _ := d.Uint64();
    var _ := d.Uint64();
    var rflags := d.Uint32();
    var set_ := DecodeBitmap(d);
    x := r.(stateid := sid, rflags := rflags, attrSet := set_);
    var delegType := d.Uint32();
    if delegType == 1 {
      var _ := DecodeStateid(d);
      var _ := d.Bool();
      SkipNfsace4(d);
    } else if delegType == 2 {
      var _ := DecodeStateid(d);
      var _ := d.Bool();
      var limitBy := d.Uint32();
      if limitBy == 1 {
        var _ := d.Uint64();
      } else if limitBy == 2 {
        var _ := d.Uint32();
        var _ := d.Uint32();
      }
      SkipNfsace4(d);
    }
  }

  method DecodeRes(d: Decoder, r: Res) returns (x: Res)
    modifies d
    ensures (x, d.S()) == GetRes(r, old(d.S()))
  {
    hide GetU32, GetFixed, GetOpaque, GetBitmap, GetReaddir, GetOpen;
    var st := d.Uint32();
    x := WithStatus(r, st);
    if r.SetattrRes? {
      var set_ := DecodeBitmap(d);
      x := SetattrRes(st, set_);
    } else if st == NFS4_OK {
      x := DecodeBody(d, x);
    }
  }

  /** The part after an OK status. */
  method DecodeBody(d: Decoder, r: Res) returns (x: Res)
    modifies d
    ensures (x, d.S()) == GetBody(r, old(d.S()))
  {
    hide GetU32, GetFixed, GetOpaque, GetBitmap, GetReaddir, GetOpen;
    x := r;
    match r {
      case GetfhRes(st, _) =>
        var fh := d.Opaque();
        x := GetfhRes(st, fh);
      case GetattrRes(st, _, _) =>
        var mask := DecodeBitmap(d);
        var vals := d.Opaque();
        x := GetattrRes(st, mask, vals);
      case ReadRes(st, _, _) =>
        var eof := d.Bool();
        var data := d.Opaque();
        x := ReadRes(st, eof, data);
      case ReaddirRes(_, _, _, _) => x := DecodeReaddir(d, r);
      case OpenRes(_, _, _, _) => x := DecodeOpen(d, r);
      case WriteRes(st, _, _, old_) =>
        var count := d.Uint32();
        var how := d.Uint32();
        var verf := d.FixedOpaque(VERIFIER_SIZE);
        x := WriteRes(st, count, how, if d.err.None? then verf else old_);
      case SequenceRes(st, id, _, _, _, _, _) =>
        var got := d.FixedOpaque(SESSION_ID_LEN);
        var kept := if d.err.None? then got else id;
        var sq := d.Uint32();
        var slot := d.Uint32();
        var hi := d.Uint32();
        var target := d.Uint32();
        var flags := d.Uint32();
        x := SequenceRes(st, kept, sq, slot, hi, target, flags);
      case _ =>
    }
  }

  // ---- The reply on values ----

  datatype DecodeError = BadHeader | TooMany | BadOpnum(i: nat) | WrongOp(i: nat) | BadBody(i: nat)

  datatype CompoundResult = CompoundResult(status: uint32, tag: seq<byte>, numResults: nat)

  /** Decodes results i..n in place, stopping at the first one that does not decode. */
  function GetResops(rs: seq<Res>, i: nat, n: nat, d: Dec): (r: (Option<DecodeError>, seq<Res>, Dec))
    requires i <= n <= |rs|
    ensures |r.1| == |rs|
    decreases n - i
  {
    if i == n then (None, rs, d)
    else
      var (op, d1) := GetU32(d);
      if !d1.Good() then (Some(BadOpnum(i)), rs, d1)
      else if ExpectedOp(rs[i]) != 0 && ExpectedOp(rs[i]) != op then (Some(WrongOp(i)), rs, d1)
      else
        var (x, d2) := GetRes(rs[i], d1);
        if !d2.Good() then (Some(BadBody(i)), rs[i := x], d2)
        else GetResops(rs[i := x], i + 1, n, d2)
  }

  function GetHeader(d: Dec): (uint32, seq<byte>, uint32, Dec) {
    var (status, d1) := GetU32(d);
    var (tag, d2) := GetOpaque(d1);
    var (count, d3) := GetU32(d2);
    (status, tag, count, d3)
  }

  function GetCompound(rs: seq<Res>, d: Dec): (r: (Result<CompoundResult, DecodeError>, seq<Res>, Dec))
    ensures |r.1| == |rs|
  {
    var (status, tag, count, d1) := GetHeader(d);
    if !d1.Good() then (Err(BadHeader), rs, d1)
    else if count > |rs| then (Err(TooMany), rs, d1)
    else
      var (bad, rs1, d2) := GetResops(rs, 0, count, d1);
      (if bad.Some? then Err(bad.value) else Ok(CompoundResult(status, tag, count)), rs1, d2)
  }

  /** The decoder updates the caller's result objects in place. */
  method DecodeCompound(d: Decoder, results: array<Res>) returns (r: Result<CompoundResult, DecodeError>)
    modifies d, results
    ensures (r, results[..], d.S()) == GetCompound(old(results[..]), old(d.S()))
  {
    hide GetU32, GetOpaque, GetRes;
    var status := d.Uint32();
    var tag := d.Opaque();
    var count := d.Uint32();
    if d.err.Some? { return Err(BadHeader); }
    if count > results.Length { return Err(TooMany); }
    ghost var start := d.S();
    for i := 0 to count
      invariant GetResops(old(results[..]), 0, count, start) == GetResops(results[..], i, count, d.S())
    {
      var opnum := d.Uint32();
      if d.err.Some? { return Err(BadOpnum(i)); }
      var want := ExpectedOp(results[i]);
      if want != 0 && want != opnum { return Err(WrongOp(i)); }
      ghost var before := results[..];
      var x := DecodeRes(d, results[i]);
      results[i] := x;
      assert results[..] == before[i := x];
      if d.err.Some? { return Err(BadBody(i)); }
    }
    r := Ok(CompoundResult(status, tag, count));
  }

  // ---- What a server sends ----

  datatype Reply = Reply(status: uint32, tag: seq<byte>, results: seq<Wire>)

  predicate ReplyOk(p: Reply) {
    |p.tag| <= MAX_LEN && |p.results| < TWO32 && forall w :: w in p.results ==> WireOk(w)
  }

  /** The reply answers a prefix of what was asked. */
  predicate Answers(p: Reply, rs: seq<Res>) {
    |p.results| <= |rs| && forall k :: 0 <= k < |p.results| ==> Matches(rs[k], p.results[k])
  }

  function PutResops(ws: seq<Wire>, tail: seq<byte>): seq<byte>
    requires forall w :: w in ws ==> WireOk(w)
  {
    if ws == [] then tail else PutU32(ws[0].Op(), PutWire(ws[0], PutResops(ws[1..], tail)))
  }

  function PutReply(p: Reply, tail: seq<byte>): seq<byte>
    requires ReplyOk(p)
  {
    PutU32(p.status, PutOpaque(p.tag, PutU32(|p.results|, PutResops(p.results, tail))))
  }

  /** Decoders i and up, filled from the results they match; the rest as they were. */
  function FillFrom(rs: seq<Res>, ws: seq<Wire>, i: nat): seq<Res>
    requires |ws| <= |rs|
  {
    seq(|rs|, k requires 0 <= k < |rs| => if i <= k < |ws| then Fill(rs[k], ws[k]) else rs[k])
  }

  function FillAll(rs: seq<Res>, p: Reply): seq<Res>
    requires |p.results| <= |rs|
  {
    FillFrom(rs, p.results, 0)
  }

  /** Results that match their decoders fill them one after the other. */
  lemma {:induction false} ResopsPrefix(rs: seq<Res>, ws: seq<Wire>, i: nat, n: nat, tail: seq<byte>)
    requires i <= |ws| <= n <= |rs|
    requires forall w :: w in ws ==> WireOk(w)
    requires forall k :: i <= k < |ws| ==> Matches(rs[k], ws[k])
    ensures GetResops(rs, i, n, Dec(PutResops(ws[i..], tail), None))
         == GetResops(FillFrom(rs, ws, i), |ws|, n, Dec(tail, None))
    decreases |ws| - i
  {
    hide GetU32, PutU32, GetRes, PutWire, Fill, WireOk;
    if i == |ws| {
      assert FillFrom(rs, ws, i) == rs;
    } else {
      var w, t := ws[i], PutResops(ws[i + 1..], tail);
      assert ws[i..][1..] == ws[i + 1..];
      OpMatches(rs[i], w);
      ResRoundTrip(rs[i], w, t);
      var next := rs[i := Fill(rs[i], w)];
      ResopsPrefix(next, ws, i + 1, n, tail);
      assert FillFrom(next, ws, i + 1) == FillFrom(rs, ws, i);
    }
  }

  lemma OpMatches(r: Res, w: Wire)
    requires Matches(r, w)
    ensures ExpectedOp(r) == 0 || ExpectedOp(r) == w.Op()
  {}

  /** Every well-formed reply that covers a prefix of the expected results fills exactly those
      decoders with the encoded values, leaves the others alone and is consumed whole. */
  lemma CompoundRoundTrip(rs: seq<Res>, p: Reply, tail: seq<byte>)
    requires ReplyOk(p) && Answers(p, rs)
    ensures GetCompound(rs, Dec(PutReply(p, tail), None))
         == (Ok(CompoundResult(p.status, p.tag, |p.results|)), FillAll(rs, p), Dec(tail, None))
  {
    hide GetU32, PutU32, GetOpaque, PutOpaque, GetResops, PutResops;
    assert p.results[0..] == p.results;
    ResopsPrefix(rs, p.results, 0, |p.results|, tail);
    NoMore(FillAll(rs, p), |p.results|, Dec(tail, None));
  }

  lemma NoMore(rs: seq<Res>, n: nat, d: Dec)
    requires n <= |rs|
    ensures GetResops(rs, n, n, d) == (None, rs, d)
  {}

  /** A reply that answers, after results that match, with another operation than the decoder there insists
      on is an error that says where, and has filled exactly the decoders before it. */
  lemma WrongOpRejected(rs: seq<Res>, status: uint32, tag: seq<byte>, n: uint32, ws: seq<Wire>, op: uint32,
                        rest: seq<byte>)
    requires |tag| <= MAX_LEN && |ws| < n <= |rs| && ExpectedOp(rs[|ws|]) != 0 && ExpectedOp(rs[|ws|]) != op
    requires forall w :: w in ws ==> WireOk(w)
    requires forall k :: 0 <= k < |ws| ==> Matches(rs[k], ws[k])
    ensures var r := GetCompound(rs, Dec(RawReply(status, tag, n, PutResops(ws, PutU32(op, rest))), None));
      r.0 == Err(WrongOp(|ws|)) && r.1 == FillFrom(rs, ws, 0)
  {
    hide GetU32, PutU32, GetOpaque, PutOpaque, PutResops, GetRes, Matches, WireOk, Fill, ExpectedOp;
    assert ws[0..] == ws;
    ResopsPrefix(rs, ws, 0, n, PutU32(op, rest));
    var filled := FillFrom(rs, ws, 0);
    assert filled[|ws|] == rs[|ws|];
  }

  /** A reply with more results than were asked for is an error and fills nothing. */
  lemma TooManyRejected(rs: seq<Res>, status: uint32, tag: seq<byte>, n: uint32, body: seq<byte>)
    requires |tag| <= MAX_LEN && n > |rs|
    ensures var r := GetCompound(rs, Dec(RawReply(status, tag, n, body), None)); r.0 == Err(TooMany) && r.1 == rs
  {
    hide GetU32, PutU32, GetOpaque, PutOpaque;
  }

  lemma {:induction false} ResopsExt(rs: seq<Res>, i: nat, n: nat, d: Dec, x: seq<byte>)
    requires i <= n <= |rs| && d.Good() && GetResops(rs, i, n, d).0.None?
    ensures var r := GetResops(rs, i, n, d);
      r.2.Good() && GetResops(rs, i, n, Dec(d.rest + x, None)) == (None, r.1, Dec(r.2.rest + x, None))
    decreases n - i
  {
    hide GetU32, GetRes;
    if i < n {
      U32Ext(d, x);
      var d1 := GetU32(d).1;
      ResExt(rs[i], d1, x);
      ResopsExt(rs[i := GetRes(rs[i], d1).0], i + 1, n, GetRes(rs[i], d1).1, x);
    }
  }

  lemma CompoundExt(rs: seq<Res>, d: Dec, x: seq<byte>)
    requires GetCompound(rs, d).0.Ok?
    ensures var r := GetCompound(rs, d); GetCompound(rs, Dec(d.rest + x, None)) == (r.0, r.1, Dec(r.2.rest + x, None))
  {
    hide GetU32, GetOpaque, GetResops;
    var d1 := GetU32(d).1;
    var d2 := GetOpaque(d1).1;
    U32Ext(d, x);
    OpaqueExt(d1, x);
    U32Ext(d2, x);
    ResopsExt(rs, 0, GetU32(d2).0, GetU32(d2).1, x);
  }

  /** A reply cut anywhere short of its end is an error. */
  lemma CutReplyRejected(rs: seq<Res>, p: Reply, n: nat)
    requires ReplyOk(p) && Answers(p, rs) && n < |PutReply(p, [])|
    ensures GetCompound(rs, Dec(PutReply(p, [])[..n], None)).0.Err?
  {
    hide GetCompound, PutReply, ReplyOk, Answers;
    var s := PutReply(p, []);
    if GetCompound(rs, Dec(s[..n], None)).0.Ok? {
      CompoundExt(rs, Dec(s[..n], None), s[n..]);
      assert s[..n] + s[n..] == s;
      CompoundRoundTrip(rs, p, []);
    }
  }

  // ---- A leading SEQUENCE is invisible to the caller ----

  function Shifted(e: DecodeError): DecodeError {
    match e
    case BadOpnum(i) => BadOpnum(i + 1)
    case WrongOp(i) => WrongOp(i + 1)
    case BadBody(i) => BadBody(i + 1)
    case _ => e
  }

  lemma {:induction false} ResopsShift(s: Res, rs: seq<Res>, i: nat, n: nat, d: Dec)
    requires i <= n <= |rs|
    ensures var r := GetResops(rs, i, n, d);
      GetResops([s] + rs, i + 1, n + 1, d)
        == (if r.0.None? then None else Some(Shifted(r.0.value)), [s] + r.1, r.2)
    decreases n - i
  {
    hide GetU32, GetRes;
    if i < n {
      var (x, d2) := GetRes(rs[i], GetU32(d).1);
      assert ([s] + rs)[i + 1 := x] == [s] + rs[i := x];
      ResopsShift(s, rs[i := x], i + 1, n, d2);
    }
  }

  /** The reply to n results, whatever follows the header. */
  function RawReply(status: uint32, tag: seq<byte>, n: uint32, body: seq<byte>): seq<byte>
    requires |tag| <= MAX_LEN
  {
    PutU32(status, PutOpaque(tag, PutU32(n, body)))
  }

  /** The same reply with an OK SEQUENCE result in front. */
  function WithSequence(status: uint32, tag: seq<byte>, n: uint32, sq: Body, body: seq<byte>): seq<byte>
    requires |tag| <= MAX_LEN && n + 1 < TWO32 && sq.BSequence? && BodyOk(sq)
  {
    RawReply(status, tag, n + 1, PutU32(OP_SEQUENCE, PutWire(Answer(OP_SEQUENCE, NFS4_OK, sq), body)))
  }

  /** For every reply with an OK SEQUENCE in front, malformed ones included, the caller's decoders
      end up exactly as on the reply without it, and so do status, tag and (less one) the count. */
  lemma SequenceIsTransparent(s: Res, rs: seq<Res>, status: uint32, tag: seq<byte>, n: uint32, sq: Body,
                              body: seq<byte>)
    requires |tag| <= MAX_LEN && n + 1 < TWO32 && sq.BSequence? && BodyOk(sq) && s.SequenceRes?
    ensures var with := GetCompound([s] + rs, Dec(WithSequence(status, tag, n, sq, body), None));
      var without := GetCompound(rs, Dec(RawReply(status, tag, n, body), None));
      && with.1[1..] == without.1
      && (with.0.Ok? <==> without.0.Ok?)
      && (without.0.Ok? ==> && with.0.value == without.0.value.(numResults := without.0.value.numResults + 1)
                            && with.2 == without.2
                            && with.1[0] == Fill(s, Answer(OP_SEQUENCE, NFS4_OK, sq)))
      && (without.0.Err? ==> with.0.error == Shifted(without.0.error))
  {
    hide GetU32, PutU32, GetOpaque, PutOpaque, GetRes, PutWire, BodyOk;
    var w := Answer(OP_SEQUENCE, NFS4_OK, sq);
    if n <= |rs| {
      ResRoundTrip(s, w, body);
      var t := Fill(s, w);
      assert ([s] + rs)[0 := t] == [t] + rs;
      ResopsShift(t, rs, 0, n, Dec(body, None));
    }
  }

  // ---- Decoders reused across attempts ----

  /** Same kind of decoder, holding the same directory entries. */
  predicate Alike(r: Res, s: Res) {
    && ExpectedOp(r) == ExpectedOp(s)
    && (r.ReaddirRes? && s.ReaddirRes? ==> r.entries == s.entries)
  }

  /** An OK result overwrites everything a decoder held except leftover directory entries. */
  lemma FillForgets(r: Res, s: Res, w: Wire)
    requires ExpectedOp(r) == ExpectedOp(s) && Matches(r, w)
    requires w.Answer? ==> w.status == NFS4_OK
    ensures Fill(r, w) == Fill(s, w) <==> Alike(r, s)
  {
    if r.ReaddirRes? {
      var b := w.body.entries;
      assert r.entries + b == s.entries + b ==> r.entries == s.entries by {
        if r.entries + b == s.entries + b {
          assert |r.entries| == |s.entries|;
          assert r.entries == (r.entries + b)[..|r.entries|];
          assert s.entries == (s.entries + b)[..|s.entries|];
        }
      }
    }
  }

  /** A complete reply in which every result is OK. */
  predicate CompleteOk(p: Reply, rs: seq<Res>) {
    && ReplyOk(p) && Answers(p, rs) && |p.results| == |rs|
    && forall k :: 0 <= k < |rs| ==> p.results[k].Answer? ==> p.results[k].status == NFS4_OK
  }

  /** Used decoders give the values fresh ones would, exactly when no used READDIR decoder
      still holds entries the fresh one does not. */
  lemma ReuseIffAlike(clean: seq<Res>, used: seq<Res>, p: Reply)
    requires |used| == |clean| && CompleteOk(p, clean)
    requires forall k :: 0 <= k < |clean| ==> ExpectedOp(clean[k]) == ExpectedOp(used[k])
    ensures FillAll(used, p) == FillAll(clean, p) <==> forall k :: 0 <= k < |clean| ==> Alike(clean[k], used[k])
  {
    hide Fill, Matches, WireOk, Alike;
    forall k | 0 <= k < |clean|
      ensures FillAll(used, p)[k] == FillAll(clean, p)[k] <==> Alike(clean[k], used[k])
    {
      FillForgets(clean[k], used[k], p.results[k]);
    }
    if forall k :: 0 <= k < |clean| ==> Alike(clean[k], used[k]) {
      assert forall k :: 0 <= k < |clean| ==> FillAll(used, p)[k] == FillAll(clean, p)[k];
    }
  }

  /** The decoders after a series of replies, each decoded from its bytes into the same objects. */
  function AfterReplies(rs: seq<Res>, ps: seq<Reply>): (r: seq<Res>)
    requires forall p :: p in ps ==> ReplyOk(p)
    ensures |r| == |rs|
  {
    if ps == [] then rs
    else GetCompound(AfterReplies(rs, ps[..|ps| - 1]), Dec(PutReply(ps[|ps| - 1], []), None)).1
  }

  /** The entries of the OK READDIR result a reply carries at place k, if it carries one. */
  function Carries(p: Reply, k: nat): seq<DirEntry> {
    if k < |p.results| && p.results[k].Answer? && p.results[k].status == NFS4_OK && p.results[k].body.BReaddir?
    then p.results[k].body.entries else []
  }

  function Carried(ps: seq<Reply>, k: nat): seq<DirEntry> {
    if ps == [] then [] else Carried(ps[..|ps| - 1], k) + Carries(ps[|ps| - 1], k)
  }

  /** The same kind of decoder, with more directory entries. */
  predicate Grown(r: Res, more: seq<DirEntry>, s: Res) {
    ExpectedOp(r) == ExpectedOp(s) && (r.ReaddirRes? && s.ReaddirRes? ==> s.entries == r.entries + more)
  }

  lemma FillGrows(r: Res, before: seq<DirEntry>, s: Res, p: Reply, k: nat)
    requires Grown(r, before, s) && (k < |p.results| ==> Matches(r, p.results[k]))
    ensures k < |p.results| ==> Matches(s, p.results[k])
    ensures Grown(r, before + Carries(p, k), if k < |p.results| then Fill(s, p.results[k]) else s)
  {
    assert before + [] == before;
    if r.ReaddirRes? {
      assert r.entries + (before + Carries(p, k)) == s.entries + Carries(p, k);
    }
  }

  /** After any replies to the compound, whatever their statuses, each decoder is of its kind and READDIR's
      holds its first entries and then those of every OK READDIR result so far. */
  lemma {:induction false} DecodersAfterReplies(clean: seq<Res>, ps: seq<Reply>)
    requires forall p :: p in ps ==> ReplyOk(p) && Answers(p, clean)
    ensures forall k :: 0 <= k < |clean| ==> Grown(clean[k], Carried(ps, k), AfterReplies(clean, ps)[k])
    decreases |ps|
  {
    hide GetCompound, PutReply, Fill, Matches, ReplyOk, Grown, Carries;
    if ps == [] {
      forall k | 0 <= k < |clean| ensures Grown(clean[k], [], clean[k]) { GrownNone(clean[k]); }
    } else {
      var init, p := ps[..|ps| - 1], ps[|ps| - 1];
      var used := AfterReplies(clean, init);
      DecodersAfterReplies(clean, init);
      assert p in ps && Answers(p, clean);
      forall k | 0 <= k < |clean|
        ensures k < |p.results| ==> Matches(used[k], p.results[k])
        ensures Grown(clean[k], Carried(ps, k), if k < |p.results| then Fill(used[k], p.results[k]) else used[k])
      {
        FillGrows(clean[k], Carried(init, k), used[k], p, k);
      }
      CompoundRoundTrip(used, p, []);
    }
  }

  lemma GrownNone(r: Res)
    ensures Grown(r, [], r)
  {
    if r.ReaddirRes? { assert r.entries + [] == r.entries; }
  }

  lemma GrownAlike(r: Res, more: seq<DirEntry>, s: Res)
    requires Grown(r, more, s)
    ensures Alike(r, s) <==> !r.ReaddirRes? || more == []
    ensures ExpectedOp(r) == ExpectedOp(s)
  {
    if r.ReaddirRes? {
      assert |s.entries| == |r.entries| + |more|;
      if more == [] { assert r.entries + more == r.entries; }
    }
  }

  /** No reply carries an OK READDIR result with entries. */
  predicate NoEntries(ps: seq<Reply>) { forall p :: p in ps ==> NoneCarried(p) }

  predicate NoneCarried(p: Reply) { forall k :: 0 <= k < |p.results| ==> Carries(p, k) == [] }

  lemma {:induction false} CarriedNothing(clean: seq<Res>, ps: seq<Reply>)
    requires forall p :: p in ps ==> Answers(p, clean)
    ensures NoEntries(ps) <==> forall k :: 0 <= k < |clean| && clean[k].ReaddirRes? ==> Carried(ps, k) == []
    decreases |ps|
  {
    hide Answers, Carries;
    if ps != [] {
      var init, p := ps[..|ps| - 1], ps[|ps| - 1];
      CarriedNothing(clean, init);
      assert forall q :: q in ps <==> q in init || q == p;
      CarriesOnlyReaddir(clean, p);
      forall k | 0 <= k < |clean| ensures Carried(ps, k) == [] <==> Carried(init, k) == [] && Carries(p, k) == [] {}
    }
  }

  lemma CarriesOnlyReaddir(clean: seq<Res>, p: Reply)
    requires Answers(p, clean)
    ensures NoneCarried(p) <==> forall k :: 0 <= k < |clean| && clean[k].ReaddirRes? ==> Carries(p, k) == []
  {
    forall k | 0 <= k < |p.results| ensures clean[k].ReaddirRes? || Carries(p, k) == [] {
      assert Matches(clean[k], p.results[k]);
    }
  }

  lemma AfterRepliesFill(clean: seq<Res>, ps: seq<Reply>, last: Reply)
    requires forall p :: p in ps ==> ReplyOk(p) && Answers(p, clean)
    requires ReplyOk(last) && Answers(last, clean)
    ensures Answers(last, AfterReplies(clean, ps))
    ensures AfterReplies(clean, ps + [last]) == FillAll(AfterReplies(clean, ps), last)
  {
    hide GetCompound, PutReply, Fill, Matches, ReplyOk, Grown, FillAll, Carries;
    var used := AfterReplies(clean, ps);
    DecodersAfterReplies(clean, ps);
    forall k | 0 <= k < |last.results| ensures Matches(used[k], last.results[k]) {
      FillGrows(clean[k], Carried(ps, k), used[k], last, k);
    }
    CompoundRoundTrip(used, last, []);
    assert (ps + [last])[..|ps|] == ps;
  }

  /** Decoders reused after any replies give what fresh ones would on a complete OK reply, values and
      result alike, if and only if no earlier reply carried an OK READDIR result with entries. */
  lemma ReuseIff(clean: seq<Res>, ps: seq<Reply>, last: Reply)
    requires forall p :: p in ps ==> ReplyOk(p) && Answers(p, clean)
    requires CompleteOk(last, clean)
    ensures GetCompound(AfterReplies(clean, ps), Dec(PutReply(last, []), None))
         == GetCompound(clean, Dec(PutReply(last, []), None))
       <==> NoEntries(ps)
  {
    hide GetCompound, PutReply, Fill, Matches, ReplyOk, Grown, FillAll, Carries, Alike, NoEntries, AfterReplies,
         Carried;
    FillReuseIff(clean, ps, last);
    AfterRepliesFill(clean, ps, last);
    CompoundRoundTrip(AfterReplies(clean, ps), last, []);
    CompoundRoundTrip(clean, last, []);
  }

  lemma FillReuseIff(clean: seq<Res>, ps: seq<Reply>, last: Reply)
    requires forall p :: p in ps ==> ReplyOk(p) && Answers(p, clean)
    requires CompleteOk(last, clean)
    ensures FillAll(AfterReplies(clean, ps), last) == FillAll(clean, last) <==> NoEntries(ps)
  {
    hide GetCompound, PutReply, Fill, Matches, ReplyOk, Grown, FillAll, Carries, Alike, NoEntries, AfterReplies,
         Carried;
    var used := AfterReplies(clean, ps);
    DecodersAfterReplies(clean, ps);
    CarriedNothing(clean, ps);
    forall k | 0 <= k < |clean|
      ensures Alike(clean[k], used[k]) <==> !clean[k].ReaddirRes? || Carried(ps, k) == []
      ensures ExpectedOp(clean[k]) == ExpectedOp(used[k])
    {
      GrownAlike(clean[k], Carried(ps, k), used[k]);
    }
    ReuseIffAlike(clean, used, last);
  }

  // ---- Replies that make the client try again ----

  predicate IsRetriableStatus(s: uint32) { s == NFS4ERR_DELAY || s == NFS4ERR_GRACE }

  /** A reply that makes the client try again: the overall status is that of the last result. */
  predicate RetriableReply(p: Reply, rs: seq<Res>) {
    && ReplyOk(p) && Answers(p, rs) && IsRetriableStatus(p.status)
    && (p.results != [] ==> p.results[|p.results| - 1].status == p.status)
  }

  /** READDIR, if present, is the last operation. */
  predicate ReaddirLast(rs: seq<Res>) { forall k :: 0 <= k < |rs| - 1 ==> !rs[k].ReaddirRes? }

  lemma RetriableCarriesNothing(clean: seq<Res>, ps: seq<Reply>)
    requires ReaddirLast(clean) && forall p :: p in ps ==> RetriableReply(p, clean)
    ensures NoEntries(ps)
  {
    forall p | p in ps ensures NoneCarried(p) {
      assert Answers(p, clean);
      forall k | 0 <= k < |p.results| ensures Carries(p, k) == [] {
        assert Matches(clean[k], p.results[k]);
      }
    }
  }

  /** So for a compound whose READDIR, if any, is its last operation (LOOKUP, GETATTR, READ and READDIR
      are all built so), any number of DELAY and GRACE replies followed by a complete OK reply leave in
      the reused decoders what that last reply alone leaves in fresh ones. */
  lemma RetryLeavesNoTrace(clean: seq<Res>, ps: seq<Reply>, last: Reply)
    requires forall p :: p in ps ==> ReplyOk(p) && RetriableReply(p, clean)
    requires ReaddirLast(clean) && CompleteOk(last, clean)
    ensures GetCompound(AfterReplies(clean, ps), Dec(PutReply(last, []), None))
         == GetCompound(clean, Dec(PutReply(last, []), None))
  {
    hide GetCompound, PutReply, ReplyOk, AfterReplies, NoEntries, CompleteOk;
    RetriableCarriesNothing(clean, ps);
    forall p | p in ps ensures Answers(p, clean) { assert RetriableReply(p, clean); }
    ReuseIff(clean, ps, last);
  }

  /** Without that agreement of statuses the guarantee fails: a DELAY reply that carries an OK
      READDIR result leaves its entries behind, and the retry lists them twice. */
  lemma DisagreeingStatusDuplicates(e: DirEntry)
    requires EntryOk(e)
    ensures var clean := [StatusRes(0), ReaddirRes(0, Zeros(8), [], false)];
      var ok := [Answer(22, NFS4_OK, BStatus), Answer(OP_READDIR, NFS4_OK, BReaddir(Zeros(8), [e], true))];
      var final := AfterReplies(clean, [Reply(NFS4ERR_DELAY, [], ok), Reply(NFS4_OK, [], ok)]);
      final[1].ReaddirRes? && final[1].entries == [e, e]
  {
    hide GetCompound, PutReply, AfterReplies;
    var clean := [StatusRes(0), ReaddirRes(0, Zeros(8), [], false)];
    var ok := [Answer(22, NFS4_OK, BStatus), Answer(OP_READDIR, NFS4_OK, BReaddir(Zeros(8), [e], true))];
    var first, again := Reply(NFS4ERR_DELAY, [], ok), Reply(NFS4_OK, [], ok);
    DecodersAfterReplies(clean, [first, again]);
    assert Carried([first, again], 1) == [e, e] by {
      assert [first, again][..1] == [first] && [first][..0] == [];
      assert Carried([first], 1) == [e];
    }
  }
}
