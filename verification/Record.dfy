/** Record marking over a byte stream (section 11 of RFC 5531). */
module Record {
  import opened Machine

  const MAX_FRAGMENT := 0x1000_0000  // 256 MiB
  const MAX_MESSAGE := 0x2000_0000   // 512 MiB

  datatype RecordError = Eof | UnexpectedEof | TooLarge | Broken

  // ---- The wire format ----

  function Flat(frs: seq<seq<byte>>): seq<byte> {
    if frs == [] then [] else frs[0] + Flat(frs[1..])
  }

  /** The marker of a fragment of n bytes. */
  function Marker(n: nat, last: bool): (m: seq<byte>)
    requires n < TWO31
    ensures |m| == 4 && FromBE32(m) == n + if last then TWO31 else 0
  {
    BE32(n + if last then TWO31 else 0)
  }

  /** Fragments with their markers, only the last one flagged. */
  function Frame(frs: seq<seq<byte>>): seq<byte>
    requires frs != [] && forall f :: f in frs ==> |f| < TWO31
  {
    var head := Marker(|frs[0]|, |frs| == 1) + frs[0];
    if |frs| == 1 then head else head + Frame(frs[1..])
  }

  /** What the reader accepts after `acc` bytes of message: any cut into fragments of up to 256 MiB, empty ones
      included, of up to 512 MiB in all. */
  ghost predicate Legal(frs: seq<seq<byte>>, acc: nat) {
    && frs != []
    && (forall f :: f in frs ==> |f| <= 0x1000_0000)
    && acc + |Flat(frs)| <= 0x2000_0000
  }

  // ---- The reader on values ----

  /** The low 31 bits of a marker. */
  function SizeOf(marker: uint32): nat { if marker >= TWO31 then marker - TWO31 else marker }

  function Parse(s: seq<byte>, msg: seq<byte>): (Result<seq<byte>, RecordError>, seq<byte>)
    decreases |s|
  {
    if |s| < 4 then (Err(if s == [] then Eof else UnexpectedEof), [])
    else
      var marker := FromBE32(s[..4]);
      var size, body := SizeOf(marker), s[4..];
      if size > MAX_FRAGMENT || |msg| + size > MAX_MESSAGE then (Err(TooLarge), body)
      else if size > |body| then (Err(UnexpectedEof), [])
      else if marker >= TWO31 then (Ok(msg + body[..size]), body[size..])
      else Parse(body[size..], msg + body[..size])
  }

  lemma ParseStep(f: seq<byte>, last: bool, tail: seq<byte>, msg: seq<byte>)
    requires |f| <= MAX_FRAGMENT && |msg| + |f| <= MAX_MESSAGE
    ensures Parse(Marker(|f|, last) + f + tail, msg)
         == if last then (Ok(msg + f), tail) else Parse(tail, msg + f)
  {
    hide BE32, FromBE32;
    var s := Marker(|f|, last) + f + tail;
    assert s[..4] == Marker(|f|, last) && s[4..] == f + tail;
    assert (f + tail)[..|f|] == f && (f + tail)[|f|..] == tail;
  }

  /** The first fragment of a stream that parses. */
  lemma ParseHead(s: seq<byte>, msg: seq<byte>) returns (f: seq<byte>, last: bool, tail: seq<byte>)
    requires Parse(s, msg).0.Ok?
    ensures |f| <= MAX_FRAGMENT && |msg| + |f| <= MAX_MESSAGE
    ensures s == Marker(|f|, last) + f + tail && |tail| < |s|
  {
    hide BE32, FromBE32;
    var m, body := s[..4], s[4..];
    last := FromBE32(m) >= TWO31;
    f, tail := body[..SizeOf(FromBE32(m))], body[SizeOf(FromBE32(m))..];
    BE32Unique(m);
    assert s == m + f + tail;
  }

  lemma FrameCons(f: seq<byte>, more: seq<seq<byte>>)
    requires |f| < TWO31 && forall g :: g in more ==> |g| < TWO31
    ensures Frame([f] + more)
         == if more == [] then Marker(|f|, true) + f else Marker(|f|, false) + f + Frame(more)
    ensures Flat([f] + more) == f + Flat(more)
  {
    hide BE32, FromBE32;
    assert ([f] + more)[1..] == more;
  }

  lemma {:induction false} FramedParses(frs: seq<seq<byte>>, msg: seq<byte>, rest: seq<byte>)
    requires Legal(frs, |msg|)
    ensures Parse(Frame(frs) + rest, msg) == (Ok(msg + Flat(frs)), rest)
    decreases |frs|
  {
    hide BE32, FromBE32, Marker, Parse, Frame;
    var f, more := frs[0], frs[1..];
    assert frs == [f] + more;
    FrameCons(f, more);
    if more == [] {
      ParseStep(f, true, rest, msg);
      assert Flat(frs) == f;
    } else {
      ParseStep(f, false, Frame(more) + rest, msg);
      FramedParses(more, msg + f, rest);
      assert Frame(frs) + rest == Marker(|f|, false) + f + (Frame(more) + rest);
      assert msg + f + Flat(more) == msg + Flat(frs);
    }
  }

  lemma {:induction false} ParsedIsFramed(s: seq<byte>, msg: seq<byte>) returns (frs: seq<seq<byte>>)
    requires Parse(s, msg).0.Ok?
    ensures Legal(frs, |msg|)
    ensures Parse(s, msg).0.value == msg + Flat(frs) && s == Frame(frs) + Parse(s, msg).1
    decreases |s|
  {
    hide BE32, FromBE32, Marker, Parse, Frame;
    var f, last, tail := ParseHead(s, msg);
    ParseStep(f, last, tail, msg);
    var more := [];
    if !last {
      more := ParsedIsFramed(tail, msg + f);
    }
    frs := [f] + more;
    FrameCons(f, more);
    assert last ==> Flat(frs) == f;
    assert !last ==> msg + f + Flat(more) == msg + Flat(frs);
    assert !last ==> s == Frame(frs) + Parse(tail, msg + f).1;
  }

  /** Reading a record succeeds exactly on a legal framing of the message, and then leaves
      exactly the bytes that follow it. */
  lemma ReadIffFramed(s: seq<byte>, m: seq<byte>, rest: seq<byte>)
    ensures Parse(s, []) == (Ok(m), rest)
       <==> exists frs :: Legal(frs, 0) && m == Flat(frs) && s == Frame(frs) + rest
  {
    if Parse(s, []) == (Ok(m), rest) {
      var frs := ParsedIsFramed(s, []);
    }
    forall frs | Legal(frs, 0) && m == Flat(frs) && s == Frame(frs) + rest
      ensures Parse(s, []) == (Ok(m), rest)
    {
      FramedParses(frs, [], rest);
      assert [] + Flat(frs) == Flat(frs);
    }
  }

  lemma {:induction false} ParseExt(s: seq<byte>, msg: seq<byte>, x: seq<byte>)
    requires Parse(s, msg).0.Ok?
    ensures Parse(s + x, msg) == (Parse(s, msg).0, Parse(s, msg).1 + x)
    decreases |s|
  {
    var frs := ParsedIsFramed(s, msg);
    var rest := Parse(s, msg).1;
    FramedParses(frs, msg, rest);
    FramedParses(frs, msg, rest + x);
    assert s + x == Frame(frs) + (rest + x);
  }

  /** A stream that stops anywhere inside a record is an error. */
  lemma CutRecordIsError(frs: seq<seq<byte>>, n: nat)
    requires Legal(frs, 0) && n < |Frame(frs)|
    ensures Parse(Frame(frs)[..n], []).0.Err?
  {
    hide BE32, FromBE32;
    var s := Frame(frs);
    if Parse(s[..n], []).0.Ok? {
      ParseExt(s[..n], [], s[n..]);
      assert s[..n] + s[n..] == s == s + [];
      FramedParses(frs, [], []);
    }
  }

  /** n bytes into a record is the end of one of its fragments but the last, or its start. */
  predicate AtBoundary(frs: seq<seq<byte>>, n: nat) {
    n == 0 || (|frs| > 1 && n >= 4 + |frs[0]| && AtBoundary(frs[1..], n - 4 - |frs[0]|))
  }

  /** Which error: end of input exactly when the stream stops between fragments, otherwise a cut. */
  lemma {:induction false} CutError(frs: seq<seq<byte>>, n: nat, msg: seq<byte>)
    requires Legal(frs, |msg|) && n < |Frame(frs)|
    ensures Parse(Frame(frs)[..n], msg).0 == Err(if AtBoundary(frs, n) then Eof else UnexpectedEof)
    decreases |frs|
  {
    hide BE32, FromBE32, Marker, Frame;
    var f, more := frs[0], frs[1..];
    assert frs == [f] + more;
    FrameCons(f, more);
    var head := Marker(|f|, more == []) + f;
    if n >= 4 {
      var s := Frame(frs)[..n];
      assert s[..4] == Marker(|f|, more == []);
      if more != [] && n >= |head| {
        assert s == head + Frame(more)[..n - |head|];
        ParseStep(f, false, Frame(more)[..n - |head|], msg);
        assert |Flat(frs)| == |f| + |Flat(more)|;
        CutError(more, n - |head|, msg + f);
      }
    }
  }

  /** A marker past the fragment limit, or that takes the message past its limit, is refused whatever follows. */
  lemma OversizeRefused(n: nat, last: bool, rest: seq<byte>, msg: seq<byte>)
    requires n < TWO31 && (n > 0x1000_0000 || |msg| + n > 0x2000_0000)
    ensures Parse(Marker(n, last) + rest, msg).0 == Err(TooLarge)
  {
    hide BE32, FromBE32;
    var s := Marker(n, last) + rest;
    assert s[..4] == Marker(n, last);
  }

  // ---- The stream and the two operations ----

  class Stream {
    var open: bool
    var room: nat            // bytes it will still take before it fails
    var inbound: seq<byte>   // received and not yet read
    var outbound: seq<byte>  // sent

    constructor (inbound: seq<byte>, room: nat)
      ensures open && this.inbound == inbound && outbound == [] && this.room == room
    {
      open, this.inbound, outbound, this.room := true, inbound, [], room;
    }

    /** A write that fails may have taken part of the bytes. */
    method Write(p: seq<byte>) returns (ok: bool)
      modifies this
      ensures unchanged(`open) && unchanged(`inbound)
      ensures ok == (old(open) && |p| <= old(room))
      ensures outbound == old(outbound) + if old(open) then Fits(p, old(room)) else []
      ensures room == old(room) - if old(open) then |Fits(p, old(room))| else 0
    {
      if !open { return false; }
      ok := |p| <= room;
      var n := Min(|p|, room);
      outbound, room := outbound + p[..n], room - n;
    }

    /** All of n bytes, or an error with the input drained. */
    method ReadFull(n: nat) returns (r: Result<seq<byte>, RecordError>)
      modifies this
      ensures unchanged(`open) && unchanged(`outbound) && unchanged(`room)
      ensures !old(open) ==> r == Err(Broken) && unchanged(this)
      ensures old(open) && n <= |old(inbound)| ==> r == Ok(old(inbound)[..n]) && inbound == old(inbound)[n..]
      ensures old(open) && n > |old(inbound)| ==>
                inbound == [] && r == Err(if old(inbound) == [] then Eof else UnexpectedEof)
    {
      if !open { return Err(Broken); }
      if n <= |inbound| {
        r, inbound := Ok(inbound[..n]), inbound[n..];
      } else {
        r, inbound := Err(if |inbound| == 0 then Eof else UnexpectedEof), [];
      }
    }

    method Close()
      modifies this
      ensures !open && unchanged(`inbound) && unchanged(`outbound) && unchanged(`room)
    {
      open := false;
    }
  }

  /** The 32-bit length test cuts the length first, so a payload of 4 GiB or more can slip through. */
  function RecordBytes(payload: seq<byte>): Result<seq<byte>, RecordError> {
    var n := |payload| % TWO32;
    if n >= TWO31 then Err(TooLarge) else Ok(Marker(n, true) + payload)
  }

  /** What reaches the stream of a record: all of it, or on a failed write a part. */
  function RecordTaken(open: bool, room: nat, payload: seq<byte>): (q: seq<byte>)
    ensures |q| <= room
  {
    if open && RecordBytes(payload).Ok? then Fits(RecordBytes(payload).value, room) else []
  }

  method WriteRecord(w: Stream, payload: seq<byte>) returns (r: Result<(), RecordError>)
    modifies w
    ensures unchanged(w`open) && unchanged(w`inbound)
    ensures r.Ok? <==> old(w.open) && RecordBytes(payload).Ok? && |RecordBytes(payload).value| <= old(w.room)
    ensures w.outbound == old(w.outbound) + RecordTaken(old(w.open), old(w.room), payload)
    ensures w.room == old(w.room) - |RecordTaken(old(w.open), old(w.room), payload)|
  {
    hide BE32, FromBE32;
    var n := |payload| % TWO32;
    if n > 0x7FFF_FFFF { return Err(TooLarge); }
    ghost var rec := Marker(n, true) + payload;
    var ok := w.Write(Marker(n, true));
    if !ok {
      assert w.open ==> Fits(rec, old(w.room)) == Fits(Marker(n, true), old(w.room));
      return Err(Broken);
    }
    ghost var mid := w.room;
    ok := w.Write(payload);
    assert Fits(rec, old(w.room)) == Marker(n, true) + Fits(payload, mid);
    if !ok { return Err(Broken); }
    r := Ok(());
  }

  method ReadRecord(r: Stream) returns (m: Result<seq<byte>, RecordError>)
    modifies r
    ensures unchanged(r`open) && unchanged(r`outbound) && unchanged(r`room)
    ensures old(r.open) ==> (m, r.inbound) == Parse(old(r.inbound), [])
    ensures !old(r.open) ==> m == Err(Broken) && unchanged(r)
  {
    var msg: seq<byte> := [];
    while true
      invariant unchanged(r`open) && unchanged(r`outbound) && unchanged(r`room)
      invariant r.open ==> Parse(old(r.inbound), []) == Parse(r.inbound, msg)
      invariant !r.open ==> unchanged(r)
      decreases |r.inbound|
    {
      var hdr := r.ReadFull(4);
      if hdr.Err? { return Err(hdr.error); }
      var marker := FromBE32(hdr.value);
      var last, size := marker >= TWO31, SizeOf(marker);
      if size > MAX_FRAGMENT { return Err(TooLarge); }
      if |msg| + size > MAX_MESSAGE { return Err(TooLarge); }
      var frag := r.ReadFull(size);
      if frag.Err? {
        return Err(if frag.error.Eof? then UnexpectedEof else frag.error);
      }
      msg := msg + frag.value;
      if last { return Ok(msg); }
    }
  }

  /** The writer emits the one-fragment framing exactly for payloads below 2 GiB. */
  lemma WriteIsOneFragment(payload: seq<byte>)
    ensures (RecordBytes(payload).Ok? && exists f: seq<byte> :: |f| < TWO31 && RecordBytes(payload).value == Frame([f]))
       <==> |payload| < TWO31
    ensures |payload| < TWO31 ==> RecordBytes(payload) == Ok(Frame([payload]))
  {
    hide BE32, FromBE32;
    if |payload| < TWO31 {
      assert RecordBytes(payload).value == Frame([payload]);
    } else if RecordBytes(payload).Ok? {
      forall f: seq<byte> | |f| < TWO31
        ensures RecordBytes(payload).value != Frame([f])
      {
        assert |Frame([f])| == 4 + |f|;
      }
    }
  }

  /** The writer sends under a marker that is not the payload's length, and says nothing, if and only if
      the length is 4 GiB or more and its low 32 bits pass the test. (From 2 to 4 GiB it refuses.) */
  lemma WrongMarkerIff(payload: seq<byte>)
    ensures RecordBytes(payload).Ok? && FromBE32(RecordBytes(payload).value[..4]) != |payload| + TWO31
       <==> |payload| >= TWO32 && |payload| % TWO32 < TWO31
    ensures RecordBytes(payload).Err? <==> |payload| % TWO32 >= TWO31
  {
    hide BE32, FromBE32;
    if RecordBytes(payload).Ok? {
      var m := Marker(|payload| % TWO32, true);
      assert RecordBytes(payload).value[..4] == m;
    }
  }

  /** What the other side makes of it: the payload cut to its length's low 32 bits, the rest left in the
      stream as if the next record; or an error past the fragment limit. */
  lemma ReadBackCut(payload: seq<byte>, rest: seq<byte>)
    requires RecordBytes(payload).Ok?
    ensures var n := |payload| % TWO32;
      if n <= MAX_FRAGMENT
      then Parse(RecordBytes(payload).value + rest, []) == (Ok(payload[..n]), payload[n..] + rest)
      else Parse(RecordBytes(payload).value + rest, []).0 == Err(TooLarge)
  {
    hide BE32, FromBE32;
    var n := |payload| % TWO32;
    var s := RecordBytes(payload).value + rest;
    if n <= MAX_FRAGMENT {
      assert s == Marker(n, true) + payload[..n] + (payload[n..] + rest);
      ParseStep(payload[..n], true, payload[n..] + rest, []);
      assert [] + payload[..n] == payload[..n];
    } else {
      assert s[..4] == Marker(n, true);
    }
  }

  /** So what one side writes the other side reads back exactly up to the fragment limit. */
  lemma WriteThenRead(payload: seq<byte>, rest: seq<byte>)
    requires RecordBytes(payload).Ok?
    ensures Parse(RecordBytes(payload).value + rest, []) == (Ok(payload), rest) <==> |payload| <= 0x1000_0000
  {
    hide Parse, RecordBytes;
    ReadBackCut(payload, rest);
    var n := |payload| % TWO32;
    assert n < |payload| ==> |payload[..n]| < |payload|;
    if n == |payload| { assert payload[..n] == payload && payload[n..] + rest == rest; }
  }

  /** A payload of 4 GiB goes out whole and is read back as an empty record, with success. */
  lemma FourGigabytesReadEmpty(payload: seq<byte>, rest: seq<byte>)
    requires |payload| == TWO32
    ensures RecordBytes(payload).Ok? && Parse(RecordBytes(payload).value + rest, []) == (Ok([]), payload + rest)
  {
    hide Parse;
    ReadBackCut(payload, rest);
    assert payload[..0] == [] && payload[0..] == payload;
  }
}
