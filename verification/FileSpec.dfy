/** What an open file is meant to be: a byte sequence with a cursor, over a server that may answer
    READ and WRITE short (sections 16.23 and 16.36 of RFC 7530). */
module FileSpec {
  import opened Machine

  // ---- Contents ----

  function Avail(c: seq<byte>, off: nat): nat { if off >= |c| then 0 else |c| - off }

  /** c with p written at off; a hole before it reads as zeros; writing nothing changes nothing. */
  function Overlay(c: seq<byte>, off: nat, p: seq<byte>): (r: seq<byte>)
    ensures p == [] ==> r == c
    ensures p != [] ==> |r| == if off + |p| > |c| then off + |p| else |c|
  {
    if p == [] then c
    else
      seq(if off + |p| > |c| then off + |p| else |c|, i requires i >= 0 =>
        if off <= i < off + |p| then p[i - off] else if i < |c| then c[i] else 0)
  }

  function Resize(c: seq<byte>, n: nat): (r: seq<byte>)
    ensures |r| == n
  {
    seq(n, i requires i >= 0 => if i < |c| then c[i] else 0)
  }

  /** Writing a prefix and then the next piece after it is writing the longer prefix. */
  lemma OverlayJoin(c: seq<byte>, off: nat, p: seq<byte>, a: nat, b: nat)
    requires a <= b <= |p|
    ensures Overlay(Overlay(c, off, p[..a]), off + a, p[a..b]) == Overlay(c, off, p[..b])
  {
    var l, r := Overlay(Overlay(c, off, p[..a]), off + a, p[a..b]), Overlay(c, off, p[..b]);
    assert |l| == |r|;
    assert forall i :: 0 <= i < |l| ==> l[i] == r[i];
  }

  lemma OverlayReads(c: seq<byte>, off: nat, p: seq<byte>)
    requires p != []
    ensures Overlay(c, off, p)[off..off + |p|] == p
  {}

  /** Everything outside the written range is untouched. */
  lemma OverlayFrame(c: seq<byte>, off: nat, p: seq<byte>, i: nat)
    requires i < |c| && !(off <= i < off + |p|)
    ensures i < |Overlay(c, off, p)| && Overlay(c, off, p)[i] == c[i]
  {}

  // ---- The server ----

  /** An answer to READ: bytes of the file at the offset, possibly fewer than asked; the end-of-file flag
      only at the end, and always when there is nothing left. None before the end is a stall. */
  predicate ReadAnswer(c: seq<byte>, off: nat, count: nat, data: seq<byte>, eof: bool) {
    && |data| <= count && |data| <= Avail(c, off)
    && (data != [] ==> data == c[off..off + |data|])
    && (eof ==> |data| == Avail(c, off))
    && (Avail(c, off) == 0 ==> eof)
  }

  /** What the server is asked and what comes of it: of a READ how many bytes it gave and whether it flagged
      the end, of a WRITE how many it took; None, or `failed`, when the request failed. */
  datatype Request =
    | ReadReq(off: nat, count: nat, answer: Option<(nat, bool)>)
    | WriteReq(off: nat, data: seq<byte>, took: Option<nat>)
    | SizeReq(failed: bool)
    | ResizeReq(n: nat, failed: bool)
    | CloseReq(failed: bool)

  predicate Failed(r: Request) {
    match r
    case ReadReq(_, _, answer) => answer.None?
    case WriteReq(_, _, took) => took.None?
    case SizeReq(failed) => failed
    case ResizeReq(_, failed) => failed
    case CloseReq(failed) => failed
  }

  /** The error a loop of requests stops with after this one, if it stops. */
  function StopsWith(r: Request): Option<IOError> {
    if Failed(r) then Some(Protocol)
    else if r.ReadReq? && (r.answer.value.1 || r.answer.value.0 == 0) then Some(EOF)
    else if r.WriteReq? && r.took == Some(0) then Some(ErrShortWrite)
    else None
  }

  /** From log a to log b no request but perhaps the last one stops the loop, and that one's error is the
      one reported: none exactly when none stops. */
  predicate StoppedBy(a: seq<Request>, b: seq<Request>, err: Option<IOError>) {
    && a <= b && (forall j :: |a| <= j < |b| - 1 ==> StopsWith(b[j]) == None)
    && err == if |a| == |b| then None else StopsWith(b[|b| - 1])
  }

  /** From log a to log b every request goes on, and none closes. */
  predicate Quiet(a: seq<Request>, b: seq<Request>) {
    a <= b && forall j :: |a| <= j < |b| ==> StopsWith(b[j]) == None && !b[j].CloseReq?
  }

  predicate NoClose(log: seq<Request>) { forall j :: 0 <= j < |log| ==> !log[j].CloseReq? }

  /** Asked for bytes that are there, the server gave none. */
  predicate StalledRead(c: seq<byte>, r: Request) {
    r.ReadReq? && r.count > 0 && r.answer.Some? && r.answer.value.0 == 0 && Avail(c, r.off) > 0
  }

  predicate Stalls(c: seq<byte>, log: seq<Request>) { exists i :: 0 <= i < |log| && StalledRead(c, log[i]) }

  lemma StallsSnoc(c: seq<byte>, log: seq<Request>, r: Request)
    ensures Stalls(c, log + [r]) <==> Stalls(c, log) || StalledRead(c, r)
  {
    if StalledRead(c, r) { assert StalledRead(c, (log + [r])[|log|]); }
    if Stalls(c, log) {
      var i :| 0 <= i < |log| && StalledRead(c, log[i]);
      assert StalledRead(c, (log + [r])[i]);
    }
  }

  // ---- The file as its user sees it ----

  datatype IOError = ErrClosed | ErrInvalid | EOF | ErrShortWrite | Protocol

  /** The server's content and request log, and the handle's cursor. */
  datatype View = View(content: seq<byte>, log: seq<Request>, cursor: int, closed: bool)

  datatype Whence = SeekStart | SeekCurrent | SeekEnd | SeekOther

  datatype Op =
    | Read(len: nat)
    | Write(p: seq<byte>)
    | ReadAt(len: nat, off: int64)
    | WriteAt(p: seq<byte>, off: int64)
    | Seek(by_: int64, whence: Whence)
    | Truncate(size: int64)
    | Close

  /** n is the returned count or position; data is what a read put in the buffer. */
  datatype Out = Out(n: int, err: Option<IOError>, data: seq<byte>)

  /** The bytes of c a read of up to n at off may return. */
  predicate Bytes(c: seq<byte>, off: nat, data: seq<byte>) {
    |data| <= Avail(c, off) && (data != [] ==> data == c[off..off + |data|])
  }

  predicate Untouched(v: View, w: View) { w.content == v.content && w.cursor == v.cursor && w.closed == v.closed }

  /** The server stalled a READ between the two. */
  predicate Stalled(v: View, w: View) { |v.log| <= |w.log| && Stalls(v.content, w.log[|v.log|..]) }

  /** Reads at an offset: exactly the file's bytes there; without a protocol error as many as fit the
      buffer (its length cut to 32 bits, as the request count is) and the file, unless a READ stalled. */
  predicate ReadAtSpec(v: View, len: nat, off: int64, o: Out, w: View) {
    && Untouched(v, w)
    && (off < 0 ==> o == Out(0, Some(ErrInvalid), []) && w == v)
    && (off >= 0 ==>
          && Bytes(v.content, off, o.data) && o.n == |o.data| && o.n <= len % TWO32
          && StoppedBy(v.log, w.log, o.err) && (o.err == None || o.err == Some(EOF) || o.err == Some(Protocol))
          && (o.err != Some(Protocol) ==>
                (o.n == Min(len % TWO32, Avail(v.content, off)) <==> !Stalled(v, w)))
          && (o.err == None ==> o.n == len))
  }

  predicate ReadSpec(v: View, len: nat, o: Out, w: View) {
    && w.content == v.content && !w.closed
    && (len == 0 ==> o == Out(0, None, []) && w == v)
    && v.cursor >= 0 && Bytes(v.content, v.cursor, o.data) && o.n == |o.data| <= len
    && w.cursor == v.cursor + o.n
    && (o.err == None || o.err == Some(EOF) || o.err == Some(Protocol))
    && (len > 0 ==>
          && |w.log| == |v.log| + 1
          && var r := w.log[|v.log|];
             && r.ReadReq? && r.off == v.cursor && r.count == len % TWO32 && (o.err == Some(Protocol) <==> Failed(r))
             && (!Failed(r) ==> o.n == r.answer.value.0))
    && (o.err == None && len > 0 ==> o.n > 0)
    && (o.err != None ==> o.n == 0)
    && (len > 0 && o.err != Some(Protocol) ==>
          (o.err == Some(EOF) <==> Avail(v.content, v.cursor) == 0 || len % TWO32 == 0 || Stalled(v, w)))
  }

  /** Writes at an offset: the file overlaid with the reported prefix, all of it unless an error says not. */
  predicate WroteAt(c: seq<byte>, p: seq<byte>, off: nat, o: Out, d: seq<byte>) {
    && 0 <= o.n <= |p| && d == Overlay(c, off, p[..o.n])
    && (o.err == None || o.err == Some(ErrShortWrite) || o.err == Some(Protocol))
    && (o.err == None ==> o.n == |p|)
  }

  predicate WriteAtSpec(v: View, p: seq<byte>, off: int64, o: Out, w: View) {
    && w.cursor == v.cursor && w.closed == v.closed
    && (off < 0 ==> o == Out(0, Some(ErrInvalid), []) && w == v)
    && (off >= 0 ==> WroteAt(v.content, p, off, o, w.content) && StoppedBy(v.log, w.log, o.err))
  }

  /** Writes at the cursor, or at the end in append mode; the cursor ends after the bytes written. */
  predicate WriteSpec(append: bool, v: View, p: seq<byte>, o: Out, w: View) {
    && !w.closed && StoppedBy(v.log, w.log, o.err)
    && ((o == Out(0, Some(Protocol), []) && append && Untouched(v, w))
        || (var off := if append then |v.content| else v.cursor;
            off >= 0 && WroteAt(v.content, p, off, o, w.content) && w.cursor == off + o.n))
  }

  /** Where a seek should land, in unbounded arithmetic. */
  function SeekTarget(v: View, by_: int64, whence: Whence): int {
    by_ + match whence
          case SeekStart => 0
          case SeekCurrent => v.cursor
          case SeekEnd => |v.content|
          case SeekOther => 0
  }

  predicate SeekSpec(v: View, by_: int64, whence: Whence, o: Out, w: View) {
    && w.content == v.content && !w.closed && o.data == []
    && (o.err == None || o.err == Some(ErrInvalid) || (o.err == Some(Protocol) && whence.SeekEnd?))
    && (if whence.SeekEnd? then w.log == v.log + [SizeReq(o.err == Some(Protocol))] else w.log == v.log)
    && (o.err == None ==> o.n == w.cursor == SeekTarget(v, by_, whence))
    && (o.err != None ==> o.n == 0 && w.cursor == v.cursor)
    && (o.err != Some(Protocol) ==>
          (o.err == None <==> !whence.SeekOther? && 0 <= SeekTarget(v, by_, whence) < TWO63))
  }

  predicate TruncateSpec(v: View, size: int64, o: Out, w: View) {
    && w.cursor == v.cursor && w.closed == v.closed && o.n == 0 && o.data == []
    && (size < 0 ==> o.err == Some(ErrInvalid) && w == v)
    && (size >= 0 ==>
          && (o.err == None || o.err == Some(Protocol))
          && w.log == v.log + [ResizeReq(size, o.err == Some(Protocol))]
          && w.content == if o.err == None then Resize(v.content, size) else v.content)
  }

  /** One operation on an open or closed handle: a closed one answers without a word to the server. */
  predicate Step(append: bool, v: View, op: Op, o: Out, w: View) {
    if v.closed then o == Out(0, Some(ErrClosed), []) && w == v
    else
      && v.log <= w.log
      && match op {
           case Read(len) => ReadSpec(v, len, o, w)
           case Write(p) => WriteSpec(append, v, p, o, w)
           case ReadAt(len, off) => ReadAtSpec(v, len, off, o, w)
           case WriteAt(p, off) => WriteAtSpec(v, p, off, o, w)
           case Seek(by_, whence) => SeekSpec(v, by_, whence, o, w)
           case Truncate(size) => TruncateSpec(v, size, o, w)
           case Close =>
             && (o.err == None || o.err == Some(Protocol)) && o.n == 0 && o.data == []
             && w == v.(closed := true, log := v.log + [CloseReq(o.err == Some(Protocol))])
         }
      && (!op.Close? ==> NoClose(w.log[|v.log|..]))
  }

  // ---- Whole runs ----

  predicate Run(append: bool, vs: seq<View>, ops: seq<Op>, outs: seq<Out>) {
    && |vs| == |ops| + 1 && |outs| == |ops|
    && forall i :: 0 <= i < |ops| ==> Step(append, vs[i], ops[i], outs[i], vs[i + 1])
  }

  lemma StepCursor(append: bool, v: View, op: Op, o: Out, w: View)
    requires Step(append, v, op, o, w) && v.cursor >= 0
    ensures w.cursor >= 0
  {
    hide Overlay, Bytes, Resize;
  }

  /** The cursor is never negative, whatever is sought. */
  lemma {:induction false} CursorNeverNegative(append: bool, vs: seq<View>, ops: seq<Op>, outs: seq<Out>, i: nat)
    requires Run(append, vs, ops, outs) && vs[0].cursor >= 0 && i < |vs|
    ensures vs[i].cursor >= 0
  {
    hide Step;
    if i > 0 {
      CursorNeverNegative(append, vs, ops, outs, i - 1);
      StepCursor(append, vs[i - 1], ops[i - 1], outs[i - 1], vs[i]);
    }
  }

  function Closes(log: seq<Request>): nat {
    if log == [] then 0 else Closes(log[..|log| - 1]) + if log[|log| - 1].CloseReq? then 1 else 0
  }

  lemma {:induction false} ClosesJoin(a: seq<Request>, b: seq<Request>)
    requires NoClose(b)
    ensures Closes(a + b) == Closes(a)
    decreases |b|
  {
    if b == [] {
      assert a + b == a;
    } else {
      var b1 := b[..|b| - 1];
      assert (a + b)[..|a + b| - 1] == a + b1;
      ClosesJoin(a, b1);
    }
  }

  lemma StepCloses(append: bool, v: View, op: Op, o: Out, w: View)
    requires Step(append, v, op, o, w)
    ensures Closes(w.log) == Closes(v.log) + if w.closed && !v.closed then 1 else 0
    ensures v.closed ==> w == v && o == Out(0, Some(ErrClosed), [])
    ensures w.closed ==> v.closed || op.Close?
  {
    hide Bytes, Overlay, Resize;
    if !v.closed {
      if op.Close? {
        assert w.log[..|w.log| - 1] == v.log;
      } else {
        assert w.log == v.log + w.log[|v.log|..];
        ClosesJoin(v.log, w.log[|v.log|..]);
      }
    }
  }

  /** From the first Close on, nothing changes and nothing reaches the server; over the whole run the
      server sees one CloseFile if the handle was closed and none otherwise. */
  lemma {:induction false} NothingAfterClose(append: bool, vs: seq<View>, ops: seq<Op>, outs: seq<Out>, i: nat, j: nat)
    requires Run(append, vs, ops, outs) && !vs[0].closed && Closes(vs[0].log) == 0 && i <= j < |vs|
    ensures Closes(vs[j].log) == if vs[j].closed then 1 else 0
    ensures vs[i].closed ==> vs[j] == vs[i]
    decreases j
  {
    hide Step, Closes;
    if j > 0 {
      StepCloses(append, vs[j - 1], ops[j - 1], outs[j - 1], vs[j]);
      NothingAfterClose(append, vs, ops, outs, if i < j then i else j - 1, j - 1);
    }
  }

  /** What WriteAt wrote, ReadAt reads back (short of a protocol error), exactly when no READ stalls. */
  lemma ReadAfterWrite(append: bool, u: View, v: View, w: View, p: seq<byte>, off: int64, wrote: Out, got: Out)
    requires !u.closed && !v.closed && p != [] && off >= 0 && |p| < TWO32
    requires Step(append, u, WriteAt(p, off), wrote, v) && wrote.err == None
    requires Step(append, v, ReadAt(|p|, off), got, w) && got.err != Some(Protocol)
    ensures got.data == p <==> !Stalled(v, w)
  {
    hide Stalled;
    assert p[..|p|] == p;
    OverlayReads(u.content, off, p);
  }

  /** ReadAt fills what buffer and file allow exactly when no READ stalled and the count cut to 32 bits
      did not cost it: a buffer below 4 GiB, or a file that ends before the cut. */
  lemma ReadAtFullIff(v: View, len: nat, off: int64, o: Out, w: View)
    requires ReadAtSpec(v, len, off, o, w) && off >= 0 && o.err != Some(Protocol)
    ensures o.n == Min(len, Avail(v.content, off))
       <==> !Stalled(v, w) && (len < TWO32 || Avail(v.content, off) <= len % TWO32)
  {
    hide Stalled;
  }

  /** ReadAt says end of file although the file and the buffer both go on, exactly when a READ stalled or
      the count was cut. */
  lemma EarlyEofIff(v: View, len: nat, off: int64, o: Out, w: View)
    requires ReadAtSpec(v, len, off, o, w) && off >= 0 && o.err != Some(Protocol)
    ensures o.err == Some(EOF) && o.n < len && o.n < Avail(v.content, off)
       <==> Stalled(v, w) || (len >= TWO32 && Avail(v.content, off) > len % TWO32)
  {
    hide Stalled;
  }

  /** In append mode every write lands at the end. */
  lemma AppendsAtEnd(v: View, p: seq<byte>, o: Out, w: View)
    requires WriteSpec(true, v, p, o, w) && p != []
    ensures w.content == v.content + p[..o.n]
    ensures o.n > 0 ==> w.cursor == |w.content|
  {
    if o.n > 0 { OverlayAtEnd(v.content, p[..o.n]); }
  }

  lemma OverlayAtEnd(c: seq<byte>, p: seq<byte>)
    ensures Overlay(c, |c|, p) == c + p
  {}
}
