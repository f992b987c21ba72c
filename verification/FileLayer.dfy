/** The os.File-like handle over a server that answers short. */
module FileLayer {
  import opened Machine
  import opened FileSpec

  /** How the server behaves on one request: fail, give no bytes, or serve up to `amount` bytes, perhaps
      flagging the end of file. */
  datatype Choice = Choice(fails: bool, stalls: bool, amount: nat, flagsEof: bool)

  function Clamp(x: nat, most: nat): (r: nat)
    ensures r <= most && (most > 0 ==> r >= 1)
  {
    if most == 0 then 0 else if x == 0 then 1 else if x > most then most else x
  }

  /** One file on a server. Every pattern of short answers and failures is some `oracle`. */
  class FileServer {
    var content: seq<byte>
    var log: seq<Request>
    var tick: nat
    const oracle: nat -> Choice
    const maxSize: nat

    constructor (content: seq<byte>, maxSize: nat, oracle: nat -> Choice)
      ensures this.content == content && this.maxSize == maxSize && log == []
    {
      this.content, this.maxSize, this.oracle := content, maxSize, oracle;
      log, tick := [], 0;
    }

    predicate Valid()
      reads this
    {
      |content| <= maxSize < TWO63
    }

    method Next() returns (c: Choice)
      modifies this`tick
    {
      c := oracle(tick);
      tick := tick + 1;
    }

    method Read(off: nat, count: nat) returns (r: Option<(seq<byte>, bool)>)
      modifies this`log, this`tick
      ensures log == old(log) + [ReadReq(off, count, if r.Some? then Some((|r.value.0|, r.value.1)) else None)]
      ensures r.Some? ==> ReadAnswer(content, off, count, r.value.0, r.value.1)
    {
      var c := Next();
      if c.fails {
        log := log + [ReadReq(off, count, None)];
        return None;
      }
      var avail := Avail(content, off);
      var n := if c.stalls then 0 else Clamp(c.amount, Min(count, avail));
      var data := if n == 0 then [] else content[off..off + n];
      var eof := n == avail && (n == 0 || c.flagsEof);
      log := log + [ReadReq(off, count, Some((n, eof)))];
      r := Some((data, eof));
    }

    /** WRITE reports how much it wrote, zero included; a failed one leaves the file alone. */
    method Write(off: nat, data: seq<byte>) returns (r: Option<nat>)
      requires Valid()
      modifies this
      ensures Valid() && log == old(log) + [WriteReq(off, data, r)]
      ensures r.None? ==> content == old(content)
      ensures r.Some? ==> r.value <= |data| && r.value < TWO32 && content == Overlay(old(content), off, data[..r.value])
      ensures r.Some? && r.value > 0 ==> off + r.value < TWO63
    {
      var c := Next();
      if c.fails || off > maxSize {
        log := log + [WriteReq(off, data, None)];
        return None;
      }
      var n := Min(Min(c.amount, |data|), Min(TWO32 - 1, maxSize - off));
      content := Overlay(content, off, data[..n]);
      log := log + [WriteReq(off, data, Some(n))];
      r := Some(n);
    }

    method Size() returns (r: Option<nat>)
      modifies this`log, this`tick
      ensures log == old(log) + [SizeReq(r.None?)] && (r.Some? ==> r.value == |content|)
    {
      var c := Next();
      log := log + [SizeReq(c.fails)];
      r := if c.fails then None else Some(|content|);
    }

    method SetSize(n: nat) returns (ok: bool)
      requires Valid()
      modifies this
      ensures Valid() && log == old(log) + [ResizeReq(n, !ok)]
      ensures content == if ok then Resize(old(content), n) else old(content)
    {
      var c := Next();
      ok := !c.fails && n <= maxSize;
      log := log + [ResizeReq(n, !ok)];
      if ok { content := Resize(content, n); }
    }

    method CloseFile() returns (ok: bool)
      modifies this`log, this`tick
      ensures log == old(log) + [CloseReq(!ok)]
    {
      var c := Next();
      log := log + [CloseReq(c.fails)];
      ok := !c.fails;
    }
  }

  class File {
    const server: FileServer
    const append: bool
    var offset: int64
    var closed: bool

    constructor (server: FileServer, append: bool)
      requires server.Valid()
      ensures Valid() && this.server == server && this.append == append && !closed && offset == 0
    {
      this.server, this.append, offset, closed := server, append, 0, false;
    }

    predicate Valid()
      reads this, server
    {
      server.Valid() && offset >= 0
    }

    function V(): View
      reads this, server
    {
      View(server.content, server.log, offset, closed)
    }

    /** One READ for what is left of the buffer, the answer copied in from index n on. */
    method ReadPiece(p: array<byte>, n: nat, off: nat) returns (r: Option<(nat, bool)>)
      requires n <= p.Length
      modifies server`log, server`tick, p
      ensures server.log == old(server.log) + [ReadReq(off + n, (p.Length - n) % TWO32, r)]
      ensures p[..n] == old(p[..n])
      ensures r.Some? ==>
                && n + r.value.0 <= p.Length && p[n + r.value.0..] == old(p[n + r.value.0..])
                && ReadAnswer(server.content, off + n, (p.Length - n) % TWO32, p[n..n + r.value.0], r.value.1)
      ensures r.None? ==> p[n..] == old(p[n..])
    {
      var a := server.Read(off + n, (p.Length - n) % TWO32);
      if a.None? { return None; }
      var (data, eof) := a.value;
      CopyInto(p, n, data);
      assert p[n..n + |data|] == data;
      r := Some((|data|, eof));
    }

    method ReadAt(p: array<byte>, off: int64) returns (n: nat, err: Option<IOError>)
      requires Valid()
      modifies server, p
      ensures Valid() && n <= p.Length && p[n..] == old(p[n..])
      ensures Step(append, old(V()), FileSpec.ReadAt(p.Length, off), Out(n, err, p[..n]), V())
    {
      hide Overlay, Resize, Stalls;
      if closed { assert p[..0] == []; return 0, Some(ErrClosed); }
      if off < 0 { assert p[..0] == []; return 0, Some(ErrInvalid); }
      n, err := ReadLoop(p, off);
    }

    method ReadLoop(p: array<byte>, off: nat) returns (n: nat, err: Option<IOError>)
      modifies server`log, server`tick, p
      ensures n <= p.Length && p[n..] == old(p[n..]) && n <= p.Length % TWO32 && Bytes(server.content, off, p[..n])
      ensures StoppedBy(old(server.log), server.log, err) && NoClose(server.log[|old(server.log)|..])
      ensures err == None || err == Some(EOF) || err == Some(Protocol)
      ensures err == None ==> n == p.Length
      ensures err != Some(Protocol) ==>
                (n == Min(p.Length % TWO32, Avail(server.content, off))
                 <==> !Stalls(server.content, server.log[|old(server.log)|..]))
    {
      hide Stalls;
      ghost var c, cut, start := server.content, p.Length % TWO32, server.log;
      n := 0;
      NoStalls(c, start[|start|..]);
      QuietNone(start, start);
      while n < p.Length
        invariant n <= p.Length && p[n..] == old(p[n..])
        invariant Quiet(start, server.log) && !Stalls(c, server.log[|start|..])
        invariant n <= cut && Bytes(c, off, p[..n])
        decreases p.Length - n
      {
        assert (p.Length - n) % TWO32 == cut - n by { CutRemainder(p.Length, n); }
        ghost var before, m, tail := server.log, n, p[n..];
        var r := ReadPiece(p, n, off);
        QuietSnoc(start, before, server.log[|before|]);
        StallLogged(c, start, before, server.log[|before|]);
        if r.None? { return n, Some(Protocol); }
        var (got, eof) := r.value;
        n := n + got;
        assert p[n..] == tail[got..] && old(p[n..]) == old(p[m..])[got..];
        assert p[..n] == p[..m] + p[m..n];
        BytesJoin(c, off, p[..m], p[m..n]);
        if eof || got == 0 { return n, Some(EOF); }
      }
      err := None;
      QuietNone(start, server.log);
    }

    method Read(p: array<byte>) returns (n: nat, err: Option<IOError>)
      requires Valid()
      modifies this, server, p
      ensures Valid() && n <= p.Length && p[n..] == old(p[n..])
      ensures Step(append, old(V()), FileSpec.Read(p.Length), Out(n, err, p[..n]), V())
    {
      hide Overlay, Resize;
      assert p[..0] == [];
      if closed { return 0, Some(ErrClosed); }
      if p.Length == 0 { return 0, None; }
      var r := server.Read(offset, p.Length % TWO32);
      QuietSnoc(old(server.log), old(server.log), server.log[|old(server.log)|]);
      NoStalls(server.content, old(server.log)[|old(server.log)|..]);
      StallLogged(server.content, old(server.log), old(server.log), server.log[|old(server.log)|]);
      if r.None? { return 0, Some(Protocol); }
      var (data, eof) := r.value;
      CopyInto(p, 0, data);
      n := |data|;
      assert p[..n] == data;
      offset := Wrap64(offset + n);
      err := if n == 0 then Some(EOF) else None;
    }

    method WriteAt(p: seq<byte>, off: int64) returns (n: nat, err: Option<IOError>)
      requires Valid()
      modifies server
      ensures Valid()
      ensures Step(append, old(V()), FileSpec.WriteAt(p, off), Out(n, err, []), V())
    {
      if closed { return 0, Some(ErrClosed); }
      if off < 0 { return 0, Some(ErrInvalid); }
      n, err := WriteLoop(p, off);
    }

    method WriteLoop(p: seq<byte>, off: int64) returns (n: nat, err: Option<IOError>)
      requires Valid() && off >= 0
      modifies server
      ensures Valid() && off + n < TWO63
      ensures StoppedBy(old(server.log), server.log, err) && NoClose(server.log[|old(server.log)|..])
      ensures WroteAt(old(server.content), p, off, Out(n, err, []), server.content)
    {
      hide Overlay;
      n := 0;
      while n < |p|
        invariant server.Valid() && n <= |p| && off + n < TWO63
        invariant Quiet(old(server.log), server.log)
        invariant server.content == Overlay(old(server.content), off, p[..n])
      {
        ghost var before := server.log;
        var r := server.Write(off + n, p[n..]);
        QuietSnoc(old(server.log), before, WriteReq(off + n, p[n..], r));
        if r.None? { return n, Some(Protocol); }
        if r.value == 0 {
          return n, Some(ErrShortWrite);
        }
        assert p[n..][..r.value] == p[n..n + r.value];
        OverlayJoin(old(server.content), off, p, n, n + r.value);
        n := n + r.value;
      }
      err := None;
      QuietNone(old(server.log), server.log);
    }

    method Write(p: seq<byte>) returns (n: nat, err: Option<IOError>)
      requires Valid()
      modifies this, server
      ensures Valid()
      ensures Step(append, old(V()), FileSpec.Write(p), Out(n, err, []), V())
    {
      hide Overlay, Resize;
      if closed { return 0, Some(ErrClosed); }
      var off := offset;
      if append {
        var sz := server.Size();
        QuietSnoc(old(server.log), old(server.log), SizeReq(sz.None?));
        if sz.None? { return 0, Some(Protocol); }
        off := sz.value;
      }
      ghost var mid := server.log;
      n, err := WriteLoop(p, off);
      StoppedJoin(old(server.log), mid, server.log, err);
      offset := Wrap64(off + n);
    }

    method Seek(by_: int64, whence: Whence) returns (pos: int, err: Option<IOError>)
      requires Valid()
      modifies this, server
      ensures Valid()
      ensures Step(append, old(V()), FileSpec.Seek(by_, whence), Out(pos, err, []), V())
    {
      hide Overlay, Resize;
      if closed { return 0, Some(ErrClosed); }
      var base: int64 := 0;
      match whence {
        case SeekStart => base := 0;
        case SeekCurrent => base := offset;
        case SeekEnd =>
          var sz := server.Size();
          QuietSnoc(old(server.log), old(server.log), SizeReq(sz.None?));
          if sz.None? { return 0, Some(Protocol); }
          base := sz.value;
        case SeekOther => return 0, Some(ErrInvalid);
      }
      var target := Wrap64(base + by_);
      if target < 0 { return 0, Some(ErrInvalid); }
      offset := target;
      return target, None;
    }

    method Truncate(size: int64) returns (err: Option<IOError>)
      requires Valid()
      modifies server
      ensures Valid()
      ensures Step(append, old(V()), FileSpec.Truncate(size), Out(0, err, []), V())
    {
      hide Overlay, Resize;
      if closed { return Some(ErrClosed); }
      if size < 0 { return Some(ErrInvalid); }
      var ok := server.SetSize(size);
      QuietSnoc(old(server.log), old(server.log), ResizeReq(size, !ok));
      err := if ok then None else Some(Protocol);
    }

    method Close() returns (err: Option<IOError>)
      requires Valid()
      modifies this, server
      ensures Valid() && closed
      ensures Step(append, old(V()), FileSpec.Close, Out(0, err, []), V())
    {
      hide Overlay, Resize;
      if closed { return Some(ErrClosed); }
      closed := true;
      var ok := server.CloseFile();
      err := if ok then None else Some(Protocol);
    }

    method Apply(op: Op) returns (o: Out)
      requires Valid()
      modifies this, server
      ensures Valid() && Step(append, old(V()), op, o, V())
    {
      hide Step;
      match op {
        case Read(len) =>
          var p := new byte[len];
          var n, err := Read(p);
          o := Out(n, err, p[..n]);
        case Write(p) =>
          var n, err := Write(p);
          o := Out(n, err, []);
        case ReadAt(len, off) =>
          var p := new byte[len];
          var n, err := ReadAt(p, off);
          o := Out(n, err, p[..n]);
        case WriteAt(p, off) =>
          var n, err := WriteAt(p, off);
          o := Out(n, err, []);
        case Seek(by_, whence) =>
          var pos, err := Seek(by_, whence);
          o := Out(pos, err, []);
        case Truncate(size) =>
          var err := Truncate(size);
          o := Out(0, err, []);
        case Close =>
          var err := Close();
          o := Out(0, err, []);
      }
    }
  }

  /** Every sequence of operations on a handle is a run of the byte sequence with a cursor. */
  method Drive(f: File, ops: seq<Op>) returns (outs: seq<Out>, ghost vs: seq<View>)
    requires f.Valid()
    modifies f, f.server
    ensures f.Valid() && Run(f.append, vs, ops, outs) && vs[0] == old(f.V()) && vs[|ops|] == f.V()
  {
    hide Step;
    outs, vs := [], [f.V()];
    for i := 0 to |ops|
      invariant f.Valid()
      invariant |vs| == i + 1 && |outs| == i && vs[0] == old(f.V()) && vs[i] == f.V()
      invariant forall j :: 0 <= j < i ==> Step(f.append, vs[j], ops[j], outs[j], vs[j + 1])
    {
      var o := f.Apply(ops[i]);
      outs, vs := outs + [o], vs + [f.V()];
    }
  }

  // ---- Helpers ----

  /** Copies data into p from index n on. */
  method CopyInto(p: array<byte>, n: nat, data: seq<byte>)
    requires n + |data| <= p.Length
    modifies p
    ensures p[..] == old(p[..n]) + data + old(p[n + |data|..])
  {
    forall i | 0 <= i < |data| { p[n + i] := data[i]; }
  }

  lemma CutRemainder(len: nat, n: nat)
    requires n <= len % TWO32
    ensures (len - n) % TWO32 == len % TWO32 - n
  {}

  lemma BytesJoin(c: seq<byte>, off: nat, a: seq<byte>, b: seq<byte>)
    requires Bytes(c, off, a) && |b| <= Avail(c, off + |a|) && (b != [] ==> b == c[off + |a|..off + |a| + |b|])
    ensures Bytes(c, off, a + b)
  {}

  lemma NoStalls(c: seq<byte>, log: seq<Request>)
    requires log == []
    ensures !Stalls(c, log)
  {}

  lemma StallLogged(c: seq<byte>, a: seq<Request>, b: seq<Request>, r: Request)
    requires a <= b
    ensures Stalls(c, (b + [r])[|a|..]) <==> Stalls(c, b[|a|..]) || StalledRead(c, r)
  {
    assert (b + [r])[|a|..] == b[|a|..] + [r];
    StallsSnoc(c, b[|a|..], r);
  }

  lemma QuietNone(a: seq<Request>, b: seq<Request>)
    requires a == b || Quiet(a, b)
    ensures Quiet(a, b) && StoppedBy(a, b, None) && NoClose(b[|a|..])
  {}

  lemma QuietSnoc(a: seq<Request>, b: seq<Request>, r: Request)
    requires (a == b || Quiet(a, b)) && !r.CloseReq?
    ensures StoppedBy(a, b + [r], StopsWith(r)) && NoClose((b + [r])[|a|..])
    ensures StopsWith(r) == None ==> Quiet(a, b + [r])
  {}

  lemma StoppedJoin(a: seq<Request>, b: seq<Request>, c: seq<Request>, err: Option<IOError>)
    requires (a == b || Quiet(a, b)) && StoppedBy(b, c, err) && NoClose(c[|b|..])
    ensures StoppedBy(a, c, err) && NoClose(c[|a|..])
  {
    forall j | 0 <= j < |c| - |a| ensures !c[|a|..][j].CloseReq? {
      if |a| + j >= |b| { assert c[|a|..][j] == c[|b|..][|a| + j - |b|]; }
    }
  }
}
