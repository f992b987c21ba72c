/** The read-only view: sequential reading of a file, and listing a directory page by page
    (sections 16.23 and 16.24 of RFC 7530). */
module Fs {
  import opened Machine
  import opened Xdr
  import opened Ops
  import opened FileSpec
  import opened FileLayer
  import opened Attr

  // ---- Sequential files ----

  const DEFAULT_READ_BLOCK := 0x10_0000  // 1 MiB

  class SeqFile {
    const server: FileServer
    const readBlockSize: int
    var offset: nat
    var eof: bool

    constructor (server: FileServer, readBlockSize: int)
      ensures Valid() && this.server == server && this.readBlockSize == readBlockSize && offset == 0 && !eof
    {
      this.server, this.readBlockSize, offset, eof := server, readBlockSize, 0, false;
    }

    function Block(): nat { if readBlockSize > 0 then readBlockSize else DEFAULT_READ_BLOCK }

    /** Everything read so far is a prefix of the file; end of file is remembered only at the end. */
    predicate Valid()
      reads this, server
    {
      offset <= |server.content| && (eof ==> offset == |server.content|)
    }

    /** One READ, for as much as the buffer and the block allow: the next bytes of the file, end of file
        reported and remembered exactly when the server says so, and only at the end. */
    method Read(p: array<byte>) returns (n: nat, err: Option<IOError>)
      requires Valid()
      modifies this, server`log, server`tick, p
      ensures Valid() && n <= p.Length && p[n..] == old(p[n..])
      ensures offset == old(offset) + n && p[..n] == server.content[old(offset)..offset]
      ensures err == None || err == Some(EOF) || err == Some(Protocol)
      ensures old(eof) ==> n == 0 && err == Some(EOF) && eof && server.log == old(server.log)
      ensures !old(eof) ==>
                && |server.log| == |old(server.log)| + 1 && old(server.log) <= server.log
                && var block := if readBlockSize > 0 then readBlockSize else 0x10_0000;
                   var r := server.log[|old(server.log)|];
                   && r.ReadReq? && r.off == old(offset) && r.count == Min(p.Length, block) % TWO32
                   && (err == Some(Protocol) <==> r.answer.None?)
                   && (r.answer.None? ==> n == 0 && !eof)
                   && (r.answer.Some? ==> n == r.answer.value.0 && eof == r.answer.value.1)
                   && (r.answer.Some? ==> (err == Some(EOF) <==> n == 0 && eof))
      ensures err == Some(EOF) ==> n == 0 && offset == |server.content|
      ensures err == None && n == 0 ==>
                && offset < |server.content| && |server.log| > 0
                && (Min(p.Length, Block()) % TWO32 == 0 || StalledRead(server.content, server.log[|server.log| - 1]))
    {
      if eof { return 0, Some(EOF); }
      var want := p.Length;
      if want > Block() { want := Block(); }
      var r := server.Read(offset, want % TWO32);
      if r.None? { return 0, Some(Protocol); }
      var (data, serverEOF) := r.value;
      CopyInto(p, 0, data);
      n := |data|;
      assert p[..n] == data;
      offset := offset + n;
      if serverEOF && n >= |data| { eof := true; }
      if n == 0 && serverEOF { return 0, Some(EOF); }
      err := None;
    }
  }

  /** However the reads are cut and however short the answers, what has come back is the file so far. */
  method ReadPieces(f: SeqFile, sizes: seq<nat>) returns (all: seq<byte>)
    requires f.Valid() && f.offset == 0
    modifies f, f.server`log, f.server`tick
    ensures f.Valid() && all == f.server.content[..f.offset]
    ensures f.server.content == old(f.server.content)
  {
    all := [];
    for i := 0 to |sizes|
      invariant f.Valid() && all == f.server.content[..f.offset]
    {
      var p := new byte[sizes[i]];
      ghost var before := f.offset;
      var n, err := f.Read(p);
      assert f.server.content[..f.offset] == f.server.content[..before] + f.server.content[before..f.offset];
      all := all + p[..n];
    }
  }

  // ---- Directories ----

  const DOT: seq<byte> := [46]
  const DOTDOT: seq<byte> := [46, 46]

  datatype Listed = Listed(name: seq<byte>, attrs: Attributes)

  /** The names "." and "..". */
  predicate IsDot(e: DirEntry) { e.name == [46] || e.name == [46, 46] }

  /** The entries a listing shows. */
  function Visible(es: seq<DirEntry>): seq<DirEntry> {
    if es == [] then [] else Visible(es[..|es| - 1]) + if IsDot(es[|es| - 1]) then [] else [es[|es| - 1]]
  }

  function Attrs(e: DirEntry): Result<Attributes, AttrError> { DecodeSpec(e.attrMask, e.attrVals) }

  /** out lists exactly these entries, each once and in order, with its decoded attributes. */
  predicate Lists(vis: seq<DirEntry>, out: seq<Listed>) {
    && |out| == |vis|
    && forall i :: 0 <= i < |vis| ==> out[i].name == vis[i].name && Attrs(vis[i]) == Ok(out[i].attrs)
  }

  ghost predicate Undecodable(es: seq<DirEntry>) { exists i :: 0 <= i < |es| && !IsDot(es[i]) && Attrs(es[i]).Err? }

  /** Listings are unambiguous. */
  lemma ListsUnique(vis: seq<DirEntry>, a: seq<Listed>, b: seq<Listed>)
    requires Lists(vis, a) && Lists(vis, b)
    ensures a == b
  {
    forall i | 0 <= i < |a| ensures a[i] == b[i] {
      assert Ok(a[i].attrs) == Attrs(vis[i]) == Ok(b[i].attrs);
    }
  }

  /** Cookies are distinct and not zero. */
  predicate GoodCookies(es: seq<DirEntry>) {
    && (forall i :: 0 <= i < |es| ==> es[i].cookie != 0)
    && (forall i, j :: 0 <= i < j < |es| ==> es[i].cookie != es[j].cookie)
  }

  /** `i` is the position the cookie stands for: the start, or just after the entry that carries it. */
  predicate Stands(es: seq<DirEntry>, cookie: uint64, i: nat) {
    i <= |es| && if i == 0 then cookie == 0 else es[i - 1].cookie == cookie
  }

  lemma StandsUnique(es: seq<DirEntry>, cookie: uint64, i: nat, j: nat)
    requires GoodCookies(es) && Stands(es, cookie, i) && Stands(es, cookie, j)
    ensures i == j
  {}

  /** One answer to READDIR. A page may be empty with the end flagged, or, from a server that stalls,
      empty without. */
  datatype Page = Page(verf: seq<byte>, entries: seq<DirEntry>, eof: bool)

  predicate PageAt(es: seq<DirEntry>, i: nat, p: Page) {
    && i + |p.entries| <= |es| && p.entries == es[i..i + |p.entries|]
    && (p.eof ==> i + |p.entries| == |es|)
    && (i == |es| ==> p.eof)
  }

  datatype PageChoice = PageChoice(fails: bool, amount: nat, flagsEof: bool, stalls: bool)

  /** A directory that does not change; every way of cutting it into pages is some `oracle`. It refuses a
      cookie it never gave, and a cookie without the verifier it gave it with. */
  class DirServer {
    const entries: seq<DirEntry>
    const verf: seq<byte>
    const oracle: nat -> PageChoice
    var tick: nat
    var log: seq<Option<Page>>  // what came of each request; None for one that failed or was refused
    var stalled: bool
    var failed: bool
    var refused: bool

    constructor (entries: seq<DirEntry>, verf: seq<byte>, oracle: nat -> PageChoice)
      ensures this.entries == entries && this.verf == verf && log == [] && !stalled && !failed && !refused
    {
      this.entries, this.verf, this.oracle := entries, verf, oracle;
      tick, log, stalled, failed, refused := 0, [], false, false, false;
    }

    method Position(cookie: uint64) returns (i: Option<nat>)
      ensures i.Some? ==> Stands(entries, cookie, i.value)
      ensures i.None? ==> forall j :: 0 <= j <= |entries| ==> !Stands(entries, cookie, j)
    {
      if cookie == 0 { return Some(0); }
      for j := 0 to |entries|
        invariant forall k :: 1 <= k <= j ==> !Stands(entries, cookie, k)
      {
        if entries[j].cookie == cookie { return Some(j + 1); }
      }
      i := None;
    }

    /** Not a cookie and verifier this server has given. */
    ghost predicate Unknown(cookie: uint64, cookieverf: seq<byte>) {
      (cookie != 0 && cookieverf != verf) || forall i :: 0 <= i <= |entries| ==> !Stands(entries, cookie, i)
    }

    method Readdir(cookie: uint64, cookieverf: seq<byte>) returns (r: Option<Page>)
      modifies this
      ensures log == old(log) + [r]
      ensures r.None? ==> stalled == old(stalled)
      ensures r.None? ==> (failed && refused == old(refused)) || (refused && Unknown(cookie, cookieverf))
      ensures r.Some? ==> failed == old(failed) && refused == old(refused) && r.value.verf == verf
      ensures r.Some? ==> exists i :: Stands(entries, cookie, i) && PageAt(entries, i, r.value)
      ensures r.Some? ==> stalled == (old(stalled) || (r.value.entries == [] && !r.value.eof))
    {
      var c := oracle(tick);
      tick := tick + 1;
      r := None;
      if c.fails {
        failed, log := true, log + [r];
        return;
      }
      var at := Position(cookie);
      if at.None? || (cookie != 0 && cookieverf != verf) {
        refused, log := true, log + [r];
        return;
      }
      var i := at.value;
      if c.stalls && i < |entries| {
        stalled, r := true, Some(Page(verf, [], false));
      } else {
        var n := Clamp(c.amount, |entries| - i);
        r := Some(Page(verf, entries[i..i + n], i + n == |entries| && (n == 0 || c.flagsEof)));
      }
      log := log + [r];
      assert PageAt(entries, i, r.value);
    }
  }

  /** A page after which the listing asks for another. */
  predicate GoesOn(p: Option<Page>) { p.Some? && p.value.entries != [] && !p.value.eof }

  datatype DirError = ReaddirFailed | BadAttributes

  /** How far a listing has come: `at` entries are behind the cookie, the visible ones listed. */
  ghost predicate Reached(es: seq<DirEntry>, at: nat, cookie: uint64, out: seq<Listed>) {
    Stands(es, cookie, at) && Lists(Visible(es[..at]), out) && !Undecodable(es[..at])
  }

  /** The entries of one page, added to the listing. */
  method AddPage(ghost es: seq<DirEntry>, ghost at: nat, page: seq<DirEntry>, before: seq<Listed>, from: uint64)
    returns (out: seq<Listed>, cookie: uint64, bad: bool)
    requires at + |page| <= |es| && page == es[at..at + |page|] && Reached(es, at, from, before)
    ensures !bad ==> Reached(es, at + |page|, cookie, out)
    ensures bad ==> Undecodable(es)
  {
    hide Reached, Undecodable;
    out, cookie, bad := before, from, false;
    for k := 0 to |page|
      invariant Reached(es, at + k, cookie, out)
    {
      var e := page[k];
      assert e == es[at + k];
      if e.name == DOT || e.name == DOTDOT {
        SkipsDot(es, at + k, cookie, out);
        cookie := e.cookie;
        continue;
      }
      var a := Attr.Decode(e.attrMask, e.attrVals);
      if a.Err? {
        BadEntry(es, at + k);
        bad := true;
        return;
      }
      ListsOneMore(es, at + k, cookie, out, a.value);
      out := out + [Listed(e.name, a.value)];
      cookie := e.cookie;
    }
  }

  /** Pages through a directory until the end, or until a page comes back empty: `at` entries are behind the
      cookie it stops at. What is returned is complete if and only if nothing visible is left after them. */
  method ReadDirAll(d: DirServer) returns (r: Result<seq<Listed>, DirError>, ghost at: nat)
    requires GoodCookies(d.entries)
    modifies d
    ensures d.refused == old(d.refused)
    ensures old(d.log) < d.log && forall j :: |old(d.log)| <= j < |d.log| - 1 ==> GoesOn(d.log[j])
    ensures var end := d.log[|d.log| - 1]; (r == Err(ReaddirFailed) <==> end.None?) && (r.Ok? ==> !GoesOn(end))
    ensures r.Ok? ==> d.failed == old(d.failed)
    ensures r.Ok? ==> at <= |d.entries| && Lists(Visible(d.entries[..at]), r.value) && !Undecodable(d.entries[..at])
    ensures r.Ok? && !old(d.stalled) ==> (at < |d.entries| <==> d.stalled)
    ensures r.Ok? ==> (Lists(Visible(d.entries), r.value) <==> Visible(d.entries[at..]) == [])
    ensures r.Ok? && !d.stalled ==> Lists(Visible(d.entries), r.value) && !Undecodable(d.entries)
    ensures r == Err(ReaddirFailed) ==> d.failed
    ensures !old(d.failed) ==> (r == Err(ReaddirFailed) <==> d.failed)
    ensures r == Err(BadAttributes) ==> Undecodable(d.entries)
  {
    hide Undecodable, Visible, Lists;
    var out: seq<Listed> := [];
    var cookie: uint64, cookieverf := 0, Zeros(VERIFIER_SIZE);
    at := 0;
    NothingYet(d.entries);
    while true
      invariant Reached(d.entries, at, cookie, out) && at <= |d.entries|
      invariant d.failed == old(d.failed) && d.stalled == old(d.stalled) && d.refused == old(d.refused)
      invariant at > 0 ==> cookieverf == d.verf
      invariant old(d.log) <= d.log && forall j :: |old(d.log)| <= j < |d.log| ==> GoesOn(d.log[j])
      decreases |d.entries| - at
    {
      assert !d.Unknown(cookie, cookieverf);
      var res := d.Readdir(cookie, cookieverf);
      if res.None? { return Err(ReaddirFailed), at; }
      ghost var i :| Stands(d.entries, cookie, i) && PageAt(d.entries, i, res.value);
      StandsUnique(d.entries, cookie, at, i);
      var page := res.value.entries;
      var bad;
      out, cookie, bad := AddPage(d.entries, at, page, out, cookie);
      if bad { return Err(BadAttributes), at; }
      at := at + |page|;
      cookieverf := res.value.verf;
      if res.value.eof { break; }
      if |page| == 0 { break; }
    }
    r := Ok(out);
    CompleteIff(d.entries, at, out);
    assert at == |d.entries| ==> d.entries[..at] == d.entries;
  }

  lemma {:induction false} VisibleJoin(a: seq<DirEntry>, b: seq<DirEntry>)
    ensures Visible(a + b) == Visible(a) + Visible(b)
    decreases |b|
  {
    if b == [] {
      assert a + b == a;
    } else {
      assert (a + b)[..|a + b| - 1] == a + b[..|b| - 1];
      VisibleJoin(a, b[..|b| - 1]);
    }
  }

  lemma CompleteIff(es: seq<DirEntry>, at: nat, out: seq<Listed>)
    requires at <= |es| && Lists(Visible(es[..at]), out)
    ensures Lists(Visible(es), out) <==> Visible(es[at..]) == []
    ensures at == |es| ==> Visible(es[at..]) == []
  {
    hide Attrs;
    assert es == es[..at] + es[at..];
    VisibleJoin(es[..at], es[at..]);
    if Visible(es[at..]) == [] { assert Visible(es) == Visible(es[..at]); }
  }

  lemma NothingYet(es: seq<DirEntry>)
    ensures Reached(es, 0, 0, [])
  {
    assert es[..0] == [];
  }

  lemma BadEntry(es: seq<DirEntry>, n: nat)
    requires n < |es| && !IsDot(es[n]) && Attrs(es[n]).Err?
    ensures Undecodable(es)
  {}

  lemma SkipsDot(es: seq<DirEntry>, n: nat, cookie: uint64, out: seq<Listed>)
    requires n < |es| && IsDot(es[n]) && Reached(es, n, cookie, out)
    ensures Reached(es, n + 1, es[n].cookie, out)
  {
    hide Attrs;
    ListOneMore(es, n);
  }

  lemma ListsOneMore(es: seq<DirEntry>, n: nat, cookie: uint64, out: seq<Listed>, a: Attributes)
    requires n < |es| && !IsDot(es[n]) && Attrs(es[n]) == Ok(a) && Reached(es, n, cookie, out)
    ensures Reached(es, n + 1, es[n].cookie, out + [Listed(es[n].name, a)])
  {
    hide Attrs, Visible;
    ListOneMore(es, n);
  }

  lemma ListOneMore(es: seq<DirEntry>, n: nat)
    requires n < |es|
    ensures Visible(es[..n + 1]) == Visible(es[..n]) + if IsDot(es[n]) then [] else [es[n]]
    ensures !Undecodable(es[..n]) && (IsDot(es[n]) || Attrs(es[n]).Ok?) ==> !Undecodable(es[..n + 1])
  {
    hide Attrs;
    assert es[..n + 1][..n] == es[..n];
  }

  /** The open directory: the listing is fetched once and handed out in pieces. */
  class DirFile {
    const dir: DirServer
    var entries: seq<Listed>
    var read: bool
    var pos: nat

    constructor (dir: DirServer)
      ensures Valid() && this.dir == dir && !read && pos == 0
    {
      this.dir, entries, read, pos := dir, [], false, 0;
    }

    predicate Valid()
      reads this
    {
      pos <= |entries| && (!read ==> pos == 0 && entries == [])
    }

    /** A call hands out the next entries: all that are left for n <= 0, up to n otherwise; it says end
        of file only when asked for some and none are left. A positive n so large that pos + n leaves
        64 bits makes the slice bounds run backwards, and the call panics. */
    method ReadDir(n: int64) returns (r: Piece)
      requires Valid() && GoodCookies(dir.entries)
      modifies this, dir
      ensures Valid() && (old(read) ==> read && entries == old(entries) && unchanged(dir))
      ensures old(pos) <= pos <= |entries|
      ensures r.Handed? ==> read && r.piece == entries[old(pos)..pos]
      ensures r.Handed? ==> pos == if n <= 0 then |entries| else Min(old(pos) + n, |entries|)
      ensures !r.Handed? ==> pos == old(pos)
      ensures r.AtEof? <==> read && n > 0 && old(pos) == |entries|
      ensures r.Handed? && n > 0 ==> r.piece != []
      ensures r.Failed? <==> !read
      ensures r.Panicked? <==> read && n > 0 && old(pos) < |entries| && old(pos) + n >= TWO63
      ensures read && !old(read) && !dir.stalled ==> Lists(Visible(dir.entries), entries)
      ensures read && !old(read) ==> exists at :: 0 <= at <= |dir.entries| && Lists(Visible(dir.entries[..at]), entries)
      ensures r == Failed(ReaddirFailed) ==> dir.failed
      ensures r == Failed(BadAttributes) ==> Undecodable(dir.entries)
    {
      if !read {
        var all, _ := ReadDirAll(dir);
        if all.Err? { return Failed(all.error); }
        entries, read := all.value, true;
      }
      if n <= 0 {
        r := Handed(entries[pos..]);
        pos := |entries|;
        return;
      }
      if pos >= |entries| { return AtEof; }
      var end := if pos + n < TWO63 then pos + n else pos + n - TWO64;
      if end > |entries| { end := |entries|; }
      if end < pos { return Panicked; }
      r := Handed(entries[pos..end]);
      pos := end;
    }
  }

  datatype Piece = Handed(piece: seq<Listed>) | AtEof | Failed(error: DirError) | Panicked

  predicate Positive(ns: seq<int64>, size: nat) { forall n :: n in ns ==> n > 0 && size + n < TWO63 }

  /** The pieces any calls hand out are the listing from where they start to where they end, with no gap and
      no repeat. On a listing already fetched, calls for a positive number each (short of the overflow) come
      to the end of file within one call more than there are entries left, and by then have handed out all. */
  method ReadDirPieces(d: DirFile, ns: seq<int64>) returns (all: seq<Listed>, ended: bool)
    requires d.Valid() && GoodCookies(d.dir.entries)
    modifies d, d.dir
    ensures d.Valid() && old(d.pos) <= d.pos && all == d.entries[old(d.pos)..d.pos]
    ensures old(d.read) ==> d.entries == old(d.entries)
    ensures !old(d.read) && d.read && !d.dir.stalled ==> Lists(Visible(d.dir.entries), d.entries)
    ensures ended ==> d.read && d.pos == |d.entries|
    ensures old(d.read) && Positive(ns, |d.entries|) && |ns| > |d.entries| - old(d.pos) ==> ended
  {
    all, ended := [], false;
    for i := 0 to |ns|
      invariant d.Valid() && old(d.pos) <= d.pos && all == d.entries[old(d.pos)..d.pos]
      invariant old(d.read) ==> d.read && d.entries == old(d.entries)
      invariant !old(d.read) && d.read && !d.dir.stalled ==> Lists(Visible(d.dir.entries), d.entries)
      invariant ended ==> d.read && d.pos == |d.entries|
      invariant old(d.read) && Positive(ns, |d.entries|) ==> ended || d.pos - old(d.pos) >= i
    {
      ghost var before := d.pos;
      assert ns[i] in ns;
      var r := d.ReadDir(ns[i]);
      assert d.entries[old(d.pos)..d.pos] == d.entries[old(d.pos)..before] + d.entries[before..d.pos];
      if r.Handed? { all := all + r.piece; }
      if r.AtEof? { ended := true; }
    }
  }
}
