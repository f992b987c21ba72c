/** XDR (RFC 4506): the sticky-error decoder, the encoder, and their specification
    on values. A `Put` function lays a value down in front of a tail; its contract is
    the round trip through the `Get` function for the same value. */
module Xdr {
  import opened Machine

  const UNIT := 4
  const MAX_LEN := 0x400_0000  // 64 MiB

  datatype Fault = Eof | UnexpectedEof | LimitExceeded

  /** Unread input and the latched error. */
  datatype Dec = Dec(rest: seq<byte>, err: Option<Fault>)
  {
    predicate Good() { err.None? }
  }

  function Units(n: nat): nat { (n + 3) / UNIT }

  function Pad4(n: nat): (p: nat)
    ensures p < UNIT && n + p == UNIT * Units(n)
  {
    if n % UNIT == 0 then 0 else UNIT - n % UNIT
  }

  function Zeros(n: nat): (z: seq<byte>)
    ensures |z| == n && forall i :: 0 <= i < n ==> z[i] == 0
  {
    seq(n, _ => 0)
  }

  // ---- Reading ----

  /** Fills n bytes or latches an error; a failed read drains the input. */
  function Take(d: Dec, n: nat): (r: (seq<byte>, Dec))
    ensures r.1.Good() ==> |r.0| == n
    ensures |r.1.rest| <= |d.rest|
  {
    if !d.Good() then ([], d)
    else if n <= |d.rest| then (d.rest[..n], Dec(d.rest[n..], None))
    else ([], Dec([], Some(if d.rest == [] then Eof else UnexpectedEof)))
  }

  function GetU32(d: Dec): (r: (uint32, Dec))
    ensures |r.1.rest| <= |d.rest|
    ensures r.1.Good() ==> d.Good() && |r.1.rest| == |d.rest| - 4
  {
    var (b, e) := Take(d, 4);
    (if e.Good() then FromBE32(b) else 0, e)
  }

  function GetU64(d: Dec): (r: (uint64, Dec))
    ensures |r.1.rest| <= |d.rest|
    ensures r.1.Good() ==> d.Good() && |r.1.rest| == |d.rest| - 8
  {
    var (b, e) := Take(d, 8);
    (if e.Good() then FromBE64(b) else 0, e)
  }

  function GetI32(d: Dec): (int32, Dec) {
    var (u, e) := GetU32(d);
    (ToInt32(u), e)
  }

  function GetI64(d: Dec): (int64, Dec) {
    var (u, e) := GetU64(d);
    (ToInt64(u), e)
  }

  function GetBool(d: Dec): (bool, Dec) {
    var (u, e) := GetU32(d);
    (u != 0, e)
  }

  /** n bytes and their padding. */
  function GetFixed(d: Dec, n: int): (r: (seq<byte>, Dec))
    ensures r.1.Good() ==> d.Good() && |r.0| == n
    ensures |r.1.rest| <= |d.rest|
  {
    if n < 0 then ([], d.(err := Some(LimitExceeded)))
    else
      var (b, e) := Take(d, n);
      var (_, f) := Take(e, Pad4(n));
      (if f.Good() then b else [], f)
  }

  function GetOpaque(d: Dec): (r: (seq<byte>, Dec))
    ensures r.1.Good() ==> d.Good()
    ensures |r.1.rest| <= |d.rest|
  {
    var (n, e) := GetU32(d);
    if !e.Good() then ([], e)
    else if n > MAX_LEN then ([], e.(err := Some(LimitExceeded)))
    else GetFixed(e, n)
  }

  // ---- Writing ----

  function PutU32(v: uint32, tail: seq<byte>): (s: seq<byte>)
    ensures GetU32(Dec(s, None)) == (v, Dec(tail, None))
    ensures |s| == 4 + |tail|
  {
    var s := BE32(v) + tail;
    assert s[..4] == BE32(v) && s[4..] == tail;
    s
  }

  function PutU64(v: uint64, tail: seq<byte>): (s: seq<byte>)
    ensures GetU64(Dec(s, None)) == (v, Dec(tail, None))
    ensures |s| == 8 + |tail|
  {
    var s := BE64(v) + tail;
    assert s[..8] == BE64(v) && s[8..] == tail;
    s
  }

  function PutBool(v: bool, tail: seq<byte>): (s: seq<byte>)
    ensures GetBool(Dec(s, None)) == (v, Dec(tail, None)) && GetU32(Dec(s, None)).0 == (if v then 1 else 0)
    ensures |s| == 4 + |tail|
  {
    PutU32(if v then 1 else 0, tail)
  }

  function FixedBytes(p: seq<byte>): (s: seq<byte>)
    ensures |s| == |p| + Pad4(|p|) && s[..|p|] == p && forall i :: |p| <= i < |s| ==> s[i] == 0
  {
    p + Zeros(Pad4(|p|))
  }

  function PutFixed(p: seq<byte>, tail: seq<byte>): (s: seq<byte>)
    ensures GetFixed(Dec(s, None), |p|) == (p, Dec(tail, None))
    ensures |s| == |p| + Pad4(|p|) + |tail|
  {
    var s := FixedBytes(p) + tail;
    assert s[..|p|] == p;
    assert s[|p|..][Pad4(|p|)..] == tail;
    s
  }

  function PutOpaque(p: seq<byte>, tail: seq<byte>): (s: seq<byte>)
    requires |p| <= MAX_LEN
    ensures GetOpaque(Dec(s, None)) == (p, Dec(tail, None))
    ensures |s| == 4 + |p| + Pad4(|p|) + |tail|
  {
    PutU32(|p|, PutFixed(p, tail))
  }

  // ---- More input never changes a decode that already succeeded ----

  lemma TakeExt(d: Dec, n: nat, x: seq<byte>)
    requires Take(d, n).1.Good()
    ensures Take(Dec(d.rest + x, None), n) == (Take(d, n).0, Dec(Take(d, n).1.rest + x, None))
  {
    assert (d.rest + x)[..n] == d.rest[..n];
    assert (d.rest + x)[n..] == d.rest[n..] + x;
  }

  lemma U32Ext(d: Dec, x: seq<byte>)
    requires GetU32(d).1.Good()
    ensures GetU32(Dec(d.rest + x, None)) == (GetU32(d).0, Dec(GetU32(d).1.rest + x, None))
  {
    TakeExt(d, 4, x);
  }

  lemma U64Ext(d: Dec, x: seq<byte>)
    requires GetU64(d).1.Good()
    ensures GetU64(Dec(d.rest + x, None)) == (GetU64(d).0, Dec(GetU64(d).1.rest + x, None))
  {
    TakeExt(d, 8, x);
  }

  lemma FixedExt(d: Dec, n: nat, x: seq<byte>)
    requires GetFixed(d, n).1.Good()
    ensures GetFixed(Dec(d.rest + x, None), n) == (GetFixed(d, n).0, Dec(GetFixed(d, n).1.rest + x, None))
  {
    TakeExt(d, n, x);
    TakeExt(Take(d, n).1, Pad4(n), x);
  }

  lemma OpaqueExt(d: Dec, x: seq<byte>)
    requires GetOpaque(d).1.Good()
    ensures GetOpaque(Dec(d.rest + x, None)) == (GetOpaque(d).0, Dec(GetOpaque(d).1.rest + x, None))
  {
    U32Ext(d, x);
    FixedExt(GetU32(d).1, GetU32(d).0, x);
  }

  // ---- Sequences of typed values ----

  datatype Kind = KU32 | KI32 | KU64 | KI64 | KBool | KOpaque | KFixed(n: int)

  datatype Item =
    | U32(u: uint32) | I32(i: int32) | U64(w: uint64) | I64(j: int64)
    | Flag(b: bool) | Opaque(p: seq<byte>) | Fixed(q: seq<byte>)

  predicate Encodable(v: Item) { v.Opaque? ==> |v.p| <= MAX_LEN }

  function KindOf(v: Item): Kind {
    match v
    case U32(_) => KU32
    case I32(_) => KI32
    case U64(_) => KU64
    case I64(_) => KI64
    case Flag(_) => KBool
    case Opaque(_) => KOpaque
    case Fixed(q) => KFixed(|q|)
  }

  function ZeroOf(k: Kind): Item {
    match k
    case KU32 => U32(0)
    case KI32 => I32(0)
    case KU64 => U64(0)
    case KI64 => I64(0)
    case KBool => Flag(false)
    case KOpaque => Opaque([])
    case KFixed(_) => Fixed([])
  }

  function PutItem(v: Item, tail: seq<byte>): seq<byte>
    requires Encodable(v)
  {
    match v
    case U32(u) => PutU32(u, tail)
    case I32(i) => PutU32(FromInt32(i), tail)
    case U64(w) => PutU64(w, tail)
    case I64(j) => PutU64(FromInt64(j), tail)
    case Flag(b) => PutBool(b, tail)
    case Opaque(p) => PutOpaque(p, tail)
    case Fixed(q) => PutFixed(q, tail)
  }

  function GetItem(k: Kind, d: Dec): (Item, Dec) {
    match k
    case KU32 => var (v, e) := GetU32(d); (U32(v), e)
    case KI32 => var (v, e) := GetI32(d); (I32(v), e)
    case KU64 => var (v, e) := GetU64(d); (U64(v), e)
    case KI64 => var (v, e) := GetI64(d); (I64(v), e)
    case KBool => var (v, e) := GetBool(d); (Flag(v), e)
    case KOpaque => var (v, e) := GetOpaque(d); (Opaque(v), e)
    case KFixed(n) => var (v, e) := GetFixed(d, n); (Fixed(v), e)
  }

  lemma ItemRoundTrip(v: Item, tail: seq<byte>)
    requires Encodable(v)
    ensures GetItem(KindOf(v), Dec(PutItem(v, tail), None)) == (v, Dec(tail, None))
    ensures |PutItem(v, tail)| == UNIT * ItemUnits(v) + |tail|
  {
    hide BE32, FromBE32, GetU32, GetU64, GetOpaque, GetFixed, PutU32, PutU64, PutOpaque, PutFixed, Units;
    match v
    case Fixed(q) => assert GetFixed(Dec(PutFixed(q, tail), None), |q|) == (q, Dec(tail, None));
    case _ =>
  }

  function PutItems(vs: seq<Item>, tail: seq<byte>): seq<byte>
    requires forall v :: v in vs ==> Encodable(v)
  {
    if vs == [] then tail else PutItem(vs[0], PutItems(vs[1..], tail))
  }

  function GetItems(ks: seq<Kind>, d: Dec): (seq<Item>, Dec) {
    if ks == [] then ([], d)
    else
      var (v, e) := GetItem(ks[0], d);
      var (vs, f) := GetItems(ks[1..], e);
      ([v] + vs, f)
  }

  function Kinds(vs: seq<Item>): seq<Kind> {
    seq(|vs|, i requires 0 <= i < |vs| => KindOf(vs[i]))
  }

  lemma ConsRoundTrip(v: Item, vs: seq<Item>, t: seq<byte>, suffix: seq<byte>)
    requires Encodable(v)
    requires GetItems(Kinds(vs), Dec(t, None)) == (vs, Dec(suffix, None))
    ensures GetItems(Kinds([v] + vs), Dec(PutItem(v, t), None)) == ([v] + vs, Dec(suffix, None))
  {
    assert Kinds([v] + vs)[1..] == Kinds(vs);
    ItemRoundTrip(v, t);
  }

  /** Any values, then any suffix: decoding gives back the values and leaves the suffix. */
  lemma {:induction false} ItemsRoundTrip(vs: seq<Item>, suffix: seq<byte>)
    requires forall v :: v in vs ==> Encodable(v)
    ensures GetItems(Kinds(vs), Dec(PutItems(vs, suffix), None)) == (vs, Dec(suffix, None))
  {
    if vs != [] {
      var t := PutItems(vs[1..], suffix);
      ItemsRoundTrip(vs[1..], suffix);
      ConsRoundTrip(vs[0], vs[1..], t, suffix);
      assert [vs[0]] + vs[1..] == vs;
    }
  }

  function ItemUnits(v: Item): nat {
    match v
    case U32(_) => 1
    case I32(_) => 1
    case Flag(_) => 1
    case U64(_) => 2
    case I64(_) => 2
    case Opaque(p) => 1 + Units(|p|)
    case Fixed(q) => Units(|q|)
  }

  function TotalUnits(vs: seq<Item>): nat {
    if vs == [] then 0 else ItemUnits(vs[0]) + TotalUnits(vs[1..])
  }

  /** The values take a whole number of XDR units. */
  lemma {:induction false} ItemsAligned(vs: seq<Item>, suffix: seq<byte>)
    requires forall v :: v in vs ==> Encodable(v)
    ensures |PutItems(vs, suffix)| == UNIT * TotalUnits(vs) + |suffix|
  {
    if vs != [] {
      ItemsAligned(vs[1..], suffix);
      ItemRoundTrip(vs[0], PutItems(vs[1..], suffix));
    }
  }

  predicate NonNegative(k: Kind) { k.KFixed? ==> k.n >= 0 }

  /** Once a read has failed, every later decode yields zero values and keeps that first
      error, exactly when no later fixed size is negative (or the error is already the limit one). */
  lemma {:induction false} ErrorIsSticky(ks: seq<Kind>, d: Dec)
    requires !d.Good()
    ensures GetItems(ks, d).0 == seq(|ks|, i requires 0 <= i < |ks| => ZeroOf(ks[i]))
    ensures GetItems(ks, d).1.rest == d.rest
    ensures GetItems(ks, d).1 == d <==> (d.err == Some(LimitExceeded) || forall k :: k in ks ==> NonNegative(k))
  {
    if ks != [] {
      var e := GetItem(ks[0], d).1;
      ErrorIsSticky(ks[1..], e);
      assert ks == [ks[0]] + ks[1..];
      if NonNegative(ks[0]) {
        assert e == d;
      } else {
        assert e == d.(err := Some(LimitExceeded));
      }
    }
  }

  // ---- The decoder and encoder objects ----

  class Decoder {
    var rest: seq<byte>
    var err: Option<Fault>

    constructor (input: seq<byte>)
      ensures S() == Dec(input, None)
    {
      rest, err := input, None;
    }

    function S(): Dec
      reads this
    {
      Dec(rest, err)
    }

    method Read(n: nat) returns (p: seq<byte>)
      modifies this
      ensures (p, S()) == Take(old(S()), n)
    {
      p := [];
      if err.Some? { return; }
      if n <= |rest| {
        p, rest := rest[..n], rest[n..];
      } else {
        err := Some(if |rest| == 0 then Eof else UnexpectedEof);
        rest := [];
      }
    }

    method Discard(n: nat)
      modifies this
      ensures S() == Take(old(S()), n).1
    {
      if n == 0 || err.Some? { return; }
      var _ := Read(n);
    }

    method Uint32() returns (v: uint32)
      modifies this
      ensures (v, S()) == GetU32(old(S()))
    {
      var b := Read(4);
      if err.Some? { return 0; }
      v := FromBE32(b);
    }

    method Uint64() returns (v: uint64)
      modifies this
      ensures (v, S()) == GetU64(old(S()))
    {
      var b := Read(8);
      if err.Some? { return 0; }
      v := FromBE64(b);
    }

    method Int64() returns (v: int64)
      modifies this
      ensures (v, S()) == GetI64(old(S()))
    {
      var u := Uint64();
      v := ToInt64(u);
    }

    method Bool() returns (v: bool)
      modifies this
      ensures (v, S()) == GetBool(old(S()))
    {
      var u := Uint32();
      v := u != 0;
    }

    method Opaque() returns (p: seq<byte>)
      modifies this
      ensures (p, S()) == GetOpaque(old(S()))
    {
      var n := Uint32();
      if err.Some? { return []; }
      if n > MAX_LEN {
        err := Some(LimitExceeded);
        return [];
      }
      p := Read(n);
      if err.Some? { return []; }
      Discard(Pad4(n));
      if err.Some? { return []; }
    }

    method FixedOpaque(n: int) returns (p: seq<byte>)
      modifies this
      ensures (p, S()) == GetFixed(old(S()), n)
    {
      if n < 0 {
        err := Some(LimitExceeded);
        return [];
      }
      p := Read(n);
      if err.Some? { return []; }
      Discard(Pad4(n));
      if err.Some? { return []; }
    }
  }

  /** The encoder over a writer that accepts `room` more bytes and then fails. */
  class Encoder {
    var out: seq<byte>
    var room: nat
    var failed: bool

    constructor (room: nat)
      ensures out == [] && !failed && this.room == room
    {
      out, failed, this.room := [], false, room;
    }

    /** p was written: all of it, or as much as there was room for and a latched failure; after an
        earlier failure nothing. */
    twostate predicate Wrote(p: seq<byte>)
      reads this
    {
      && (old(failed) ==> failed && out == old(out) && room == old(room))
      && (!old(failed) ==>
            && failed == (|p| > old(room)) && out == old(out) + Fits(p, old(room))
            && room == old(room) - |Fits(p, old(room))|)
    }

    method Write(p: seq<byte>)
      modifies this
      ensures Wrote(p)
    {
      if failed { return; }
      failed := |p| > room;
      var n := Min(|p|, room);
      out, room := out + p[..n], room - n;
    }

    method Uint32(v: uint32)
      modifies this
      ensures Wrote(BE32(v))
    {
      Write(BE32(v));
    }

    method Uint64(v: uint64)
      modifies this
      ensures Wrote(BE64(v))
    {
      Write(BE64(v));
    }

    method FixedOpaque(p: seq<byte>)
      modifies this
      ensures Wrote(FixedBytes(p))
    {
      Write(p);
      FitsJoin(p, Zeros(Pad4(|p|)), old(room));
      if Pad4(|p|) != 0 { Write(Zeros(Pad4(|p|))); }
      assert Pad4(|p|) == 0 ==> p == FixedBytes(p);
    }

    method Opaque(p: seq<byte>)
      modifies this
      ensures Wrote(OpaqueBytes(p))
    {
      hide BE32, FromBE32, FixedBytes;
      Uint32(|p| % TWO32);
      FitsJoin(BE32(|p| % TWO32), FixedBytes(p), old(room));
      FixedOpaque(p);
    }
  }

  /** The length cut to 32 bits, the bytes, the padding. */
  function OpaqueBytes(p: seq<byte>): seq<byte> { BE32(|p| % TWO32) + FixedBytes(p) }

  lemma FitsJoin(p: seq<byte>, q: seq<byte>, room: nat)
    ensures Fits(p + q, room) == if |p| > room then Fits(p, room) else p + Fits(q, room - |p|)
  {}

  /** An opaque read back from what the encoder writes is the one written if and only if it is within
      64 MiB; the decoder refuses it or, past 4 GiB, may take its front for the whole. */
  lemma OpaqueReadBackIff(p: seq<byte>, tail: seq<byte>)
    ensures GetOpaque(Dec(OpaqueBytes(p) + tail, None)) == (p, Dec(tail, None)) <==> |p| <= 0x400_0000
  {
    hide BE32, FromBE32, GetU32, FixedBytes;
    var n := |p| % TWO32;
    assert OpaqueBytes(p) + tail == PutU32(n, FixedBytes(p) + tail);
    if |p| <= MAX_LEN {
      assert FixedBytes(p) + tail == PutFixed(p, tail);
      assert GetFixed(Dec(PutFixed(p, tail), None), |p|) == (p, Dec(tail, None));
    } else if n <= MAX_LEN {
      assert n < |p|;
    }
  }
}
