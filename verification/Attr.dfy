/** Attribute bitmaps and attribute values (RFC 7530 section 5). */
module Attr {
  import opened Machine
  import opened Xdr
  import opened Ops

  // ---- Bits of a word ----

  predicate Bit(w: nat, k: nat)
    decreases k
  {
    if k == 0 then w % 2 == 1 else Bit(w / 2, k - 1)
  }

  /** w | 1 << k */
  function SetBit(w: nat, k: nat): nat
    decreases k
  {
    if k == 0 then w / 2 * 2 + 1 else 2 * SetBit(w / 2, k - 1) + w % 2
  }

  lemma {:induction false} SetBitSets(w: nat, k: nat, j: nat)
    ensures Bit(SetBit(w, k), j) <==> j == k || Bit(w, j)
    decreases k
  {
    if k > 0 {
      assert SetBit(w, k) / 2 == SetBit(w / 2, k - 1) && SetBit(w, k) % 2 == w % 2;
      if j > 0 { SetBitSets(w / 2, k - 1, j - 1); }
    } else {
      assert SetBit(w, k) / 2 == w / 2;
    }
  }

  lemma {:induction false} SetBitBound(w: nat, k: nat, n: nat)
    requires w < Pow2(n) && k < n
    ensures SetBit(w, k) < Pow2(n)
    decreases k
  {
    var p := Pow2(n - 1);
    assert Pow2(n) == 2 * p && w / 2 < p;
    if k > 0 {
      SetBitBound(w / 2, k - 1, n - 1);
      var x := SetBit(w / 2, k - 1);
      assert x <= p - 1 && w % 2 <= 1;
    }
  }

  lemma Pow2Is32()
    ensures Pow2(32) == TWO32
  {
    assert Pow2(10) == 0x400;
    assert Pow2(20) == 0x10_0000;
    assert Pow2(30) == 0x4000_0000;
  }

  lemma {:induction false} ZeroBits(k: nat)
    ensures !Bit(0, k)
  {
    if k > 0 { ZeroBits(k - 1); }
  }

  // ---- Bitmaps ----

  type AttrNum = uint32

  const WORDS := 0x800_0000  // the words that 32-bit attribute numbers can name bits of

  predicate Has(b: Bitmap, a: nat) { a / 32 < |b| && Bit(b[a / 32], a % 32) }

  /** The bits below n that are set, in increasing order. */
  function SetBelow(b: Bitmap, n: nat): seq<nat> {
    if n == 0 then [] else SetBelow(b, n - 1) + if Has(b, n - 1) then [n - 1] else []
  }

  function Cut(s: seq<nat>): seq<AttrNum> { seq(|s|, i requires 0 <= i < |s| => s[i] % TWO32) }

  /** The listing: attribute numbers are bit positions cut to 32 bits. */
  function SetAttrs(b: Bitmap): seq<AttrNum> { Cut(SetBelow(b, 32 * |b|)) }

  predicate Increasing(s: seq<nat>) { forall i, j :: 0 <= i < j < |s| ==> s[i] < s[j] }

  lemma {:induction false} SetBelowSpec(b: Bitmap, n: nat)
    ensures Increasing(SetBelow(b, n))
    ensures forall a: nat :: a in SetBelow(b, n) <==> a < n && Has(b, a)
  {
    hide Has;
    if n > 0 {
      SetBelowSpec(b, n - 1);
      var s := SetBelow(b, n - 1);
      assert forall i :: 0 <= i < |s| ==> s[i] in s;
    }
  }

  /** Every attribute `Has` reports is listed. The listing is increasing and holds no other if and only if
      no bit past the 32-bit numbers is set. */
  lemma SetAttrsSpec(b: Bitmap)
    ensures forall a: AttrNum :: Has(b, a) ==> a in SetAttrs(b)
    ensures (Increasing(SetAttrs(b)) && forall a: AttrNum :: a in SetAttrs(b) ==> Has(b, a))
       <==> forall a: nat :: a >= TWO32 ==> !Has(b, a)
    ensures |b| <= WORDS ==> forall a: nat :: a >= TWO32 ==> !Has(b, a)
  {
    hide Has, SetBelow, Increasing, Cut;
    var s := SetBelow(b, 32 * |b|);
    SetBelowSpec(b, 32 * |b|);
    forall a: nat | Has(b, a) ensures a < 32 * |b| { BitInRange(b, a); }
    forall a: AttrNum | Has(b, a) ensures a in SetAttrs(b) { CutHolds(s, a); }
    CutFaithfulIff(s);
  }

  lemma BitInRange(b: Bitmap, a: nat)
    requires Has(b, a)
    ensures a < 32 * |b|
  {
    hide Bit;
  }

  lemma CutFaithfulIff(s: seq<nat>)
    requires Increasing(s)
    ensures (Increasing(Cut(s)) && forall a: AttrNum :: a in Cut(s) ==> a in s)
       <==> forall a: nat :: a in s ==> a < TWO32
  {
    hide Increasing;
    if forall a: nat :: a in s ==> a < TWO32 {
      assert forall i :: 0 <= i < |s| ==> s[i] in s;
      assert Cut(s) == s;
    } else {
      var a: nat :| a in s && a >= TWO32;
      CutHolds(s, a);
      if a % TWO32 in s { CutRepeats(s, a); }
    }
  }

  lemma CutHolds(s: seq<nat>, a: nat)
    requires a in s
    ensures a % TWO32 in Cut(s)
  {
    var i :| 0 <= i < |s| && s[i] == a;
    assert Cut(s)[i] == a % TWO32;
  }

  lemma CutRepeats(s: seq<nat>, a: nat)
    requires a in s && a >= TWO32 && a % TWO32 in s
    ensures !Increasing(Cut(s))
  {
    var i :| 0 <= i < |s| && s[i] == a;
    var j :| 0 <= j < |s| && s[j] == a % TWO32;
    assert Cut(s)[i] == Cut(s)[j] && i != j;
  }

  lemma ButLast(s: seq<nat>, s1: seq<nat>, m: nat)
    requires Increasing(s) && s == s1 + [m]
    ensures Increasing(s1)
    ensures forall a :: a in s ==> a <= m
    ensures forall a :: a in s1 <==> a in s && a != m
  {
    assert forall i :: 0 <= i < |s1| ==> s[i] == s1[i];
    assert s[|s1|] == m;
  }

  /** An increasing listing of a set is the only one. */
  lemma {:induction false} IncreasingUnique(s: seq<nat>, t: seq<nat>)
    requires Increasing(s) && Increasing(t) && forall a :: a in s <==> a in t
    ensures s == t
    decreases |s|
  {
    hide Increasing;
    assert t != [] ==> t[0] in t;
    if s != [] {
      var m, s1 := s[|s| - 1], s[..|s| - 1];
      assert m in s && m in t;
      var n, t1 := t[|t| - 1], t[..|t| - 1];
      assert n in t && n in s;
      assert s == s1 + [m] && t == t1 + [n];
      ButLast(s, s1, m);
      ButLast(t, t1, n);
      IncreasingUnique(s1, t1);
    }
  }

  method BitmapFor(attrs: seq<AttrNum>) returns (b: array<uint32>)
    ensures forall a: nat :: Has(b[..], a) <==> a in attrs
    ensures 1 <= b.Length <= WORDS && (attrs == [] ==> b.Length == 1)
    ensures attrs != [] ==> exists a :: a in attrs && a / 32 == b.Length - 1
    ensures forall a :: a in attrs ==> a / 32 < b.Length
  {
    hide Bit, SetBit;
    var max: AttrNum := 0;
    for i := 0 to |attrs|
      invariant forall j :: 0 <= j < i ==> attrs[j] <= max
      invariant max == 0 || max in attrs
    {
      if attrs[i] > max { max := attrs[i]; }
    }
    assert attrs != [] ==> attrs[0] in attrs && max in attrs;
    b := new uint32[max / 32 + 1](_ => 0);
    forall a: nat ensures !Has(b[..], a) { ZeroBits(a % 32); }
    for i := 0 to |attrs|
      invariant forall a: nat :: Has(b[..], a) <==> a in attrs[..i]
    {
      var n := attrs[i];
      ghost var before := b[..];
      WordBound(b[n / 32], n % 32);
      b[n / 32] := SetBit(b[n / 32], n % 32);
      assert b[..] == before[n / 32 := b[n / 32]];
      assert attrs[..i + 1] == attrs[..i] + [n];
      forall a: nat ensures Has(b[..], a) <==> a == n || Has(before, a) { SetOne(before, n, a); }
    }
    assert attrs[..|attrs|] == attrs;
  }

  lemma WordBound(w: uint32, k: nat)
    requires k < 32
    ensures SetBit(w, k) < TWO32
  {
    Pow2Is32();
    SetBitBound(w, k, 32);
  }

  lemma SetOne(b: Bitmap, n: nat, a: nat)
    requires n / 32 < |b| && SetBit(b[n / 32], n % 32) < TWO32
    ensures Has(b[n / 32 := SetBit(b[n / 32], n % 32)], a) <==> a == n || Has(b, a)
  {
    hide Bit, SetBit;
    SetBitSets(b[n / 32], n % 32, a % 32);
    assert a == n <==> a / 32 == n / 32 && a % 32 == n % 32;
  }

  method ListAttrs(b: Bitmap) returns (out: seq<AttrNum>)
    ensures out == SetAttrs(b)
  {
    hide Bit;
    out := [];
    for word := 0 to |b|
      invariant out == Cut(SetBelow(b, 32 * word))
    {
      for bit := 0 to 32
        invariant out == Cut(SetBelow(b, 32 * word + bit))
      {
        var n := 32 * word + bit;
        assert n / 32 == word && n % 32 == bit;
        if Bit(b[word], bit) { out := out + [n % TWO32]; }
      }
    }
  }

  /** Building a bitmap from a list and listing it again sorts the list and drops duplicates. */
  method SortedWithoutDuplicates(attrs: seq<AttrNum>, sorted: seq<AttrNum>) returns (out: seq<AttrNum>)
    requires Increasing(sorted) && forall a: AttrNum :: a in sorted <==> a in attrs
    ensures out == sorted
  {
    hide Has;
    var b := BitmapFor(attrs);
    out := ListAttrs(b[..]);
    SetAttrsSpec(b[..]);
    IncreasingUnique(out, sorted);
  }

  // ---- Attribute values ----

  const BILLION := 1_000_000_000

  /** Seconds and nanoseconds since the epoch, nanoseconds below one billion. */
  datatype Time = Time(secs: int, nsecs: nat)

  function Unix(secs: int64, nsecs: uint32): (t: Time)
    ensures t.nsecs < 1_000_000_000 && t.secs * 1_000_000_000 + t.nsecs == secs * 1_000_000_000 + nsecs
  {
    Time(secs + nsecs / BILLION, nsecs % BILLION)
  }

  datatype Attributes = Attributes(
    present: Bitmap, ftype: uint32, size: uint64, fsidMajor: uint64, fsidMinor: uint64, fileID: uint64,
    mode: uint32, numLinks: uint32, owner: seq<byte>, ownerGroup: seq<byte>, spec1: uint32, spec2: uint32,
    spaceUsed: uint64, accessed: Time, changed: Time, modified: Time)

  /** Go's zero time, midnight on 1 January of year 1. */
  const ZERO_TIME := Time(-62_135_596_800, 0)

  function Nothing(mask: Bitmap): Attributes {
    Attributes(mask, 0, 0, 0, 0, 0, 0, 0, [], [], 0, 0, 0, ZERO_TIME, ZERO_TIME, ZERO_TIME)
  }

  predicate Standard(n: nat) {
    n == 1 || n == 4 || n == 8 || n == 20 || n == 33 || n == 35 || n == 36 || n == 37
    || n == 41 || n == 45 || n == 47 || n == 52 || n == 53
  }

  function GetTime(d: Dec): (Time, Dec) {
    var (secs, e) := GetI64(d);
    var (nsecs, f) := GetU32(e);
    (if f.Good() then Unix(secs, nsecs) else ZERO_TIME, f)
  }

  /** Decodes attribute n into a. */
  function GetAttr(n: nat, a: Attributes, d: Dec): (Attributes, Dec)
    requires Standard(n)
  {
    if n == 1 then var (v, e) := GetU32(d); (a.(ftype := v), e)
    else if n == 4 then var (v, e) := GetU64(d); (a.(size := v), e)
    else if n == 8 then
      var (v, e) := GetU64(d);
      var (w, f) := GetU64(e);
      (a.(fsidMajor := v, fsidMinor := w), f)
    else if n == 20 then var (v, e) := GetU64(d); (a.(fileID := v), e)
    else if n == 33 then var (v, e) := GetU32(d); (a.(mode := v), e)
    else if n == 35 then var (v, e) := GetU32(d); (a.(numLinks := v), e)
    else if n == 36 then var (v, e) := GetOpaque(d); (a.(owner := v), e)
    else if n == 37 then var (v, e) := GetOpaque(d); (a.(ownerGroup := v), e)
    else if n == 41 then
      var (v, e) := GetU32(d);
      var (w, f) := GetU32(e);
      (a.(spec1 := v, spec2 := w), f)
    else if n == 45 then var (v, e) := GetU64(d); (a.(spaceUsed := v), e)
    else if n == 47 then var (v, e) := GetTime(d); (a.(accessed := v), e)
    else if n == 52 then var (v, e) := GetTime(d); (a.(changed := v), e)
    else var (v, e) := GetTime(d); (a.(modified := v), e)
  }

  datatype AttrError = Unsupported(n: nat) | Malformed(n: nat)

  function GetAttrs(ns: seq<nat>, a: Attributes, d: Dec): Result<Attributes, AttrError>
    decreases |ns|
  {
    if ns == [] then Ok(a)
    else if !Standard(ns[0]) then Err(Unsupported(ns[0]))
    else
      var (b, e) := GetAttr(ns[0], a, d);
      if !e.Good() then Err(Malformed(ns[0])) else GetAttrs(ns[1..], b, e)
  }

  function DecodeSpec(mask: Bitmap, vals: seq<byte>): Result<Attributes, AttrError> {
    GetAttrs(SetAttrs(mask), Nothing(mask), Dec(vals, None))
  }

  method DecodeTime(d: Decoder) returns (t: Time)
    modifies d
    ensures (t, d.S()) == GetTime(old(d.S()))
  {
    var secs := d.Int64();
    var nsecs := d.Uint32();
    if d.err.Some? { return ZERO_TIME; }
    t := Unix(secs, nsecs);
  }

  method DecodeAttr(n: nat, a: Attributes, d: Decoder) returns (b: Attributes)
    requires Standard(n)
    modifies d
    ensures (b, d.S()) == GetAttr(n, a, old(d.S()))
  {
    hide GetU32, GetU64, GetOpaque, GetTime;
    b := a;
    if n == 1 { var v := d.Uint32(); b := a.(ftype := v); }
    else if n == 4 { var v := d.Uint64(); b := a.(size := v); }
    else if n == 8 {
      var v := d.Uint64();
      var w := d.Uint64();
      b := a.(fsidMajor := v, fsidMinor := w);
    }
    else if n == 20 { var v := d.Uint64(); b := a.(fileID := v); }
    else if n == 33 { var v := d.Uint32(); b := a.(mode := v); }
    else if n == 35 { var v := d.Uint32(); b := a.(numLinks := v); }
    else if n == 36 { var v := d.Opaque(); b := a.(owner := v); }
    else if n == 37 { var v := d.Opaque(); b := a.(ownerGroup := v); }
    else if n == 41 {
      var v := d.Uint32();
      var w := d.Uint32();
      b := a.(spec1 := v, spec2 := w);
    }
    else if n == 45 { var v := d.Uint64(); b := a.(spaceUsed := v); }
    else if n == 47 { var v := DecodeTime(d); b := a.(accessed := v); }
    else if n == 52 { var v := DecodeTime(d); b := a.(changed := v); }
    else { var v := DecodeTime(d); b := a.(modified := v); }
  }

  method Decode(mask: Bitmap, vals: seq<byte>) returns (r: Result<Attributes, AttrError>)
    ensures r == DecodeSpec(mask, vals)
  {
    hide GetAttr;
    var a := Nothing(mask);
    var d := new Decoder(vals);
    var nums := ListAttrs(mask);
    for i := 0 to |nums|
      invariant DecodeSpec(mask, vals) == GetAttrs(nums[i..], a, d.S())
    {
      assert nums[i..][1..] == nums[i + 1..];
      if !Standard(nums[i]) { return Err(Unsupported(nums[i])); }
      a := DecodeAttr(nums[i], a, d);
      if d.err.Some? { return Err(Malformed(nums[i])); }
    }
    r := Ok(a);
  }

  // ---- What a server sends, and the round trip ----

  predicate TimeOk(t: Time) { -TWO63 <= t.secs < TWO63 && t.nsecs < BILLION }

  predicate AttributesOk(a: Attributes) {
    |a.owner| <= MAX_LEN && |a.ownerGroup| <= MAX_LEN && TimeOk(a.accessed) && TimeOk(a.changed) && TimeOk(a.modified)
  }

  function PutTime(t: Time, tail: seq<byte>): (s: seq<byte>)
    requires TimeOk(t)
    ensures GetTime(Dec(s, None)) == (t, Dec(tail, None))
  {
    PutU64(FromInt64(t.secs), PutU32(t.nsecs, tail))
  }

  function PutAttr(n: nat, a: Attributes, tail: seq<byte>): seq<byte>
    requires Standard(n) && AttributesOk(a)
  {
    if n == 1 then PutU32(a.ftype, tail)
    else if n == 4 then PutU64(a.size, tail)
    else if n == 8 then PutU64(a.fsidMajor, PutU64(a.fsidMinor, tail))
    else if n == 20 then PutU64(a.fileID, tail)
    else if n == 33 then PutU32(a.mode, tail)
    else if n == 35 then PutU32(a.numLinks, tail)
    else if n == 36 then PutOpaque(a.owner, tail)
    else if n == 37 then PutOpaque(a.ownerGroup, tail)
    else if n == 41 then PutU32(a.spec1, PutU32(a.spec2, tail))
    else if n == 45 then PutU64(a.spaceUsed, tail)
    else if n == 47 then PutTime(a.accessed, tail)
    else if n == 52 then PutTime(a.changed, tail)
    else PutTime(a.modified, tail)
  }

  function PutAttrs(ns: seq<nat>, a: Attributes, tail: seq<byte>): seq<byte>
    requires AttributesOk(a) && forall n :: n in ns ==> Standard(n)
  {
    if ns == [] then tail else PutAttr(ns[0], a, PutAttrs(ns[1..], a, tail))
  }

  /** b with the attributes in ns taken from a. */
  function Override(ns: seq<nat>, a: Attributes, b: Attributes): Attributes {
    Attributes(b.present,
      if 1 in ns then a.ftype else b.ftype, if 4 in ns then a.size else b.size,
      if 8 in ns then a.fsidMajor else b.fsidMajor, if 8 in ns then a.fsidMinor else b.fsidMinor,
      if 20 in ns then a.fileID else b.fileID, if 33 in ns then a.mode else b.mode,
      if 35 in ns then a.numLinks else b.numLinks, if 36 in ns then a.owner else b.owner,
      if 37 in ns then a.ownerGroup else b.ownerGroup, if 41 in ns then a.spec1 else b.spec1,
      if 41 in ns then a.spec2 else b.spec2, if 45 in ns then a.spaceUsed else b.spaceUsed,
      if 47 in ns then a.accessed else b.accessed, if 52 in ns then a.changed else b.changed,
      if 53 in ns then a.modified else b.modified)
  }

  lemma AttrRoundTrip(n: nat, a: Attributes, b: Attributes, tail: seq<byte>)
    requires Standard(n) && AttributesOk(a)
    ensures GetAttr(n, b, Dec(PutAttr(n, a, tail), None)) == (Override([n], a, b), Dec(tail, None))
  {
    hide GetU32, PutU32, GetU64, PutU64, GetOpaque, PutOpaque, GetTime, PutTime;
  }

  lemma OverrideCons(n: nat, ns: seq<nat>, a: Attributes, b: Attributes)
    ensures Override(ns, a, Override([n], a, b)) == Override([n] + ns, a, b)
  {}

  lemma {:induction false} AttrsRoundTrip(ns: seq<nat>, a: Attributes, b: Attributes, tail: seq<byte>)
    requires AttributesOk(a) && forall n :: n in ns ==> Standard(n)
    ensures GetAttrs(ns, b, Dec(PutAttrs(ns, a, tail), None)) == Ok(Override(ns, a, b))
    decreases |ns|
  {
    hide GetAttr, PutAttr, Override, Standard, AttributesOk;
    if ns != [] {
      AttrRoundTrip(ns[0], a, b, PutAttrs(ns[1..], a, tail));
      AttrsRoundTrip(ns[1..], a, Override([ns[0]], a, b), tail);
      OverrideCons(ns[0], ns[1..], a, b);
      assert [ns[0]] + ns[1..] == ns;
    } else {
      NoOverride(a, b);
    }
  }

  lemma NoOverride(a: Attributes, b: Attributes)
    ensures Override([], a, b) == b
  {}

  /** For any mask within the standard set, decoding the values a server lays down in listing order
      gives back exactly the masked attributes, whatever bytes follow. */
  lemma DecodeInverts(mask: Bitmap, a: Attributes, tail: seq<byte>)
    requires AttributesOk(a)
    requires forall n :: n in SetAttrs(mask) ==> n in {1, 4, 8, 20, 33, 35, 36, 37, 41, 45, 47, 52, 53}
    ensures DecodeSpec(mask, PutAttrs(SetAttrs(mask), a, tail)) == Ok(Override(SetAttrs(mask), a, Nothing(mask)))
  {
    AttrsRoundTrip(SetAttrs(mask), a, Nothing(mask), tail);
  }

  /** b is a with at most the attributes in ns changed. */
  predicate OnlyThese(ns: seq<nat>, a: Attributes, b: Attributes) {
    && b.present == a.present
    && (1 !in ns ==> b.ftype == a.ftype) && (4 !in ns ==> b.size == a.size)
    && (8 !in ns ==> b.fsidMajor == a.fsidMajor && b.fsidMinor == a.fsidMinor) && (20 !in ns ==> b.fileID == a.fileID)
    && (33 !in ns ==> b.mode == a.mode) && (35 !in ns ==> b.numLinks == a.numLinks)
    && (36 !in ns ==> b.owner == a.owner) && (37 !in ns ==> b.ownerGroup == a.ownerGroup)
    && (41 !in ns ==> b.spec1 == a.spec1 && b.spec2 == a.spec2) && (45 !in ns ==> b.spaceUsed == a.spaceUsed)
    && (47 !in ns ==> b.accessed == a.accessed) && (52 !in ns ==> b.changed == a.changed)
    && (53 !in ns ==> b.modified == a.modified)
  }

  lemma {:induction false} DecodesOnly(ns: seq<nat>, a: Attributes, d: Dec)
    ensures var r := GetAttrs(ns, a, d);
      r.Ok? ==>
        && OnlyThese(ns, a, r.value)
        && forall n :: n in ns ==> n in {1, 4, 8, 20, 33, 35, 36, 37, 41, 45, 47, 52, 53}
    decreases |ns|
  {
    hide GetAttr, OnlyThese, Standard;
    if ns == [] {
      NoneTouched(a);
    } else if Standard(ns[0]) {
      var (b, e) := GetAttr(ns[0], a, d);
      DecodesOne(ns[0], a, d);
      DecodesOnly(ns[1..], b, e);
      assert ns == [ns[0]] + ns[1..];
      if GetAttrs(ns[1..], b, e).Ok? { TouchedJoin(ns[0], ns[1..], a, b, GetAttrs(ns[1..], b, e).value); }
    }
  }

  lemma NoneTouched(a: Attributes)
    ensures OnlyThese([], a, a)
  {}

  lemma DecodesOne(n: nat, a: Attributes, d: Dec)
    requires Standard(n)
    ensures OnlyThese([n], a, GetAttr(n, a, d).0) && n in {1, 4, 8, 20, 33, 35, 36, 37, 41, 45, 47, 52, 53}
  {
    hide GetU32, GetU64, GetOpaque, GetTime;
  }

  lemma TouchedJoin(n: nat, ns: seq<nat>, a: Attributes, b: Attributes, c: Attributes)
    requires OnlyThese([n], a, b) && OnlyThese(ns, b, c)
    ensures OnlyThese([n] + ns, a, c)
  {}

  /** Whatever the values: what decodes records its mask, has only attributes of the standard set, and leaves
      every attribute the mask does not list at its zero value. */
  lemma AbsentAreZero(mask: Bitmap, vals: seq<byte>)
    requires DecodeSpec(mask, vals).Ok?
    ensures var (a, ns) := (DecodeSpec(mask, vals).value, SetAttrs(mask));
      var zero := Time(-62135596800, 0);
      && a.present == mask && (forall n :: n in ns ==> n in {1, 4, 8, 20, 33, 35, 36, 37, 41, 45, 47, 52, 53})
      && (1 !in ns ==> a.ftype == 0) && (4 !in ns ==> a.size == 0)
      && (8 !in ns ==> a.fsidMajor == 0 && a.fsidMinor == 0) && (20 !in ns ==> a.fileID == 0)
      && (33 !in ns ==> a.mode == 0) && (35 !in ns ==> a.numLinks == 0)
      && (36 !in ns ==> a.owner == []) && (37 !in ns ==> a.ownerGroup == [])
      && (41 !in ns ==> a.spec1 == 0 && a.spec2 == 0) && (45 !in ns ==> a.spaceUsed == 0)
      && (47 !in ns ==> a.accessed == zero) && (52 !in ns ==> a.changed == zero) && (53 !in ns ==> a.modified == zero)
  {
    hide GetAttrs, SetAttrs;
    DecodesOnly(SetAttrs(mask), Nothing(mask), Dec(vals, None));
  }

  lemma {:induction false} UnsupportedStops(ns: seq<nat>, a: Attributes, d: Dec)
    requires exists n :: n in ns && !Standard(n)
    ensures GetAttrs(ns, a, d).Err?
    decreases |ns|
  {
    hide GetAttr, Standard;
    if Standard(ns[0]) && GetAttr(ns[0], a, d).1.Good() {
      var n :| n in ns && !Standard(n);
      assert n in ns[1..];
      UnsupportedStops(ns[1..], GetAttr(ns[0], a, d).0, GetAttr(ns[0], a, d).1);
    }
  }

  /** A mask with any attribute outside the standard set is refused whatever the values are. */
  lemma UnsupportedRefused(mask: Bitmap, vals: seq<byte>, n: AttrNum)
    requires Has(mask, n) && n !in {1, 4, 8, 20, 33, 35, 36, 37, 41, 45, 47, 52, 53}
    ensures DecodeSpec(mask, vals).Err?
  {
    hide Has;
    SetAttrsSpec(mask);
    assert n in SetAttrs(mask);
    UnsupportedStops(SetAttrs(mask), Nothing(mask), Dec(vals, None));
  }

  // ---- Settable attributes ----

  datatype Settable = Settable(mode: Option<uint32>, size: Option<uint64>, accessed: Option<Time>,
                               modified: Option<Time>)

  predicate SettableOk(s: Settable) {
    (s.accessed.Some? ==> TimeOk(s.accessed.value)) && (s.modified.Some? ==> TimeOk(s.modified.value))
  }

  function SettableNums(s: Settable): seq<AttrNum> {
    (if s.size.Some? then [4] else []) + (if s.mode.Some? then [33] else [])
    + (if s.accessed.Some? then [47] else []) + (if s.modified.Some? then [53] else [])
  }

  /** A settime4: the "client time" discriminant before the time. */
  function SettimeBytes(t: Time): (b: seq<byte>)
    requires TimeOk(t)
    ensures |b| == 16
  {
    BE32(1) + BE64(FromInt64(t.secs)) + BE32(t.nsecs)
  }

  function FattrVals(s: Settable): seq<byte>
    requires SettableOk(s)
  {
    (if s.size.Some? then BE64(s.size.value) else []) + (if s.mode.Some? then BE32(s.mode.value) else [])
    + (if s.accessed.Some? then SettimeBytes(s.accessed.value) else [])
    + (if s.modified.Some? then SettimeBytes(s.modified.value) else [])
  }

  lemma SettableNumsIncrease(s: Settable)
    ensures Increasing(SettableNums(s))
  {}

  lemma MaskWords(s: Settable, words: nat)
    requires var nums := SettableNums(s);
      && (nums == [] ==> words == 1) && (nums != [] ==> exists a :: a in nums && a / 32 == words - 1)
      && (forall a :: a in nums ==> a / 32 < words)
    ensures words == if s.mode.None? && s.accessed.None? && s.modified.None? then 1 else 2
  {
    var nums := SettableNums(s);
    assert forall a :: a in nums ==> a == 4 || a == 33 || a == 47 || a == 53;
    assert s.mode.Some? ==> 33 in nums;
    assert s.accessed.Some? ==> 47 in nums;
    assert s.modified.Some? ==> 53 in nums;
  }

  method EncodeFattr(s: Settable) returns (mask: Bitmap, vals: seq<byte>)
    requires SettableOk(s)
    ensures SetAttrs(mask) == SettableNums(s) && vals == FattrVals(s)
    ensures |mask| == if s.mode.None? && s.accessed.None? && s.modified.None? then 1 else 2
  {
    hide Has, BE32, FromBE32, BE64, SetAttrs, Increasing, SettimeBytes;
    var nums: seq<AttrNum> := [];
    if s.size.Some? { nums := nums + [4]; }
    if s.mode.Some? { nums := nums + [33]; }
    if s.accessed.Some? { nums := nums + [47]; }
    if s.modified.Some? { nums := nums + [53]; }
    assert nums == SettableNums(s);
    var b := BitmapFor(nums);
    mask := b[..];
    assert SetAttrs(mask) == nums by {
      SetAttrsSpec(mask);
      SettableNumsIncrease(s);
      IncreasingUnique(SetAttrs(mask), nums);
    }
    MaskWords(s, |mask|);
    vals := EncodeValues(s);
  }

  method EncodeValues(s: Settable) returns (vals: seq<byte>)
    requires SettableOk(s)
    ensures vals == FattrVals(s)
  {
    hide BE32, FromBE32, BE64, SettimeBytes;
    var e := new Encoder(64);
    if s.size.Some? { e.Uint64(s.size.value); }
    if s.mode.Some? { e.Uint32(s.mode.value); }
    if s.accessed.Some? { EncodeSettime(e, s.accessed.value); }
    if s.modified.Some? { EncodeSettime(e, s.modified.value); }
    vals := e.out;
  }

  method EncodeSettime(e: Encoder, t: Time)
    requires TimeOk(t) && !e.failed && e.room >= 16
    modifies e
    ensures !e.failed && e.room == old(e.room) - 16 && e.out == old(e.out) + SettimeBytes(t)
  {
    hide BE32, FromBE32, BE64;
    e.Uint32(1);
    e.Uint64(FromInt64(t.secs));
    e.Uint32(t.nsecs);
  }

  function TimeNums(s: Settable): seq<nat> {
    (if s.accessed.Some? then [47] else []) + (if s.modified.Some? then [53] else [])
  }

  function TimeVals(s: Settable): seq<byte>
    requires SettableOk(s)
  {
    (if s.accessed.Some? then SettimeBytes(s.accessed.value) else [])
    + (if s.modified.Some? then SettimeBytes(s.modified.value) else [])
  }

  lemma GetAttrsStep(n: nat, ns: seq<nat>, a: Attributes, d: Dec)
    requires Standard(n) && GetAttr(n, a, d).1.Good()
    ensures GetAttrs([n] + ns, a, d) == GetAttrs(ns, GetAttr(n, a, d).0, GetAttr(n, a, d).1)
  {
    hide GetAttr;
    assert ([n] + ns)[1..] == ns;
  }

  /** What the decoder makes of a settable time: it takes the discriminant for the high half of the
      seconds and the low half for the nanoseconds, and leaves the nanoseconds behind. */
  function Misread(t: Time): Time
    requires TimeOk(t)
  {
    var u := FromInt64(t.secs); Unix(TWO32 + u / TWO32, u % TWO32)
  }

  /** A modify time behind an access time is read from the access time's nanoseconds on. */
  function MisreadAfter(a: Time, t: Time): Time
    requires TimeOk(a) && TimeOk(t)
  {
    Unix(a.nsecs * TWO32 + 1, FromInt64(t.secs) / TWO32)
  }

  lemma SettimeMisread(t: Time, tail: seq<byte>)
    requires TimeOk(t)
    ensures GetTime(Dec(SettimeBytes(t) + tail, None)) == (Misread(t), Dec(BE32(t.nsecs) + tail, None))
  {
    hide BE32, FromBE32, GetU32, GetU64;
    var u := FromInt64(t.secs);
    var hi, lo: uint32 := u / TWO32, u % TWO32;
    var w: uint64 := TWO32 + hi;
    assert w / TWO32 == 1 && w % TWO32 == hi;
    var rest := BE32(t.nsecs) + tail;
    assert SettimeBytes(t) + tail == PutU64(w, PutU32(lo, rest));
  }

  lemma SettimeMisreadAfter(a: Time, t: Time)
    requires TimeOk(a) && TimeOk(t)
    ensures GetTime(Dec(BE32(a.nsecs) + SettimeBytes(t), None)).0 == MisreadAfter(a, t)
    ensures GetTime(Dec(BE32(a.nsecs) + SettimeBytes(t), None)).1.Good()
  {
    hide BE32, FromBE32, GetU32, GetU64;
    var u := FromInt64(t.secs);
    var hi, lo: uint32 := u / TWO32, u % TWO32;
    var w: uint64 := a.nsecs * TWO32 + 1;
    assert w / TWO32 == a.nsecs && w % TWO32 == 1;
    var rest := BE32(lo) + BE32(t.nsecs);
    assert BE32(a.nsecs) + SettimeBytes(t) == PutU64(w, PutU32(hi, rest));
  }

  function AccessedAs(s: Settable, old_: Time): Time
    requires SettableOk(s)
  {
    if s.accessed.Some? then Misread(s.accessed.value) else old_
  }

  function ModifiedAs(s: Settable, old_: Time): Time
    requires SettableOk(s)
  {
    if s.modified.None? then old_
    else if s.accessed.Some? then MisreadAfter(s.accessed.value, s.modified.value)
    else Misread(s.modified.value)
  }

  lemma TimesDecode(s: Settable, a: Attributes)
    requires SettableOk(s)
    ensures GetAttrs(TimeNums(s), a, Dec(TimeVals(s), None))
         == Ok(a.(accessed := AccessedAs(s, a.accessed), modified := ModifiedAs(s, a.modified)))
  {
    hide BE32, FromBE32, SettimeBytes, GetTime, Misread, MisreadAfter, Unix;
    var more: seq<nat> := if s.modified.Some? then [53] else [];
    if s.accessed.Some? {
      var t, tail := s.accessed.value, if s.modified.Some? then SettimeBytes(s.modified.value) else [];
      SettimeMisread(t, tail);
      GetAttrsStep(47, more, a, Dec(SettimeBytes(t) + tail, None));
      if s.modified.Some? {
        SettimeMisreadAfter(t, s.modified.value);
        GetAttrsStep(53, [], a.(accessed := Misread(t)), Dec(BE32(t.nsecs) + tail, None));
        assert [53] + [] == more;
      }
    } else if s.modified.Some? {
      var t := s.modified.value;
      SettimeMisread(t, []);
      assert SettimeBytes(t) + [] == TimeVals(s) && [53] + [] == TimeNums(s);
      GetAttrsStep(53, [], a, Dec(TimeVals(s), None));
    }
  }

  lemma ModeAndTimes(s: Settable, a: Attributes)
    requires SettableOk(s)
    ensures var ns := (if s.mode.Some? then [33] else []) + TimeNums(s);
      var vals := (if s.mode.Some? then BE32(s.mode.value) else []) + TimeVals(s);
      GetAttrs(ns, a, Dec(vals, None))
        == Ok(a.(mode := if s.mode.Some? then s.mode.value else a.mode,
                 accessed := AccessedAs(s, a.accessed), modified := ModifiedAs(s, a.modified)))
  {
    hide BE32, FromBE32, SettimeBytes, GetAttrs, GetU32, AccessedAs, ModifiedAs;
    var ns: seq<nat>, vals := TimeNums(s), TimeVals(s);
    if s.mode.Some? {
      assert BE32(s.mode.value) + vals == PutU32(s.mode.value, vals);
      GetAttrsStep(33, ns, a, Dec(PutU32(s.mode.value, vals), None));
      TimesDecode(s, a.(mode := s.mode.value));
    } else {
      assert [] + ns == ns && [] + vals == vals;
      TimesDecode(s, a);
    }
  }

  /** For every choice of settable attributes: size and mode survive encoding and decoding, what was not
      set is left at its zero value, and a set time decodes to its misreading. */
  lemma FattrRecovers(s: Settable, mask: Bitmap)
    requires SettableOk(s) && SetAttrs(mask) == SettableNums(s)
    ensures DecodeSpec(mask, FattrVals(s))
         == Ok(Nothing(mask).(size := if s.size.Some? then s.size.value else 0,
                              mode := if s.mode.Some? then s.mode.value else 0,
                              accessed := AccessedAs(s, ZERO_TIME), modified := ModifiedAs(s, ZERO_TIME)))
  {
    hide BE32, FromBE32, BE64, FromBE64, SettimeBytes, GetAttrs, GetU64, SetAttrs, AccessedAs, ModifiedAs;
    var ns: seq<nat> := (if s.mode.Some? then [33] else []) + TimeNums(s);
    var vals := (if s.mode.Some? then BE32(s.mode.value) else []) + TimeVals(s);
    if s.size.Some? {
      assert SettableNums(s) == [4] + ns;
      assert FattrVals(s) == PutU64(s.size.value, vals);
      GetAttrsStep(4, ns, Nothing(mask), Dec(FattrVals(s), None));
      ModeAndTimes(s, Nothing(mask).(size := s.size.value));
    } else {
      assert SettableNums(s) == ns && FattrVals(s) == vals;
      ModeAndTimes(s, Nothing(mask));
    }
  }

  /** So whatever else is set, a set time is recovered for one value only: an access time, or a modify time
      alone, 1 s and 1 ns past 2^32 s; a modify time set with an access time, the one its nanoseconds fix. */
  lemma SettimeRecoveredIff(s: Settable, mask: Bitmap)
    requires SettableOk(s) && SetAttrs(mask) == SettableNums(s)
    ensures var r := DecodeSpec(mask, FattrVals(s));
      && r.Ok?
      && (s.accessed.Some? ==> (r.value.accessed == s.accessed.value <==> s.accessed.value == Time(TWO32 + 1, 1)))
      && (s.modified.Some? ==>
            (r.value.modified == s.modified.value <==>
               s.modified.value == if s.accessed.None? then Time(TWO32 + 1, 1)
                                   else Time(s.accessed.value.nsecs * TWO32 + 1, s.accessed.value.nsecs)))
  {
    hide DecodeSpec, FattrVals, Misread, MisreadAfter;
    FattrRecovers(s, mask);
    if s.accessed.Some? { MisreadFixpoint(s.accessed.value); }
    if s.modified.Some? {
      MisreadFixpoint(s.modified.value);
      if s.accessed.Some? { MisreadAfterFixpoint(s.accessed.value, s.modified.value); }
    }
  }

  lemma MisreadFixpoint(t: Time)
    requires TimeOk(t)
    ensures Misread(t) == t <==> t == Time(TWO32 + 1, 1)
  {
    var u: int := FromInt64(t.secs);
    var hi, lo := u / TWO32, u % TWO32;
    assert u == hi * TWO32 + lo;
    assert 0 <= lo / BILLION <= 4;
    if Unix(TWO32 + hi, lo) == t {
      assert hi * TWO32 + lo == TWO32 + hi + lo / BILLION;
      assert hi == 1;
    }
  }

  lemma MisreadAfterFixpoint(a: Time, t: Time)
    requires TimeOk(a) && TimeOk(t)
    ensures MisreadAfter(a, t) == t <==> t == Time(a.nsecs * TWO32 + 1, a.nsecs)
  {
    var u: int := FromInt64(t.secs);
    var hi, lo := u / TWO32, u % TWO32;
    assert u == hi * TWO32 + lo;
    assert 0 <= hi / BILLION <= 4;
    if MisreadAfter(a, t) == t {
      assert t.secs == u;
      assert hi * TWO32 + lo == a.nsecs * TWO32 + (1 + hi / BILLION);
      assert hi == a.nsecs;
    }
  }
}
