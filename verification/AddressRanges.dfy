/**
 * Turning an address range into CIDR prefixes (`acl.go`). The greedy loop is
 * specified on blocks of any bit width; the method at the end works on the 32-
 * and 128-bit addresses and the byte arrays of the source.
 */
module AddressRanges {
  import opened Addresses
  import opened Bits
  import opened Bytes

  /** The `Pow2(h)` addresses from `start` on. */
  datatype Block = Block(start: nat, h: nat) {
    function Last(): nat {
      start + Pow2(h) - 1
    }

    predicate Aligned() {
      Mask(start, h) == start
    }

    predicate Holds(x: nat) {
      start <= x <= Last()
    }
  }

  predicate Fits(start: nat, end: nat, h: nat) {
    Block(start, h).Aligned() && Block(start, h).Last() <= end
  }

  lemma FitsSmaller(start: nat, end: nat, k: nat, h: nat)
    requires k <= h && Fits(start, end, h)
    ensures Fits(start, end, k)
  {
    hide Mask;
    MaskNested(start, k, h);
    Pow2Monotone(k, h);
  }

  /** The inner loop: grow the block at `start` one bit at a time while it stays aligned and inside. */
  function Widest(w: nat, start: nat, end: nat, h: nat): (r: nat)
    requires h <= w && Fits(start, end, h)
    ensures h <= r <= w && Fits(start, end, r)
    ensures r < w ==> !Fits(start, end, r + 1)
    decreases w - h
  {
    if h < w && Fits(start, end, h + 1) then Widest(w, start, end, h + 1) else h
  }

  lemma WidestIsMaximal(w: nat, start: nat, end: nat, k: nat)
    requires start <= end && k <= w && Fits(start, end, k)
    ensures k <= Widest(w, start, end, 0)
  {
    hide Mask;
    var r := Widest(w, start, end, 0);
    if r < k {
      FitsSmaller(start, end, r + 1, k);
    }
  }

  /** The outer loop: the widest block at `start`, then the rest of the range. */
  function Cover(w: nat, start: nat, end: nat): (bs: seq<Block>)
    requires start <= end
    ensures |bs| > 0
    decreases end - start
  {
    var b := Block(start, Widest(w, start, end, 0));
    [b] + if b.Last() == end then [] else Cover(w, b.Last() + 1, end)
  }

  ghost predicate Held(bs: seq<Block>, x: nat) {
    exists i :: 0 <= i < |bs| && bs[i].Holds(x)
  }

  /** Aligned blocks of width `w` whose union is exactly `[start, end]`. */
  ghost predicate Covers(w: nat, bs: seq<Block>, start: nat, end: nat) {
    && (forall i :: 0 <= i < |bs| ==> bs[i].Aligned() && bs[i].h <= w)
    && (forall x: nat :: Held(bs, x) <==> start <= x <= end)
  }

  ghost predicate Ascending(bs: seq<Block>) {
    forall i, j :: 0 <= i < j < |bs| ==> bs[i].Last() < bs[j].start
  }

  lemma {:induction false} CoverIsExact(w: nat, start: nat, end: nat)
    requires start <= end
    ensures Covers(w, Cover(w, start, end), start, end)
    ensures Ascending(Cover(w, start, end))
    decreases end - start
  {
    hide Mask;
    var bs := Cover(w, start, end);
    var b := bs[0];
    if b.Last() == end {
      assert bs == [b];
      forall x: nat | start <= x <= end ensures Held(bs, x) {
        assert bs[0].Holds(x);
      }
    } else {
      var rest := Cover(w, b.Last() + 1, end);
      CoverIsExact(w, b.Last() + 1, end);
      assert bs == [b] + rest;
      forall x: nat ensures Held(bs, x) <==> start <= x <= end {
        HoldsCons(b, rest, x);
        assert b.Holds(x) <==> start <= x <= b.Last();
      }
      forall j | 1 <= j < |bs| ensures b.Last() < bs[j].start {
        assert rest[j - 1].Holds(bs[j].start);
        assert Held(rest, bs[j].start);
      }
    }
  }

  lemma HoldsCons(b: Block, rest: seq<Block>, x: nat)
    ensures Held([b] + rest, x) <==> b.Holds(x) || Held(rest, x)
  {
    var bs := [b] + rest;
    if b.Holds(x) {
      assert bs[0].Holds(x);
    }
    if i :| 0 <= i < |rest| && rest[i].Holds(x) {
      assert bs[i + 1].Holds(x);
    }
    if i :| 0 <= i < |bs| && bs[i].Holds(x) && i > 0 {
      assert rest[i - 1].Holds(x);
    }
  }

  // ----- Minimality: no cover of the range is shorter -----

  /** The blocks of `qs` that start after `x`. */
  function Beyond(qs: seq<Block>, x: nat): (r: seq<Block>)
    ensures |r| <= |qs|
    ensures forall b :: b in r <==> b in qs && x < b.start
    ensures (exists b :: b in qs && b.start <= x) ==> |r| < |qs|
  {
    if qs == [] then []
    else
      var tail := Beyond(qs[1..], x);
      if x < qs[0].start then [qs[0]] + tail else tail
  }

  /** A block of any cover lies inside the greedy block at `start`, or after it. */
  lemma GreedyAbsorbs(w: nat, start: nat, end: nat, q: Block)
    requires start <= end
    requires q.Aligned() && q.h <= w && start <= q.start && q.Last() <= end
    ensures var b := Cover(w, start, end)[0];
            q.Last() <= b.Last() || b.Last() < q.start
  {
    hide Mask;
    var b := Cover(w, start, end)[0];
    if q.start <= b.Last() {
      MaskUnique(start, q.start, b.h);
      if q.h <= b.h {
        MaskUnique(q.start, q.Last(), q.h);
        MaskNested(q.Last(), q.h, b.h);
      } else {
        MaskNested(q.start, b.h, q.h);
        WidestIsMaximal(w, start, end, q.h);
        assert false;
      }
    }
  }

  lemma CoverElement(w: nat, qs: seq<Block>, start: nat, end: nat, q: Block)
    requires Covers(w, qs, start, end) && q in qs
    ensures q.Aligned() && q.h <= w && start <= q.start && q.Last() <= end
  {
    var i :| 0 <= i < |qs| && qs[i] == q;
    assert qs[i].Holds(q.start) && qs[i].Holds(q.Last());
    assert Held(qs, q.start) && Held(qs, q.Last());
  }

  lemma BeyondCovers(w: nat, start: nat, end: nat, qs: seq<Block>)
    requires start <= end && Covers(w, qs, start, end)
    requires Cover(w, start, end)[0].Last() < end
    ensures var last := Cover(w, start, end)[0].Last();
            Covers(w, Beyond(qs, last), last + 1, end)
  {
    hide Mask, Widest;
    var last := Cover(w, start, end)[0].Last();
    var rest := Beyond(qs, last);
    forall i | 0 <= i < |rest|
      ensures rest[i].Aligned() && rest[i].h <= w && rest[i].Last() <= end && last < rest[i].start
    {
      assert rest[i] in rest;
      CoverElement(w, qs, start, end, rest[i]);
    }
    forall x: nat ensures Held(rest, x) <==> last + 1 <= x <= end {
      if last + 1 <= x <= end {
        assert Held(qs, x);
        var i :| 0 <= i < |qs| && qs[i].Holds(x);
        CoverElement(w, qs, start, end, qs[i]);
        GreedyAbsorbs(w, start, end, qs[i]);
        assert qs[i] in rest;
      }
    }
  }

  lemma {:induction false} CoverIsMinimal(w: nat, start: nat, end: nat, qs: seq<Block>)
    requires start <= end && Covers(w, qs, start, end)
    ensures |Cover(w, start, end)| <= |qs|
    decreases end - start
  {
    hide Mask, Widest;
    assert Held(qs, start);
    var i :| 0 <= i < |qs| && qs[i].Holds(start);
    var last := Cover(w, start, end)[0].Last();
    if last < end {
      BeyondCovers(w, start, end, qs);
      CoverIsMinimal(w, last + 1, end, Beyond(qs, last));
      assert qs[i] in qs && qs[i].start <= last;
    }
  }

  // ----- The bound 2w - 2 -----

  /** Once the end of the range is the limit, block sizes strictly fall. */
  lemma {:induction false} FallingBound(w: nat, start: nat, end: nat, k: nat)
    requires start <= end && k <= w
    requires Mask(start, k) == start && end - start + 1 < Pow2(k)
    ensures |Cover(w, start, end)| <= k
    decreases end - start
  {
    hide Mask;
    var b := Cover(w, start, end)[0];
    if k <= b.h {
      Pow2Monotone(k, b.h);
    }
    MaskNested(start, b.h + 1, k);
    assert end - start + 1 < Pow2(b.h + 1);
    if b.Last() != end {
      MaskNext(start, b.h);
      FallingBound(w, b.Last() + 1, end, b.h);
    }
  }

  /** While alignment is the limit, block sizes strictly rise. */
  lemma {:induction false} RisingBound(w: nat, start: nat, end: nat, j: nat)
    requires 2 <= w && 0 < start <= end < Pow2(w)
    requires j < w && Mask(start, j) == start
    ensures |Cover(w, start, end)| <= 2 * w - 2 - j
    decreases end - start
  {
    hide Mask;
    var b := Cover(w, start, end)[0];
    MaskSmall(start, w);
    if Mask(start, b.h + 1) == start {
      assert b.h + 1 < w;
      FallingBound(w, start, end, b.h + 1);
    } else {
      if b.h + 1 <= j {
        MaskNested(start, b.h + 1, j);
      }
      MaskStep(start, b.h);
      if b.Last() != end {
        var next := b.Last() + 1;
        if w <= b.h + 1 {
          MaskNested(next, w, b.h + 1);
          MaskSmall(next, w);
        }
        RisingBound(w, next, end, b.h + 1);
      }
    }
  }

  lemma CoverBound(w: nat, start: nat, end: nat)
    requires 2 <= w && start <= end < Pow2(w)
    ensures |Cover(w, start, end)| <= 2 * w - 2
  {
    hide Mask;
    if 0 < start {
      RisingBound(w, start, end, 0);
    } else {
      MaskSmall(0, w);
      if end + 1 == Pow2(w) {
        WidestIsMaximal(w, 0, end, w);
      } else {
        FallingBound(w, 0, end, w);
      }
    }
  }

  // ----- The bound is attained: all addresses but the first and the last -----

  lemma FirstBlock(w: nat, start: nat, end: nat, h: nat)
    requires start <= end && h < w
    requires Fits(start, end, h) && !Fits(start, end, h + 1)
    ensures Cover(w, start, end)[0] == Block(start, h)
    ensures |Cover(w, start, end)| ==
            1 + if start + Pow2(h) - 1 == end then 0 else |Cover(w, start + Pow2(h), end)|
  {
    hide Mask;
    WidestIsMaximal(w, start, end, h);
    if h < Widest(w, start, end, 0) {
      FitsSmaller(start, end, h + 1, Widest(w, start, end, 0));
    }
  }

  lemma {:induction false} FallingExact(w: nat, start: nat, end: nat, k: nat)
    requires 0 < k <= w && Mask(start, k) == start && end == start + Pow2(k) - 2
    ensures |Cover(w, start, end)| == k
    decreases k
  {
    hide Mask, Cover;
    MaskNested(start, k - 1, k);
    assert Pow2(k) == 2 * Pow2(k - 1);
    FirstBlock(w, start, end, k - 1);
    if k > 1 {
      MaskNext(start, k - 1);
      FallingExact(w, start + Pow2(k - 1), end, k - 1);
    }
  }

  lemma RisingStep(w: nat, j: nat, end: nat)
    requires j + 1 < w && end == Pow2(w) - 2
    ensures Pow2(j + 1) <= end
    ensures |Cover(w, Pow2(j), end)| == 1 + |Cover(w, Pow2(j + 1), end)|
  {
    hide Mask;
    Pow2Monotone(j + 1, w - 1);
    MaskPow2(j, j);
    MaskPow2(j, j + 1);
    FirstBlock(w, Pow2(j), end, j);
  }

  lemma {:induction false} RisingExact(w: nat, j: nat, end: nat)
    requires 2 <= w && j < w && end == Pow2(w) - 2
    ensures Pow2(j) <= end && |Cover(w, Pow2(j), end)| == 2 * w - 2 - j
    decreases w - j
  {
    hide Mask, Cover;
    if j == w - 1 {
      MaskPow2(j, j);
      assert Pow2(w) == 2 * Pow2(j) && Pow2(j) == 2 * Pow2(j - 1);
      FallingExact(w, Pow2(j), end, j);
    } else {
      RisingStep(w, j, end);
      RisingExact(w, j + 1, end);
    }
  }

  lemma BoundIsAttained(w: nat)
    requires 2 <= w
    ensures 1 <= Pow2(w) - 2 && |Cover(w, 1, Pow2(w) - 2)| == 2 * w - 2
  {
    hide Cover;
    Pow2Monotone(2, w);
    RisingExact(w, 0, Pow2(w) - 2);
  }

  // ----- Byte arrays: the last address of a prefix -----

  /** The big-endian number that bytes stand for. */
  function Value(bytes: seq<Byte>): nat {
    if bytes == [] then 0 else 256 * Value(bytes[..|bytes| - 1]) + bytes[|bytes| - 1]
  }

  /** The bytes of `value` in network order, as `netip.Addr.As4` and `As16` give them. */
  function ToBytes(value: nat, n: nat): (bytes: seq<Byte>)
    ensures |bytes| == n
  {
    if n == 0 then [] else ToBytes(value / 256, n - 1) + [value % 256]
  }

  lemma Pow2Byte(n: nat)
    ensures Pow2(n + 8) == 256 * Pow2(n)
  {
    assert Pow2(n + 4) == 16 * Pow2(n) by {
      assert Pow2(n + 2) == 4 * Pow2(n);
    }
    assert Pow2(n + 6) == 4 * Pow2(n + 4);
  }

  lemma {:induction false} ValueOfBytes(value: nat, n: nat)
    requires value < Pow2(8 * n)
    ensures Value(ToBytes(value, n)) == value
  {
    if n != 0 {
      Pow2Byte(8 * (n - 1));
      ValueOfBytes(value / 256, n - 1);
      assert ToBytes(value, n)[..n - 1] == ToBytes(value / 256, n - 1);
    }
  }

  /** `x |= 1 << k`. */
  function SetBit(x: nat, k: nat): nat {
    if k == 0 then 2 * (x / 2) + 1 else 2 * SetBit(x / 2, k - 1) + x % 2
  }

  function Shift(x: nat, m: nat): nat {
    if m == 0 then x else 2 * Shift(x, m - 1)
  }

  lemma ShiftByte(x: nat)
    ensures Shift(x, 8) == 256 * x
  {
    assert Shift(x, 1) == 2 * x;
    assert Shift(x, 2) == 4 * x;
    assert Shift(x, 3) == 8 * x;
    assert Shift(x, 4) == 16 * x;
    assert Shift(x, 5) == 32 * x;
    assert Shift(x, 6) == 64 * x;
    assert Shift(x, 7) == 128 * x;
  }

  lemma {:induction false} SetLowBit(high: nat, low: nat, m: nat, k: nat)
    requires low < Pow2(m) && k < m
    ensures SetBit(low, k) < Pow2(m)
    ensures SetBit(Shift(high, m) + low, k) == Shift(high, m) + SetBit(low, k)
  {
    var x := Shift(high, m - 1);
    assert Shift(high, m) == 2 * x;
    assert (2 * x + low) / 2 == x + low / 2;
    if k != 0 {
      SetLowBit(high, low / 2, m - 1, k - 1);
    }
  }

  lemma {:induction false} SetHighBit(high: nat, low: nat, m: nat, k: nat)
    requires low < Pow2(m)
    ensures SetBit(Shift(high, m) + low, m + k) == Shift(SetBit(high, k), m) + low
  {
    if m != 0 {
      SetHighBit(high, low / 2, m - 1, k);
    }
  }

  lemma SetBitInByte(high: nat, low: Byte, k: nat)
    requires k < 8
    ensures SetBit(low, k) < 256
    ensures SetBit(256 * high + low, k) == 256 * high + SetBit(low, k)
  {
    Pow2Byte(0);
    SetLowBit(high, low, 8, k);
    ShiftByte(high);
  }

  lemma SetBitAboveByte(high: nat, low: Byte, k: nat)
    ensures SetBit(256 * high + low, 8 + k) == 256 * SetBit(high, k) + low
  {
    Pow2Byte(0);
    SetHighBit(high, low, 8, k);
    ShiftByte(high);
    ShiftByte(SetBit(high, k));
  }

  lemma {:induction false} ValueSetBit(bytes: seq<Byte>, i: nat, k: nat)
    requires i < |bytes| && k < 8
    ensures SetBit(bytes[i], k) < 256
    ensures Value(bytes[i := SetBit(bytes[i], k)]) == SetBit(Value(bytes), 8 * (|bytes| - 1 - i) + k)
  {
    var n := |bytes| - 1;
    var front := bytes[..n];
    SetBitInByte(Value(front), bytes[i], k);
    var after := bytes[i := SetBit(bytes[i], k)];
    if i == n {
      assert after[..n] == front;
    } else {
      ValueSetBit(front, i, k);
      hide SetBit;
      SetBitAboveByte(Value(front), bytes[n], 8 * (n - 1 - i) + k);
      assert after[..n] == front[i := SetBit(front[i], k)];
    }
  }

  /** `x` with its `h` low bits set. */
  function Fill(x: nat, h: nat): nat {
    Mask(x, h) + Pow2(h) - 1
  }

  lemma {:induction false} FillStep(x: nat, k: nat)
    ensures Fill(SetBit(x, k), k) == Fill(x, k + 1)
  {
    if k != 0 {
      FillStep(x / 2, k - 1);
    }
  }

  method SetHostBits(address: array<Byte>, prefixBits: nat)
    requires prefixBits <= 8 * address.Length
    modifies address
    ensures Value(address[..]) == Fill(old(Value(address[..])), 8 * address.Length - prefixBits)
  {
    var bit := prefixBits;
    while bit < 8 * address.Length
      invariant prefixBits <= bit <= 8 * address.Length
      invariant Fill(Value(address[..]), 8 * address.Length - bit) ==
                Fill(old(Value(address[..])), 8 * address.Length - prefixBits)
    {
      ghost var before := address[..];
      ValueSetBit(before, bit / 8, 7 - bit % 8);
      address[bit / 8] := SetBit(address[bit / 8], 7 - bit % 8);
      assert address[..] == before[bit / 8 := SetBit(before[bit / 8], 7 - bit % 8)];
      FillStep(Value(before), 8 * address.Length - bit - 1);
      bit := bit + 1;
    }
  }

  method PrefixLastAddress(prefix: Prefix) returns (last: Addr)
    requires prefix.Valid()
    ensures last == Addr(prefix.addr.width, Fill(prefix.addr.value, prefix.HostBits()))
  {
    var p := prefix.Masked();
    MaskNested(prefix.addr.value, prefix.HostBits(), prefix.HostBits());
    var n := p.addr.width / 8;
    var raw := ToBytes(p.addr.value, n);
    var bytes := new Byte[n](i requires 0 <= i < n => raw[i]);
    assert bytes[..] == raw;
    ValueOfBytes(p.addr.value, n);
    SetHostBits(bytes, p.bits);
    last := Addr(p.addr.width, Value(bytes[..]));
  }

  /** The address with all host bits set is the greatest one of its prefix. */
  lemma LastIsGreatest(prefix: Prefix, a: Addr)
    requires prefix.Valid()
    ensures var last := Addr(prefix.addr.width, Fill(prefix.addr.value, prefix.HostBits()));
            && last.Valid() && prefix.Contains(last)
            && (prefix.Contains(a) ==> a.value <= last.value)
  {
    var h := prefix.HostBits();
    MaskFillFits(prefix.addr.width, prefix.addr.value, h);
    MaskNested(prefix.addr.value, h, h);
    MaskUnique(Mask(prefix.addr.value, h), Fill(prefix.addr.value, h), h);
  }

  /** Setting host bits never leaves the address width. */
  lemma {:induction false} MaskFillFits(w: nat, x: nat, h: nat)
    requires h <= w && x < Pow2(w)
    ensures Fill(x, h) < Pow2(w)
  {
    if h != 0 {
      MaskFillFits(w - 1, x / 2, h - 1);
    }
  }

  // ----- Prefix lists -----

  function ToPrefix(w: nat, b: Block): Prefix
    requires b.h <= w
  {
    Prefix(Addr(w, b.start), w - b.h)
  }

  function ToPrefixes(w: nat, bs: seq<Block>): (ps: seq<Prefix>)
    requires forall i :: 0 <= i < |bs| ==> bs[i].h <= w
    ensures |ps| == |bs|
    ensures forall i :: 0 <= i < |bs| ==> ps[i] == ToPrefix(w, bs[i])
  {
    if bs == [] then [] else [ToPrefix(w, bs[0])] + ToPrefixes(w, bs[1..])
  }

  predicate AnyContains(ps: seq<Prefix>, a: Addr)
    requires forall i :: 0 <= i < |ps| ==> ps[i].Valid()
  {
    exists i :: 0 <= i < |ps| && ps[i].Contains(a)
  }

  ghost predicate InRange(a: Addr, start: Addr, end: Addr) {
    a.width == start.width && start.value <= a.value <= end.value
  }

  /** Valid prefixes that together hold exactly the addresses from `start` to `end`. */
  ghost predicate ExactPrefixes(ps: seq<Prefix>, start: Addr, end: Addr) {
    && (forall i :: 0 <= i < |ps| ==> ps[i].Valid() && ps[i].addr.width == start.width)
    && (forall a: Addr :: AnyContains(ps, a) <==> InRange(a, start, end))
  }

  /** Masked prefixes in ascending order, no two of which overlap. */
  ghost predicate Canonical(ps: seq<Prefix>) {
    && (forall i :: 0 <= i < |ps| ==> ps[i].Valid() && ps[i].IsMasked())
    && (forall i, j, a: Addr :: 0 <= i < j < |ps| && ps[i].Contains(a) ==> a.value < ps[j].addr.value)
  }

  function CoverPrefixes(start: Addr, end: Addr): seq<Prefix>
    requires start.value <= end.value
  {
    CoverWidths(start.width, start.value, end.value);
    ToPrefixes(start.width, Cover(start.width, start.value, end.value))
  }

  lemma CoverWidths(w: nat, start: nat, end: nat)
    requires start <= end
    ensures forall i :: 0 <= i < |Cover(w, start, end)| ==> Cover(w, start, end)[i].h <= w
  {
    CoverIsExact(w, start, end);
  }

  lemma CoverPrefixAt(start: Addr, end: Addr, i: nat)
    requires start.Valid() && end.Valid() && start.width == end.width && start.value <= end.value
    requires i < |Cover(start.width, start.value, end.value)|
    ensures var p := CoverPrefixes(start, end)[i];
            var b := Cover(start.width, start.value, end.value)[i];
            && p.Valid() && p.IsMasked() && p.addr == Addr(start.width, b.start)
            && forall a: Addr :: p.Contains(a) <==> a.width == start.width && b.Holds(a.value)
  {
    var bs := Cover(start.width, start.value, end.value);
    CoverIsExact(start.width, start.value, end.value);
    CoverElement(start.width, bs, start.value, end.value, bs[i]);
    var p := CoverPrefixes(start, end)[i];
    forall a: Addr ensures p.Contains(a) <==> a.width == start.width && bs[i].Holds(a.value) {
      MaskedContains(p, a);
    }
  }

  lemma CoverPrefixesExact(start: Addr, end: Addr)
    requires start.Valid() && end.Valid() && start.width == end.width && start.value <= end.value
    ensures ExactPrefixes(CoverPrefixes(start, end), start, end)
    ensures Canonical(CoverPrefixes(start, end))
  {
    var bs := Cover(start.width, start.value, end.value);
    var ps := CoverPrefixes(start, end);
    CoverIsExact(start.width, start.value, end.value);
    forall i | 0 <= i < |ps|
      ensures ps[i].Valid() && ps[i].IsMasked() && ps[i].addr == Addr(start.width, bs[i].start)
      ensures forall a: Addr :: ps[i].Contains(a) <==> a.width == start.width && bs[i].Holds(a.value)
    {
      CoverPrefixAt(start, end, i);
    }
    forall a: Addr ensures AnyContains(ps, a) <==> InRange(a, start, end) {
      assert Held(bs, a.value) <==> start.value <= a.value <= end.value;
      if a.width == start.width && Held(bs, a.value) {
        var i :| 0 <= i < |bs| && bs[i].Holds(a.value);
        assert ps[i].Contains(a);
      }
    }
  }

  function BlockOf(p: Prefix): Block
    requires p.Valid()
  {
    Block(Mask(p.addr.value, p.HostBits()), p.HostBits())
  }

  lemma CoverPrefixesMinimal(start: Addr, end: Addr, qs: seq<Prefix>)
    requires start.Valid() && end.Valid() && start.width == end.width && start.value <= end.value
    requires ExactPrefixes(qs, start, end)
    ensures |CoverPrefixes(start, end)| <= |qs|
  {
    var w := start.width;
    var bs := seq(|qs|, i requires 0 <= i < |qs| => BlockOf(qs[i]));
    forall i | 0 <= i < |bs| ensures bs[i].Aligned() && bs[i].h <= w {
      MaskNested(qs[i].addr.value, qs[i].HostBits(), qs[i].HostBits());
    }
    forall i, x: nat | 0 <= i < |bs| ensures bs[i].Holds(x) <==> qs[i].Contains(Addr(w, x)) {
      MaskingKeepsMembers(qs[i], Addr(w, x));
      MaskedContains(qs[i].Masked(), Addr(w, x));
    }
    forall x: nat ensures Held(bs, x) <==> start.value <= x <= end.value {
      assert AnyContains(qs, Addr(w, x)) <==> InRange(Addr(w, x), start, end);
      if i :| 0 <= i < |qs| && qs[i].Contains(Addr(w, x)) {
        assert bs[i].Holds(x);
      }
    }
    CoverIsMinimal(w, start.value, end.value, bs);
  }

  method CandidateFits(start: Addr, end: Addr, prefixBits: nat) returns (fits: bool)
    requires start.Valid() && start.width == end.width && prefixBits <= start.width
    ensures fits <==> Fits(start.value, end.value, start.width - prefixBits)
  {
    var candidate := Prefix(start, prefixBits).Masked();
    var last := PrefixLastAddress(candidate);
    MaskNested(start.value, candidate.HostBits(), candidate.HostBits());
    fits := !(candidate.addr != start || last.Compare(end) > 0);
  }

  /** The inner loop on addresses: the fewest prefix bits that keep the block aligned and inside. */
  method WidestPrefixBits(start: Addr, end: Addr) returns (prefixBits: nat)
    requires start.Valid() && start.width == end.width && start.value <= end.value
    ensures prefixBits <= start.width
    ensures start.width - prefixBits == Widest(start.width, start.value, end.value, 0)
  {
    hide Mask;
    prefixBits := start.width;
    while prefixBits > 0
      invariant prefixBits <= start.width
      invariant Fits(start.value, end.value, start.width - prefixBits)
      invariant Widest(start.width, start.value, end.value, start.width - prefixBits) ==
                Widest(start.width, start.value, end.value, 0)
    {
      var fits := CandidateFits(start, end, prefixBits - 1);
      if !fits {
        break;
      }
      prefixBits := prefixBits - 1;
    }
  }

  lemma CoverPrefixesStep(start: Addr, end: Addr)
    requires start.Valid() && end.Valid() && start.width == end.width && start.value <= end.value
    ensures var h := Widest(start.width, start.value, end.value, 0);
            var last := start.value + Pow2(h) - 1;
            && last <= end.value && Mask(start.value, h) == start.value
            && CoverPrefixes(start, end) ==
               [Prefix(start, start.width - h)] +
               if last == end.value then [] else CoverPrefixes(Addr(start.width, last + 1), end)
  {
    hide Mask;
    CoverWidths(start.width, start.value, end.value);
  }

  method AddressRangePrefixes(first: Addr, last: Addr) returns (result: seq<Prefix>)
    requires first.WellFormed() && last.WellFormed()
    ensures var start, end := first.Unmap(), last.Unmap();
            if start.Valid() && start.width == end.width && start.value <= end.value then
              && result == CoverPrefixes(start, end)
              && ExactPrefixes(result, start, end)
              && Canonical(result)
              && |result| <= 2 * start.width - 2
              && (forall qs :: ExactPrefixes(qs, start, end) ==> |result| <= |qs|)
            else
              result == []
  {
    var start, end := first.Unmap(), last.Unmap();
    UnmapValid(first);
    UnmapValid(last);
    if !start.Valid() || start.width != end.width || start.Compare(end) > 0 {
      return [];
    }
    result := GreedyPrefixes(start, end);
    CoverPrefixesExact(start, end);
    CoverBound(start.width, start.value, end.value);
    forall qs | ExactPrefixes(qs, start, end) ensures |result| <= |qs| {
      CoverPrefixesMinimal(start, end, qs);
    }
  }

  /** One turn of the outer loop: the prefix it appends and where it goes on, if anywhere. */
  method NextPrefix(start: Addr, end: Addr) returns (prefix: Prefix, last: Addr)
    requires start.Valid() && end.Valid() && start.width == end.width && start.value <= end.value
    ensures last.width == end.width && start.value <= last.value <= end.value
    ensures CoverPrefixes(start, end) ==
            [prefix] + if last == end then [] else CoverPrefixes(Addr(start.width, last.value + 1), end)
  {
    hide Mask;
    CoverPrefixesStep(start, end);
    var prefixBits := WidestPrefixBits(start, end);
    prefix := Prefix(start, prefixBits).Masked();
    last := PrefixLastAddress(prefix);
  }

  /** The outer loop, on two addresses of one family in order. */
  method GreedyPrefixes(first: Addr, end: Addr) returns (result: seq<Prefix>)
    requires first.Valid() && end.Valid() && first.width == end.width && first.value <= end.value
    ensures result == CoverPrefixes(first, end)
  {
    hide CoverPrefixes;
    ghost var goal := CoverPrefixes(first, end);
    ghost var rest := goal;
    var start := first;
    result := [];
    while start.Compare(end) <= 0
      invariant start.Valid() && start.width == end.width && start.value <= end.value
      invariant rest == CoverPrefixes(start, end)
      invariant goal == result + rest
      decreases end.value - start.value
    {
      var prefix, last := NextPrefix(start, end);
      assert rest == [prefix] + rest[1..];
      result, rest := result + [prefix], rest[1..];
      if last == end {
        break;
      }
      start := Addr(start.width, last.value + 1);
    }
  }
}
