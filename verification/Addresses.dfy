/** IP addresses and prefixes as `net/netip` gives them, without zones. */
module Addresses {
  import opened Bits

  /**
   * An address of `width` bits, and width 0 for the zero `netip.Addr`. The source has widths
   * 32 and 128; what follows holds for every whole number of bytes.
   */
  datatype Addr = Addr(width: nat, value: nat) {
    predicate Valid() {
      0 < width && width % 8 == 0 && value < Pow2(width)
    }

    predicate WellFormed() {
      Valid() || this == INVALID_ADDR
    }

    /** An IPv4-mapped IPv6 address, `::ffff:a.b.c.d`. */
    predicate Is4In6() {
      width == 128 && value / 0x1_0000_0000 == 0xffff
    }

    function Unmap(): Addr {
      if Is4In6() then Addr(32, value % 0x1_0000_0000) else this
    }

    /** `netip.Addr.Compare`: by width, then by value; negative, zero or positive. */
    function Compare(other: Addr): int {
      if width != other.width then width - other.width else value - other.value
    }
  }

  const INVALID_ADDR := Addr(0, 0)

  datatype Prefix = Prefix(addr: Addr, bits: nat) {
    predicate Valid() {
      addr.Valid() && bits <= addr.width
    }

    function HostBits(): nat
      requires Valid()
    {
      addr.width - bits
    }

    function Masked(): (p: Prefix)
      requires Valid()
      ensures p.Valid() && p.HostBits() == HostBits()
    {
      Prefix(Addr(addr.width, Mask(addr.value, HostBits())), bits)
    }

    predicate IsMasked()
      requires Valid()
    {
      Mask(addr.value, HostBits()) == addr.value
    }

    /** `netip.Prefix.Contains`: same family and the same leading bits. */
    predicate Contains(a: Addr)
      requires Valid()
    {
      a.width == addr.width && Mask(a.value, HostBits()) == Mask(addr.value, HostBits())
    }
  }

  /** An address as packets carry it: `::ffff:a.b.c.d` is the IPv4 address a.b.c.d. */
  function Plain(a: Addr): Addr {
    if a.width == 128 && 0xffff_0000_0000 <= a.value <= 0xffff_ffff_ffff
    then Addr(32, a.value - 0xffff_0000_0000) else a
  }

  lemma UnmapMeaning(a: Addr)
    ensures a.Unmap() == Plain(a)
  {
  }

  lemma Pow32()
    ensures Pow2(32) == 0x1_0000_0000
  {
    assert Pow2(8) == 0x100;
    assert Pow2(16) == 0x1_0000;
    assert Pow2(24) == 0x100_0000;
  }

  lemma UnmapValid(a: Addr)
    requires a.WellFormed()
    ensures a.Unmap().WellFormed()
    ensures a.Valid() ==> a.Unmap().Valid()
    ensures a.Unmap().Unmap() == a.Unmap()
  {
    Pow32();
  }

  /** A masked prefix holds exactly the addresses from its own to its last one. */
  lemma MaskedContains(p: Prefix, a: Addr)
    requires p.Valid() && p.IsMasked()
    ensures p.Contains(a) <==>
            a.width == p.addr.width && p.addr.value <= a.value < p.addr.value + Pow2(p.HostBits())
  {
    if p.addr.value <= a.value < p.addr.value + Pow2(p.HostBits()) {
      MaskUnique(p.addr.value, a.value, p.HostBits());
    }
  }

  lemma MaskingKeepsMembers(p: Prefix, a: Addr)
    requires p.Valid()
    ensures p.Masked().IsMasked()
    ensures p.Masked().Contains(a) <==> p.Contains(a)
  {
    MaskNested(p.addr.value, p.HostBits(), p.HostBits());
  }
}
