/** Reading STUN binding responses (`internal/tailnet/stun.go`). */
module Stun {
  import opened Bits
  import opened Bytes
  import opened Options

  const BINDING_RESPONSE := 0x0101
  const MAPPED_ADDRESS := 0x0001
  const XOR_MAPPED_ADDRESS := 0x0020
  const COOKIE: seq<Byte> := [0x21, 0x12, 0xa4, 0x42]

  type Transaction = tx: seq<Byte> | |tx| == 12 witness seq(12, _ => 0)

  /** An address of 4 or 16 bytes, unmapped, and a port. */
  datatype Endpoint = Endpoint(ip: seq<Byte>, port: nat)

  predicate Is4In6(ip: seq<Byte>) {
    |ip| == 16 && (forall i :: 0 <= i < 10 ==> ip[i] == 0) && ip[10] == 0xff && ip[11] == 0xff
  }

  function Unmap(ip: seq<Byte>): seq<Byte> {
    if Is4In6(ip) then ip[12..] else ip
  }

  // ----- One address attribute -----

  function XorAll(raw: seq<Byte>, mask: seq<Byte>): (r: seq<Byte>)
    requires |raw| <= |mask|
    ensures |r| == |raw|
  {
    seq(|raw|, i requires 0 <= i < |raw| => Xor(raw[i], mask[i]))
  }

  lemma XorAllTwice(raw: seq<Byte>, mask: seq<Byte>)
    requires |raw| <= |mask|
    ensures XorAll(XorAll(raw, mask), mask) == raw
  {
    forall i | 0 <= i < |raw| ensures Xor(Xor(raw[i], mask[i]), mask[i]) == raw[i] {
      XorTwice(raw[i], mask[i]);
    }
  }

  /** The mask of section 15.2 of RFC 5389: the cookie, then the transaction id. */
  function AddressMask(tx: Transaction): (mask: seq<Byte>)
    ensures |mask| == 16
  {
    COOKIE + tx
  }

  function MaybeXor(raw: seq<Byte>, xor: bool, tx: Transaction): (r: seq<Byte>)
    requires |raw| <= 16
    ensures |r| == |raw|
  {
    if xor then XorAll(raw, AddressMask(tx)) else raw
  }

  /** `port ^= cookie >> 16`, byte by byte. */
  function MaybeXorPort(hi: Byte, lo: Byte, xor: bool): nat {
    if xor then U16(Xor(hi, 0x21), Xor(lo, 0x12)) else U16(hi, lo)
  }

  function ParseAddress(value: seq<Byte>, xor: bool, tx: Transaction): Option<Endpoint> {
    if |value| < 4 || value[0] != 0 then None
    else
      var port := MaybeXorPort(value[2], value[3], xor);
      if value[1] == 1 then
        if |value| < 8 then None else Some(Endpoint(MaybeXor(value[4..8], xor, tx), port))
      else if value[1] == 2 then
        if |value| < 20 then None else Some(Endpoint(Unmap(MaybeXor(value[4..20], xor, tx)), port))
      else None
  }

  // ----- Addresses as RFC 5389 writes them -----

  /** Byte `i` of what section 15.2 of RFC 5389 masks an address with: the magic cookie, then the transaction id. */
  function KeyByte(tx: Transaction, i: nat): Byte
    requires i < 16
  {
    if i == 0 then 0x21 else if i == 1 then 0x12 else if i == 2 then 0xa4 else if i == 3 then 0x42 else tx[i - 4]
  }

  /** Sections 15.1 and 15.2 of RFC 5389: an address and port as an attribute value. */
  function EncodeAddress(ip: seq<Byte>, port: nat, xor: bool, tx: Transaction): seq<Byte>
    requires |ip| == 4 || |ip| == 16
    requires port < 0x1_0000
  {
    [0, if |ip| == 4 then 1 else 2] +
    (if xor then [Xor(port / 256, 0x21), Xor(port % 256, 0x12)] else [port / 256, port % 256]) +
    seq(|ip|, i requires 0 <= i < |ip| => if xor then Xor(ip[i], KeyByte(tx, i)) else ip[i])
  }

  lemma MaskIsKey(tx: Transaction, i: nat)
    requires i < 16
    ensures AddressMask(tx)[i] == KeyByte(tx, i)
  {
  }

  /** Parsing undoes the encoding, for either family, every port and every transaction id. */
  lemma ParseEncoded(ip: seq<Byte>, port: nat, xor: bool, tx: Transaction)
    requires |ip| == 4 || |ip| == 16
    requires port < 0x1_0000
    ensures ParseAddress(EncodeAddress(ip, port, xor, tx), xor, tx) == Some(Endpoint(Unmap(ip), port))
  {
    hide Xor, AddressMask, KeyByte;
    XorTwice(port / 256, 0x21);
    XorTwice(port % 256, 0x12);
    var value := EncodeAddress(ip, port, xor, tx);
    forall i | 0 <= i < |ip|
      ensures value[4 + i] == if xor then Xor(ip[i], AddressMask(tx)[i]) else ip[i]
      ensures Xor(Xor(ip[i], AddressMask(tx)[i]), AddressMask(tx)[i]) == ip[i]
    {
      MaskIsKey(tx, i);
      XorTwice(ip[i], AddressMask(tx)[i]);
    }
    assert MaybeXor(value[4..4 + |ip|], xor, tx) == ip;
  }

  /** Network order: the first byte counts 256. */
  function Pair(first: int, second: int): int {
    256 * first + second
  }

  /** What a value says, byte by byte: family 1 or 2, the port, and the address. */
  ghost predicate Says(value: seq<Byte>, xor: bool, tx: Transaction, said: Endpoint) {
    && |value| >= 8 && value[0] == 0 && (value[1] == 1 || (value[1] == 2 && |value| >= 20))
    && said.port == (if xor then Pair(Xor(value[2], 0x21), Xor(value[3], 0x12)) else Pair(value[2], value[3]))
    && var size := if value[1] == 1 then 4 else 16;
       exists raw: seq<Byte> ::
         && |raw| == size
         && (forall i :: 0 <= i < size ==> raw[i] == if xor then Xor(value[4 + i], KeyByte(tx, i)) else value[4 + i])
         && said.ip == if size == 16 && raw[..12] == [0, 0, 0, 0, 0, 0, 0, 0, 0, 0, 0xff, 0xff] then raw[12..] else raw
  }

  /** The parser returns what a value says, and nothing exactly if it is too short or of another family. */
  lemma ParseMeaning(value: seq<Byte>, xor: bool, tx: Transaction)
    ensures ParseAddress(value, xor, tx).Some? <==>
            |value| >= 8 && value[0] == 0 && (value[1] == 1 || (value[1] == 2 && |value| >= 20))
    ensures ParseAddress(value, xor, tx).Some? ==> Says(value, xor, tx, ParseAddress(value, xor, tx).value)
  {
    hide Xor, AddressMask, KeyByte;
    if ParseAddress(value, xor, tx).Some? {
      var size := if value[1] == 1 then 4 else 16;
      var raw := MaybeXor(value[4..4 + size], xor, tx);
      forall i | 0 <= i < size ensures raw[i] == if xor then Xor(value[4 + i], KeyByte(tx, i)) else value[4 + i] {
        MaskIsKey(tx, i);
      }
      UnmapMeaning(raw);
    }
  }

  lemma UnmapMeaning(raw: seq<Byte>)
    ensures Unmap(raw) ==
            if |raw| == 16 && raw[..12] == [0, 0, 0, 0, 0, 0, 0, 0, 0, 0, 0xff, 0xff] then raw[12..] else raw
  {
    if |raw| == 16 && Is4In6(raw) {
      assert raw[..12] == [0, 0, 0, 0, 0, 0, 0, 0, 0, 0, 0xff, 0xff];
    } else if |raw| == 16 && raw[..12] == [0, 0, 0, 0, 0, 0, 0, 0, 0, 0, 0xff, 0xff] {
      assert forall i :: 0 <= i < 12 ==> raw[i] == raw[..12][i];
    }
  }

  const SAMPLE: Transaction := [0xb7, 0xe7, 0xa7, 0x01, 0xbc, 0x34, 0xd6, 0x86, 0xfa, 0x87, 0xdf, 0xae]

  /** The XOR-MAPPED-ADDRESS of section 2.2 of RFC 5769: 192.0.2.1, port 32853. */
  lemma SampleAddress()
    ensures ParseAddress([0, 1, 0xa1, 0x47, 0xe1, 0x12, 0xa6, 0x43], true, SAMPLE)
            == Some(Endpoint([192, 0, 2, 1], 32853))
  {
    hide XorBits, Pow2;
    var value: seq<Byte> := [0, 1, 0xa1, 0x47, 0xe1, 0x12, 0xa6, 0x43];
    SamplePort();
    SampleFirst();
    SampleLast();
    assert value[4..8] == [0xe1, 0x12, 0xa6, 0x43];
    assert MaybeXor(value[4..8], true, SAMPLE) == [192, 0, 2, 1];
  }

  lemma SamplePort()
    ensures XorBits(0xa1, 0x21, 8) == 0x80 && XorBits(0x47, 0x12, 8) == 0x55
  {
    hide Pow2;
    assert XorBits(0xa, 0x2, 4) == 0x8;
    assert XorBits(0x4, 0x1, 4) == 0x5;
  }

  lemma SampleFirst()
    ensures XorBits(0xe1, 0x21, 8) == 192 && XorBits(0x12, 0x12, 8) == 0
  {
    hide Pow2;
    assert XorBits(0xe, 0x2, 4) == 0xc;
    assert XorBits(0x1, 0x1, 4) == 0;
  }

  lemma SampleLast()
    ensures XorBits(0xa6, 0xa4, 8) == 2 && XorBits(0x43, 0x42, 8) == 1
  {
    hide Pow2;
    assert XorBits(0xa, 0xa, 4) == 0;
    assert XorBits(0x4, 0x4, 4) == 0;
  }

  /** The source's own form: the raw address is XORed in place. */
  method ParseSTUNAddress(value: seq<Byte>, xor: bool, tx: Transaction) returns (mapped: Option<Endpoint>)
    ensures mapped == ParseAddress(value, xor, tx)
    ensures mapped.Some? ==> Says(value, xor, tx, mapped.value)
  {
    ParseMeaning(value, xor, tx);
    hide Says;
    if |value| < 4 || value[0] != 0 {
      return None;
    }
    var port := MaybeXorPort(value[2], value[3], xor);
    if value[1] == 1 {
      if |value| < 8 {
        return None;
      }
      var raw := XorInPlace(value[4..8], xor, tx);
      return Some(Endpoint(raw[..], port));
    } else if value[1] == 2 {
      if |value| < 20 {
        return None;
      }
      var raw := XorInPlace(value[4..20], xor, tx);
      return Some(Endpoint(Unmap(raw[..]), port));
    }
    return None;
  }

  method XorInPlace(value: seq<Byte>, xor: bool, tx: Transaction) returns (raw: array<Byte>)
    requires |value| <= 16
    ensures raw[..] == MaybeXor(value, xor, tx)
  {
    hide Xor;
    raw := new Byte[|value|](i requires 0 <= i < |value| => value[i]);
    assert raw[..] == value;
    if xor {
      var mask := AddressMask(tx);
      for index := 0 to raw.Length
        invariant forall i :: 0 <= i < index ==> raw[i] == Xor(value[i], mask[i])
        invariant forall i :: index <= i < raw.Length ==> raw[i] == value[i]
      {
        raw[index] := Xor(raw[index], mask[index]);
      }
    }
  }

  // ----- The attribute list -----

  /** `(n + 3) &^ 3`. */
  function Padded(n: nat): nat {
    (n + 3) / 4 * 4
  }

  datatype Attribute = Attribute(kind: nat, value: seq<Byte>, padding: seq<Byte>) {
    predicate Valid() {
      && kind < 0x1_0000 && |value| < 0x1_0000
      && |value| + |padding| == Padded(|value|)
    }

    /** Section 15 of RFC 5389: type, length, value, and padding of any content to a multiple of four. */
    function Encode(): (bytes: seq<Byte>)
      requires Valid()
      ensures |bytes| == 4 + Padded(|value|)
    {
      U16Bytes(kind) + U16Bytes(|value|) + value + padding
    }

    function Mapped(tx: Transaction): Option<Endpoint> {
      MappedValue(kind, value, tx)
    }
  }

  function MappedValue(kind: nat, value: seq<Byte>, tx: Transaction): Option<Endpoint> {
    if kind == XOR_MAPPED_ADDRESS || kind == MAPPED_ADDRESS then ParseAddress(value, kind == XOR_MAPPED_ADDRESS, tx)
    else None
  }

  type Attributes = list: seq<Attribute> | forall i :: 0 <= i < |list| ==> list[i].Valid()

  function EncodeAll(list: Attributes): seq<Byte> {
    if list == [] then [] else list[0].Encode() + EncodeAll(list[1..])
  }

  /** The loop of `handleSTUN`. */
  function Walk(attrs: seq<Byte>, tx: Transaction): Option<Endpoint> {
    if |attrs| < 4 then None
    else
      var kind, length := U16(attrs[0], attrs[1]), U16(attrs[2], attrs[3]);
      if 4 + length > |attrs| then None
      else
        var mapped := MappedValue(kind, attrs[4..4 + length], tx);
        if mapped.Some? then mapped
        else if 4 + Padded(length) > |attrs| then None
        else Walk(attrs[4 + Padded(length)..], tx)
  }

  /** Types 0x0020 and 0x0001 carry an address, masked and plain; no other type does. */
  lemma MappedMeaning(kind: nat, value: seq<Byte>, tx: Transaction)
    ensures kind == 0x0020 ==> MappedValue(kind, value, tx) == ParseAddress(value, true, tx)
    ensures kind == 0x0001 ==> MappedValue(kind, value, tx) == ParseAddress(value, false, tx)
    ensures kind != 0x0020 && kind != 0x0001 ==> MappedValue(kind, value, tx) == None
  {
  }

  /** Values are padded to the next multiple of four. */
  lemma PaddedMeaning(n: nat)
    ensures Padded(n) % 4 == 0 && n <= Padded(n) < n + 4
  {
  }

  method WalkAttributes(packet: seq<Byte>, tx: Transaction) returns (mapped: Option<Endpoint>)
    ensures mapped == Walk(packet, tx)
  {
    hide ParseAddress;
    var attrs := packet;
    mapped := None;
    while |attrs| >= 4
      invariant mapped.None? && Walk(attrs, tx) == Walk(packet, tx)
    {
      var kind, length := U16(attrs[0], attrs[1]), U16(attrs[2], attrs[3]);
      if 4 + length > |attrs| {
        break;
      }
      var value := attrs[4..4 + length];
      if kind == XOR_MAPPED_ADDRESS || kind == MAPPED_ADDRESS {
        mapped := ParseSTUNAddress(value, kind == XOR_MAPPED_ADDRESS, tx);
        if mapped.Some? {
          break;
        }
      }
      if 4 + Padded(length) > |attrs| {
        break;
      }
      attrs := attrs[4 + Padded(length)..];
    }
  }

  /** The outcome at the first attribute of `list` that parses, or nothing when none does. */
  ghost predicate IsFirst(list: seq<Attribute>, tx: Transaction, mapped: Option<Endpoint>) {
    if mapped.None? then forall j :: 0 <= j < |list| ==> list[j].Mapped(tx) == None
    else exists k ::
           0 <= k < |list| && list[k].Mapped(tx) == mapped && forall j :: 0 <= j < k ==> list[j].Mapped(tx) == None
  }

  lemma WalkOne(a: Attribute, rest: seq<Byte>, tx: Transaction)
    requires a.Valid()
    ensures Walk(a.Encode() + rest, tx) == if a.Mapped(tx).Some? then a.Mapped(tx) else Walk(rest, tx)
  {
    hide ParseAddress;
    var attrs := a.Encode() + rest;
    assert attrs[0] == U16Bytes(a.kind)[0] && attrs[1] == U16Bytes(a.kind)[1];
    assert attrs[2] == U16Bytes(|a.value|)[0] && attrs[3] == U16Bytes(|a.value|)[1];
    assert attrs[4..4 + |a.value|] == a.value;
    assert attrs[4 + Padded(|a.value|)..] == rest;
  }

  /**
   * On every padded attribute list, whatever follows it, the walk yields the first address
   * attribute that parses; only if none does, it goes on to what follows.
   */
  lemma {:induction false} WalkList(list: Attributes, tail: seq<Byte>,
                                    tx: Transaction) returns (first: Option<Endpoint>)
    ensures IsFirst(list, tx, first)
    ensures Walk(EncodeAll(list) + tail, tx) == if first.Some? then first else Walk(tail, tx)
  {
    hide Walk, Attribute.Encode, Attribute.Mapped;
    if list == [] {
      first := None;
      assert EncodeAll(list) + tail == tail;
    } else {
      var rest := EncodeAll(list[1..]) + tail;
      assert EncodeAll(list) + tail == list[0].Encode() + rest;
      WalkOne(list[0], rest, tx);
      var later := WalkList(list[1..], tail, tx);
      if list[0].Mapped(tx).Some? {
        first := list[0].Mapped(tx);
      } else {
        first := later;
        if later.Some? {
          var k :| 0 <= k < |list[1..]| && list[1..][k].Mapped(tx) == later &&
                   forall j :: 0 <= j < k ==> list[1..][j].Mapped(tx) == None;
          assert list[k + 1].Mapped(tx) == later;
          assert forall j :: 0 < j < k + 1 ==> list[j] == list[1..][j - 1];
        }
      }
    }
  }

  /** What ends a walk: fewer than four bytes, a value cut short, or a last value without its padding. */
  predicate Stuck(tail: seq<Byte>) {
    |tail| < 4 || 4 + Padded(U16(tail[2], tail[3])) > |tail|
  }

  /** What is not such an end begins with a padded attribute. */
  lemma FirstAttribute(attrs: seq<Byte>) returns (a: Attribute)
    requires !Stuck(attrs)
    ensures a.Valid() && |a.Encode()| <= |attrs| && a.Encode() == attrs[..|a.Encode()|]
  {
    var length := U16(attrs[2], attrs[3]);
    var next := 4 + Padded(length);
    a := Attribute(U16(attrs[0], attrs[1]), attrs[4..4 + length], attrs[4 + length..next]);
    U16Unique(attrs[0], attrs[1]);
    U16Unique(attrs[2], attrs[3]);
    assert a.Encode() == attrs[..next];
  }

  /** Every byte string is a padded attribute list followed by such an end. */
  lemma {:induction false} Decompose(attrs: seq<Byte>) returns (list: Attributes, tail: seq<Byte>)
    ensures attrs == EncodeAll(list) + tail
    ensures Stuck(tail)
  {
    hide Stuck, Attribute.Encode, Padded;
    if Stuck(attrs) {
      list, tail := [], attrs;
    } else {
      var a := FirstAttribute(attrs);
      var next := |a.Encode()|;
      var more;
      more, tail := Decompose(attrs[next..]);
      list := [a] + more;
      assert list[1..] == more;
      assert attrs == attrs[..next] + attrs[next..];
    }
  }

  /** The value of a last attribute that lacks its padding. */
  function LastMapped(tail: seq<Byte>, tx: Transaction): Option<Endpoint> {
    if |tail| < 4 then None
    else
      var length := U16(tail[2], tail[3]);
      if 4 + length > |tail| then None else MappedValue(U16(tail[0], tail[1]), tail[4..4 + length], tx)
  }

  /** The walk on every byte string: the first address that parses, in the list or in its unpadded last value. */
  lemma WalkMeaning(attrs: seq<Byte>, tx: Transaction)
    ensures exists list: Attributes, tail, first ::
              && attrs == EncodeAll(list) + tail && Stuck(tail) && IsFirst(list, tx, first)
              && Walk(attrs, tx) == if first.Some? then first else LastMapped(tail, tx)
  {
    hide IsFirst, EncodeAll, ParseAddress;
    var list, tail := Decompose(attrs);
    var first := WalkList(list, tail, tx);
    assert Walk(tail, tx) == LastMapped(tail, tx);
  }

  // ----- The packet -----

  datatype Packet = NotStun | Ignored | Response(tx: Transaction, attrs: seq<Byte>)

  function ParsePacket(packet: seq<Byte>): Packet {
    if |packet| < 20 || packet[4..8] != COOKIE then NotStun
    else
      var length := U16(packet[2], packet[3]);
      if 20 + length > |packet| || U16(packet[0], packet[1]) != BINDING_RESPONSE then Ignored
      else Response(packet[8..20], packet[20..20 + length])
  }

  /** The layout of section 6 of RFC 5389: type 0x0101, the length, the cookie 0x2112A442, the transaction id. */
  lemma PacketMeaning(packet: seq<Byte>)
    ensures ParsePacket(packet).NotStun? <==>
            |packet| < 20 || !(packet[4] == 0x21 && packet[5] == 0x12 && packet[6] == 0xa4 && packet[7] == 0x42)
    ensures ParsePacket(packet).Response? <==>
            && |packet| >= 20 && packet[4] == 0x21 && packet[5] == 0x12 && packet[6] == 0xa4 && packet[7] == 0x42
            && packet[0] == 1 && packet[1] == 1 && |packet| >= 20 + Pair(packet[2], packet[3])
    ensures ParsePacket(packet).Response? ==>
            && ParsePacket(packet).tx == packet[8..20]
            && ParsePacket(packet).attrs == packet[20..20 + Pair(packet[2], packet[3])]
  {
    if |packet| >= 20 && packet[4] == 0x21 && packet[5] == 0x12 && packet[6] == 0xa4 && packet[7] == 0x42 {
      assert packet[4..8] == COOKIE;
    } else if |packet| >= 20 {
      assert packet[4] == packet[4..8][0] && packet[5] == packet[4..8][1];
      assert packet[6] == packet[4..8][2] && packet[7] == packet[4..8][3];
    }
  }

  /** A whole response, with any bytes after its message length, gives the first address that parses. */
  lemma ResponseRead(list: Attributes, tx: Transaction, trailing: seq<Byte>) returns (mapped: Option<Endpoint>)
    requires |EncodeAll(list)| < 0x1_0000
    ensures IsFirst(list, tx, mapped)
    ensures var packet :=
              U16Bytes(BINDING_RESPONSE) + U16Bytes(|EncodeAll(list)|) + COOKIE + tx + EncodeAll(list) + trailing;
            && ParsePacket(packet).Response? && ParsePacket(packet).tx == tx
            && Walk(ParsePacket(packet).attrs, tx) == mapped
  {
    hide EncodeAll, IsFirst, Walk;
    var body := EncodeAll(list);
    var packet := U16Bytes(BINDING_RESPONSE) + U16Bytes(|body|) + COOKIE + tx + body + trailing;
    assert packet[4..8] == COOKIE;
    assert packet[8..20] == tx;
    assert packet[20..20 + |body|] == body;
    assert packet[0] == U16Bytes(BINDING_RESPONSE)[0] && packet[1] == U16Bytes(BINDING_RESPONSE)[1];
    assert packet[2] == U16Bytes(|body|)[0] && packet[3] == U16Bytes(|body|)[1];
    mapped := WalkList(list, [], tx);
    assert body + [] == body;
    WalkEmpty(tx);
  }

  lemma WalkEmpty(tx: Transaction)
    ensures Walk([], tx) == None
  {
  }
}
