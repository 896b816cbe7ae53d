/**
 * The Teredo IPv6 address (`union teredo_addr`), laid out as in section 4 of
 * RFC 4380, "Teredo Addresses":
 *
 *   bytes  0..3   prefix                 (32 bits)
 *   bytes  4..7   Teredo server IPv4     (32 bits)
 *   bytes  8..9   flags, high bit = cone (16 bits)
 *   bytes 10..11  mapped UDP port        (16 bits, stored bit-complemented)
 *   bytes 12..15  mapped IPv4            (32 bits, stored bit-complemented)
 *
 * Every field is in network byte order. The extractors return numbers; the
 * mapped port and IPv4 come back un-complemented.
 */
module TeredoAddr {
  import opened Bits

  /** A 128-bit IPv6 address as its sixteen bytes. */
  type Address = s: seq<byte> | |s| == 16 witness seq(16, i => 0)

  const PrefixAt: nat := 0
  const ServerAt: nat := 4
  const FlagsAt: nat := 8
  const PortAt: nat := 10
  const IPv4At: nat := 12

  /** The "C" bit: the most significant bit of the flags field. */
  const ConeFlag: uint16 := 0x8000

  /** The fields of a Teredo address, port and IPv4 in clear. */
  datatype Fields = Fields(prefix: uint32, server: uint32, flags: uint16, port: uint16, ipv4: uint32)

  function Prefix(a: Address): (p: uint32)
    ensures Be32Bytes(p) == a[PrefixAt..PrefixAt + 4]
  {
    Be32BytesOfBe32(a[PrefixAt..PrefixAt + 4]);
    Be32(a[PrefixAt..PrefixAt + 4])
  }

  function ServerIP(a: Address): (ip: uint32)
    ensures Be32Bytes(ip) == a[ServerAt..ServerAt + 4]
  {
    Be32BytesOfBe32(a[ServerAt..ServerAt + 4]);
    Be32(a[ServerAt..ServerAt + 4])
  }

  function Flags(a: Address): (f: uint16)
    ensures Be16Bytes(f) == a[FlagsAt..FlagsAt + 2]
  {
    Be16BytesOfBe16(a[FlagsAt..FlagsAt + 2]);
    Be16(a[FlagsAt..FlagsAt + 2])
  }

  /** Whether the cone bit is set: the top bit of the first flags byte. */
  function IsCone(a: Address): (c: bool)
    ensures c <==> Flags(a) >= ConeFlag
  {
    a[FlagsAt] >= 0x80
  }

  /** The mapped port: the complement of what the address stores. */
  function MappedPort(a: Address): (p: uint16)
    ensures Be16Bytes(Not16(p)) == a[PortAt..PortAt + 2]
    ensures Be16Bytes(p) == NotBytes(a[PortAt..PortAt + 2])
  {
    var stored := Be16(a[PortAt..PortAt + 2]);
    Be16BytesOfBe16(a[PortAt..PortAt + 2]);
    Not16Bytes(stored);
    NotInvolutive(stored, 0);
    Not16(stored)
  }

  /** The mapped IPv4: the complement of what the address stores. */
  function MappedIP(a: Address): (ip: uint32)
    ensures Be32Bytes(Not32(ip)) == a[IPv4At..IPv4At + 4]
    ensures Be32Bytes(ip) == NotBytes(a[IPv4At..IPv4At + 4])
  {
    var stored := Be32(a[IPv4At..IPv4At + 4]);
    Be32BytesOfBe32(a[IPv4At..IPv4At + 4]);
    Not32Bytes(stored);
    NotInvolutive(0, stored);
    Not32(stored)
  }

  /** Builds the address that carries the given fields, obfuscating port and IPv4. */
  function Encode(f: Fields): (a: Address)
    ensures Prefix(a) == f.prefix && ServerIP(a) == f.server && Flags(a) == f.flags
    ensures MappedPort(a) == f.port && MappedIP(a) == f.ipv4
  {
    var a: Address := Be32Bytes(f.prefix) + Be32Bytes(f.server) + Be16Bytes(f.flags)
      + Be16Bytes(Not16(f.port)) + Be32Bytes(Not32(f.ipv4));
    assert a[PrefixAt..PrefixAt + 4] == Be32Bytes(f.prefix);
    assert a[ServerAt..ServerAt + 4] == Be32Bytes(f.server);
    assert a[FlagsAt..FlagsAt + 2] == Be16Bytes(f.flags);
    assert a[PortAt..PortAt + 2] == Be16Bytes(Not16(f.port));
    assert a[IPv4At..IPv4At + 4] == Be32Bytes(Not32(f.ipv4));
    a
  }

  /** The five fields together determine the address: no byte lies outside them. */
  lemma SameFieldsSameAddress(a: Address, b: Address)
    requires Prefix(a) == Prefix(b) && ServerIP(a) == ServerIP(b) && Flags(a) == Flags(b)
    requires MappedPort(a) == MappedPort(b) && MappedIP(a) == MappedIP(b)
    ensures a == b
  {
    assert a[PrefixAt..PrefixAt + 4] == b[PrefixAt..PrefixAt + 4];
    assert a[ServerAt..ServerAt + 4] == b[ServerAt..ServerAt + 4];
    assert a[FlagsAt..FlagsAt + 2] == b[FlagsAt..FlagsAt + 2];
    assert a[PortAt..PortAt + 2] == b[PortAt..PortAt + 2];
    assert a[IPv4At..IPv4At + 4] == b[IPv4At..IPv4At + 4];
    forall i | 0 <= i < 16 ensures a[i] == b[i] {
      if i < ServerAt {
        assert a[i] == a[PrefixAt..PrefixAt + 4][i - PrefixAt];
      } else if i < FlagsAt {
        assert a[i] == a[ServerAt..ServerAt + 4][i - ServerAt];
      } else if i < PortAt {
        assert a[i] == a[FlagsAt..FlagsAt + 2][i - FlagsAt];
      } else if i < IPv4At {
        assert a[i] == a[PortAt..PortAt + 2][i - PortAt];
      } else {
        assert a[i] == a[IPv4At..IPv4At + 4][i - IPv4At];
      }
    }
  }

  /** Reads every field of an address. */
  function Decode(a: Address): (f: Fields)
    ensures Encode(f) == a
  {
    var f := Fields(Prefix(a), ServerIP(a), Flags(a), MappedPort(a), MappedIP(a));
    SameFieldsSameAddress(Encode(f), a);
    f
  }

  /** Decoding an encoded address gives back the fields it was built from. */
  lemma DecodeEncode(f: Fields)
    ensures Decode(Encode(f)) == f
  {
  }

  /** Two addresses with the same fields are the same address. */
  lemma DecodeInjective(a: Address, b: Address)
    ensures Decode(a) == Decode(b) <==> a == b
  {
  }

  /**
   * Each extractor reads one fixed field: addresses that agree on a field's
   * bytes agree on that extractor, whatever their other bytes.
   */
  lemma ExtractorsReadOwnField(a: Address, b: Address)
    ensures a[PrefixAt..PrefixAt + 4] == b[PrefixAt..PrefixAt + 4] ==> Prefix(a) == Prefix(b)
    ensures a[ServerAt..ServerAt + 4] == b[ServerAt..ServerAt + 4] ==> ServerIP(a) == ServerIP(b)
    ensures a[FlagsAt] == b[FlagsAt] ==> IsCone(a) == IsCone(b)
    ensures a[PortAt..PortAt + 2] == b[PortAt..PortAt + 2] ==> MappedPort(a) == MappedPort(b)
    ensures a[IPv4At..IPv4At + 4] == b[IPv4At..IPv4At + 4] ==> MappedIP(a) == MappedIP(b)
  {
  }

  /** The cone bit of an encoded address is the top bit of the flags it was given. */
  lemma ConeOfEncode(f: Fields)
    ensures IsCone(Encode(f)) <==> f.flags as int / 0x8000 == 1
  {
  }

  /** The server IPv4 is zero exactly when its four bytes are all zero. */
  lemma ServerIPZero(a: Address)
    ensures ServerIP(a) == 0 <==> (forall i :: ServerAt <= i < ServerAt + 4 ==> a[i] == 0)
  {
    FromBytesZero(a[ServerAt..ServerAt + 4]);
  }
}
