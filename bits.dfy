/**
 * Fixed-width unsigned integers and their network-order (big-endian) byte
 * encodings, as used by the fields of a Teredo IPv6 address.
 */
module Bits {

  newtype byte = x: int | 0 <= x < 0x100
  newtype uint16 = x: int | 0 <= x < 0x1_0000
  newtype uint32 = x: int | 0 <= x < 0x1_0000_0000

  /** 256 to the power `n`: one more than the largest value `n` bytes hold. */
  function Pow256(n: nat): (p: nat)
    ensures p >= 1
  {
    if n == 0 then 1 else 0x100 * Pow256(n - 1)
  }

  /** The ranges of the 16-bit and 32-bit words. */
  lemma Pow256Widths()
    ensures Pow256(2) == 0x1_0000 && Pow256(4) == 0x1_0000_0000
  {
    assert Pow256(1) == 0x100;
    assert Pow256(3) == 0x100_0000;
  }

  /** The unsigned value of a byte string read in network order, most significant byte first. */
  function FromBytes(s: seq<byte>): (v: nat)
    ensures v < Pow256(|s|)
  {
    if s == [] then 0 else FromBytes(s[..|s| - 1]) * 0x100 + s[|s| - 1] as int
  }

  /** The `n` network-order bytes of a value that fits in them. */
  function ToBytes(v: nat, n: nat): (s: seq<byte>)
    requires v < Pow256(n)
    ensures |s| == n && FromBytes(s) == v
  {
    if n == 0 then [] else
      var s := ToBytes(v / 0x100, n - 1) + [(v % 0x100) as byte];
      assert s[..n - 1] == ToBytes(v / 0x100, n - 1);
      s
  }

  /** A byte string is the encoding of its own value: no two strings of one length share a value. */
  lemma {:induction false} ToBytesOfFromBytes(s: seq<byte>)
    ensures ToBytes(FromBytes(s), |s|) == s
  {
    if s != [] {
      var n, init := |s|, s[..|s| - 1];
      ToBytesOfFromBytes(init);
      var v := FromBytes(s);
      assert v / 0x100 == FromBytes(init) && v % 0x100 == s[n - 1] as int;
      assert s == init + [s[n - 1]];
    }
  }

  /** Encodings of one length are equal exactly when the values are. */
  lemma FromBytesInjective(s: seq<byte>, t: seq<byte>)
    requires |s| == |t|
    ensures FromBytes(s) == FromBytes(t) <==> s == t
  {
    ToBytesOfFromBytes(s);
    ToBytesOfFromBytes(t);
  }

  /** A value is zero exactly when every one of its bytes is zero. */
  lemma {:induction false} FromBytesZero(s: seq<byte>)
    ensures FromBytes(s) == 0 <==> forall i :: 0 <= i < |s| ==> s[i] == 0
  {
    if s != [] {
      var init := s[..|s| - 1];
      FromBytesZero(init);
      if FromBytes(s) == 0 {
        assert FromBytes(init) == 0 && s[|s| - 1] == 0;
        forall i | 0 <= i < |s| ensures s[i] == 0 {
          if i < |s| - 1 { assert s[i] == init[i]; }
        }
      }
      if forall i :: 0 <= i < |s| ==> s[i] == 0 {
        assert forall i :: 0 <= i < |init| ==> init[i] == s[i];
      }
    }
  }

  /** The bitwise complement of a byte: every one of its eight bits flipped. */
  function NotByte(b: byte): byte
  {
    0xFF - b
  }

  /** The bitwise complement of a byte string, byte by byte. */
  function NotBytes(s: seq<byte>): (t: seq<byte>)
    ensures |t| == |s|
    ensures forall i :: 0 <= i < |s| ==> t[i] == NotByte(s[i])
  {
    seq(|s|, i requires 0 <= i < |s| => NotByte(s[i]))
  }

  /**
   * Complementing every byte complements the value: the two together make
   * the all-ones value of that width.
   */
  lemma {:induction false} FromBytesNot(s: seq<byte>)
    ensures FromBytes(s) + FromBytes(NotBytes(s)) == Pow256(|s|) - 1
  {
    if s != [] {
      var init := s[..|s| - 1];
      FromBytesNot(init);
      assert NotBytes(s)[..|s| - 1] == NotBytes(init);
    }
  }

  /** The bitwise complement of a 16-bit word (C's `~` on a uint16_t). */
  function Not16(v: uint16): uint16
  {
    0xFFFF - v
  }

  /** The bitwise complement of a 32-bit word (C's `~` on a uint32_t). */
  function Not32(v: uint32): uint32
  {
    0xFFFF_FFFF - v
  }

  /** Complementing twice gives the original value back. */
  lemma NotInvolutive(v16: uint16, v32: uint32)
    ensures Not16(Not16(v16)) == v16 && Not32(Not32(v32)) == v32
  {
  }

  /** The 16-bit value whose network-order bytes are `s`. */
  function Be16(s: seq<byte>): (v: uint16)
    requires |s| == 2
    ensures v as int == s[0] as int * 0x100 + s[1] as int
  {
    Pow256Widths();
    assert s[..1][..0] == [];
    assert FromBytes(s[..1]) == s[0] as int;
    FromBytes(s) as uint16
  }

  /** The two network-order bytes of a 16-bit value. */
  function Be16Bytes(v: uint16): (s: seq<byte>)
    ensures |s| == 2 && Be16(s) == v
  {
    Pow256Widths();
    ToBytes(v as int, 2)
  }

  /** The 32-bit value whose network-order bytes are `s`. */
  function Be32(s: seq<byte>): (v: uint32)
    requires |s| == 4
    ensures v as int == s[0] as int * 0x100_0000 + s[1] as int * 0x1_0000 + s[2] as int * 0x100 + s[3] as int
  {
    Pow256Widths();
    assert s[..3][..2][..1][..0] == [];
    assert s[..3][..2][..1] == [s[0]];
    assert s[..3][..2] == [s[0], s[1]];
    assert s[..3] == [s[0], s[1], s[2]];
    assert FromBytes(s[..3][..2][..1]) == s[0] as int;
    assert FromBytes(s[..3][..2]) == s[0] as int * 0x100 + s[1] as int;
    assert FromBytes(s[..3]) == s[0] as int * 0x1_0000 + s[1] as int * 0x100 + s[2] as int;
    FromBytes(s) as uint32
  }

  /** The four network-order bytes of a 32-bit value. */
  function Be32Bytes(v: uint32): (s: seq<byte>)
    ensures |s| == 4 && Be32(s) == v
  {
    Pow256Widths();
    ToBytes(v as int, 4)
  }

  /** Two bytes are the encoding of exactly one 16-bit value. */
  lemma Be16BytesOfBe16(s: seq<byte>)
    requires |s| == 2
    ensures Be16Bytes(Be16(s)) == s
  {
    FromBytesInjective(Be16Bytes(Be16(s)), s);
  }

  /** Four bytes are the encoding of exactly one 32-bit value. */
  lemma Be32BytesOfBe32(s: seq<byte>)
    requires |s| == 4
    ensures Be32Bytes(Be32(s)) == s
  {
    FromBytesInjective(Be32Bytes(Be32(s)), s);
  }

  /** Complementing a 16-bit value complements each of its stored bytes. */
  lemma Not16Bytes(v: uint16)
    ensures Be16Bytes(Not16(v)) == NotBytes(Be16Bytes(v))
  {
    Pow256Widths();
    FromBytesNot(Be16Bytes(v));
    FromBytesInjective(Be16Bytes(Not16(v)), NotBytes(Be16Bytes(v)));
  }

  /** Complementing a 32-bit value complements each of its stored bytes. */
  lemma Not32Bytes(v: uint32)
    ensures Be32Bytes(Not32(v)) == NotBytes(Be32Bytes(v))
  {
    Pow256Widths();
    FromBytesNot(Be32Bytes(v));
    FromBytesInjective(Be32Bytes(Not32(v)), NotBytes(Be32Bytes(v)));
  }
}
