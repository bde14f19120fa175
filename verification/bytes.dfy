/** Byte-level helpers shared by the IP and DNS parsers: the octet type and
    big-endian 16-bit fields, as read by `(buf[i] << 8) | buf[i + 1]`. */
module Bytes {

  /** One octet of a packet (`unsigned char` / `uint8_t`), as a number;
      the few bit operations of the parsers are related to `bv8` by lemmas. */
  newtype byte = x: int | 0 <= x < 256

  /** Largest value a 16-bit wire field can hold, plus one. */
  const U16Limit: nat := 0x1_0000

  /** The big-endian 16-bit value `(hi << 8) | lo`. */
  function Be16(hi: byte, lo: byte): (v: nat)
    ensures v < U16Limit
    ensures v / 256 == hi as nat && v % 256 == lo as nat
  {
    hi as nat * 256 + lo as nat
  }

  /** The big-endian 16-bit field that starts at `i`. */
  function Be16At(buf: seq<byte>, i: nat): (v: nat)
    requires i + 2 <= |buf|
    ensures v < U16Limit
  {
    Be16(buf[i], buf[i + 1])
  }

  /** The two octets that carry `v` on the wire, most significant first. */
  function Be16Bytes(v: nat): (b: seq<byte>)
    requires v < U16Limit
    ensures |b| == 2
  {
    [(v / 256) as byte, (v % 256) as byte]
  }

  /** Writing a 16-bit field and reading it back gives the value written. */
  lemma Be16RoundTrip(v: nat)
    requires v < U16Limit
    ensures Be16At(Be16Bytes(v), 0) == v
  {
    var b := Be16Bytes(v);
    assert b[0] as nat == v / 256 && b[1] as nat == v % 256;
  }

  /** Reading a 16-bit field and writing it back gives the same two octets. */
  lemma Be16Encoding(buf: seq<byte>, i: nat)
    requires i + 2 <= |buf|
    ensures Be16Bytes(Be16At(buf, i)) == buf[i..i + 2]
  {
    var v := Be16At(buf, i);
    assert v / 256 == buf[i] as nat && v % 256 == buf[i + 1] as nat;
    assert (buf[i] as nat) as byte == buf[i];
    assert (buf[i + 1] as nat) as byte == buf[i + 1];
  }

  /** `buf` holds the bytes `s` starting at `offset`. */
  predicate At(buf: seq<byte>, offset: nat, s: seq<byte>)
  {
    offset + |s| <= |buf| && buf[offset..offset + |s|] == s
  }

  /** Each byte of a held sequence is in place. */
  lemma AtIndex(buf: seq<byte>, offset: nat, s: seq<byte>, i: nat)
    requires At(buf, offset, s) && i < |s|
    ensures buf[offset + i] == s[i]
  {
    assert buf[offset..offset + |s|][i] == buf[offset + i];
  }

  /** Two pieces held one after the other are their concatenation. */
  lemma AtConcat(buf: seq<byte>, offset: nat, a: seq<byte>, b: seq<byte>)
    ensures At(buf, offset, a + b) <==> At(buf, offset, a) && At(buf, offset + |a|, b)
  {
    if offset + |a| + |b| <= |buf| {
      var whole := buf[offset..offset + |a| + |b|];
      var left := buf[offset..offset + |a|];
      var right := buf[offset + |a|..offset + |a| + |b|];
      assert whole == left + right;
      if whole == a + b {
        assert left == whole[..|a|] == a;
        assert right == whole[|a|..] == b;
      }
    }
  }

  /** The two halves of a concatenation are held where they were put. */
  lemma AtAppend(a: seq<byte>, b: seq<byte>)
    ensures At(a + b, 0, a) && At(a + b, |a|, b)
  {
    assert (a + b)[0..|a|] == a;
    assert (a + b)[|a|..|a| + |b|] == b;
  }

  /** A 16-bit field written at `offset` is read back there. */
  lemma AtBe16(buf: seq<byte>, offset: nat, v: nat)
    requires v < U16Limit && At(buf, offset, Be16Bytes(v))
    ensures offset + 2 <= |buf| && Be16At(buf, offset) == v
  {
    Be16RoundTrip(v);
    AtIndex(buf, offset, Be16Bytes(v), 0);
    AtIndex(buf, offset, Be16Bytes(v), 1);
  }
}
