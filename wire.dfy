/** Fixed-width unsigned integers as bytes. ns-3's `Buffer::Iterator`
    writes `WriteHtonU*` and addresses (`WriteTo`) most significant byte
    first, and plain `WriteU*` least significant byte first. */
module Wire {
  import opened Base

  function Pow256(n: nat): (r: nat)
    ensures r > 0
  {
    if n == 0 then 1 else 256 * Pow256(n - 1)
  }

  lemma Pow256Widths()
    ensures Pow256(1) == 0x100
    ensures Pow256(4) == 0x1_0000_0000
    ensures Pow256(8) == 0x1_0000_0000_0000_0000
  {
    assert Pow256(2) == 0x1_0000;
    assert Pow256(3) == 0x100_0000;
    assert Pow256(4) == 0x1_0000_0000;
    assert Pow256(5) == 0x100_0000_0000;
    assert Pow256(6) == 0x1_0000_0000_0000;
    assert Pow256(7) == 0x100_0000_0000_0000;
  }

  lemma DivBound(x: nat, n: nat)
    requires n > 0 && x < Pow256(n)
    ensures x / 256 < Pow256(n - 1)
  {
  }

  /** `n` bytes of `x`, most significant first (network order). */
  function BigEndian(x: nat, n: nat): (r: seq<uint8>)
    requires x < Pow256(n)
    ensures |r| == n
  {
    if n == 0 then [] else (DivBound(x, n); BigEndian(x / 256, n - 1) + [x % 256])
  }

  function FromBigEndian(s: seq<uint8>): (r: nat)
    ensures r < Pow256(|s|)
  {
    if s == [] then 0
    else
      var hi := FromBigEndian(s[..|s| - 1]);
      assert hi <= Pow256(|s| - 1) - 1;
      assert hi * 256 <= Pow256(|s|) - 256;
      hi * 256 + s[|s| - 1]
  }

  /** `n` bytes of `x`, least significant first (ns-3's `WriteU*`). */
  function LittleEndian(x: nat, n: nat): (r: seq<uint8>)
    requires x < Pow256(n)
    ensures |r| == n
  {
    if n == 0 then [] else (DivBound(x, n); [x % 256] + LittleEndian(x / 256, n - 1))
  }

  function FromLittleEndian(s: seq<uint8>): (r: nat)
    ensures r < Pow256(|s|)
  {
    if s == [] then 0
    else
      var hi := FromLittleEndian(s[1..]);
      assert hi <= Pow256(|s| - 1) - 1;
      assert 256 * hi <= Pow256(|s|) - 256;
      s[0] + 256 * hi
  }

  lemma {:induction false} BigEndianRoundTrip(x: nat, n: nat)
    requires x < Pow256(n)
    ensures FromBigEndian(BigEndian(x, n)) == x
  {
    if n > 0 {
      DivBound(x, n);
      var s := BigEndian(x, n);
      assert s[..|s| - 1] == BigEndian(x / 256, n - 1);
      BigEndianRoundTrip(x / 256, n - 1);
    }
  }

  lemma {:induction false} LittleEndianRoundTrip(x: nat, n: nat)
    requires x < Pow256(n)
    ensures FromLittleEndian(LittleEndian(x, n)) == x
  {
    if n > 0 {
      DivBound(x, n);
      var s := LittleEndian(x, n);
      assert s[1..] == LittleEndian(x / 256, n - 1);
      LittleEndianRoundTrip(x / 256, n - 1);
    }
  }

  /** The two byte orders of one value are each other's reverse: the wire
      formats differ between headers, but each is read back by its own reader. */
  lemma {:induction false} ByteOrdersMirror(x: nat, n: nat, i: nat)
    requires x < Pow256(n) && i < n
    ensures BigEndian(x, n)[i] == LittleEndian(x, n)[n - 1 - i]
  {
    DivBound(x, n);
    if i < n - 1 {
      ByteOrdersMirror(x / 256, n - 1, i);
    }
  }

  // Fixed widths used by the headers.

  function U64Be(x: uint64): (r: seq<uint8>)
    ensures |r| == 8 && FromBigEndian(r) == x
  {
    Pow256Widths();
    BigEndianRoundTrip(x, 8);
    BigEndian(x, 8)
  }

  function U32Be(x: uint32): (r: seq<uint8>)
    ensures |r| == 4 && FromBigEndian(r) == x
  {
    Pow256Widths();
    BigEndianRoundTrip(x, 4);
    BigEndian(x, 4)
  }

  function U64Le(x: uint64): (r: seq<uint8>)
    ensures |r| == 8 && FromLittleEndian(r) == x
  {
    Pow256Widths();
    LittleEndianRoundTrip(x, 8);
    LittleEndian(x, 8)
  }

  function U32Le(x: uint32): (r: seq<uint8>)
    ensures |r| == 4 && FromLittleEndian(r) == x
  {
    Pow256Widths();
    LittleEndianRoundTrip(x, 4);
    LittleEndian(x, 4)
  }

  function ReadU64Be(s: seq<uint8>): (x: uint64)
    requires |s| == 8
  {
    Pow256Widths();
    FromBigEndian(s)
  }

  function ReadU32Be(s: seq<uint8>): (x: uint32)
    requires |s| == 4
  {
    Pow256Widths();
    FromBigEndian(s)
  }

  function ReadU64Le(s: seq<uint8>): (x: uint64)
    requires |s| == 8
  {
    Pow256Widths();
    FromLittleEndian(s)
  }

  function ReadU32Le(s: seq<uint8>): (x: uint32)
    requires |s| == 4
  {
    Pow256Widths();
    FromLittleEndian(s)
  }
}
