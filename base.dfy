/** Basic value types shared by every layer: fixed-width integers, IPv4
    addresses, the ns-3 `Vector` (with integer coordinates), time in
    nanoseconds and the conversions the source performs between them. */
module Base {

  datatype Option<+T> = None | Some(value: T)

  type uint8 = x: int | 0 <= x < 0x100
  type uint32 = x: int | 0 <= x < 0x1_0000_0000
  type uint64 = x: int | 0 <= x < 0x1_0000_0000_0000_0000

  /** An IPv4 address is its 32-bit value, most significant octet first. */
  type Addr = uint32

  function Ipv4(a: uint8, b: uint8, c: uint8, d: uint8): (r: Addr)
    ensures r / 0x100_0000 == a && r % 0x100 == d
  {
    ((a * 0x100 + b) * 0x100 + c) * 0x100 + d
  }

  /** 0.0.0.0, what the neighbour table answers when it has no candidate. */
  const ZeroAddr: Addr := 0
  /** The value of a default-constructed ns-3 Ipv4Address: 102.102.102.102. */
  const DefaultAddr: Addr := 0x6666_6666
  /** The three anchors of the scenario, 10.0.0.1 .. 10.0.0.3. */
  const Anchor1: Addr := 0x0A00_0001
  const Anchor2: Addr := 0x0A00_0002
  const Anchor3: Addr := 0x0A00_0003

  predicate IsFixedAnchor(a: Addr) {
    a == Anchor1 || a == Anchor2 || a == Anchor3
  }

  /** A position; the source keeps doubles, the model keeps integers. */
  datatype Vector = Vector(x: int, y: int, z: int)

  /** Squared Euclidean distance: ordered exactly like CalculateDistance. */
  function Dist2(a: Vector, b: Vector): (d: nat)
    ensures d == 0 <==> a == b
  {
    var dx, dy, dz := a.x - b.x, a.y - b.y, a.z - b.z;
    assert dx * dx >= 0 && dy * dy >= 0 && dz * dz >= 0;
    assert dx * dx + dy * dy + dz * dz == 0 ==> dx == 0 && dy == 0 && dz == 0;
    dx * dx + dy * dy + dz * dz
  }

  const NanosPerSecond: nat := 1_000_000_000

  /** C++ integer division, truncating toward zero (Dafny's `/` is Euclidean). */
  function TruncDiv(a: int, b: int): (q: int)
    requires b > 0
    ensures a >= 0 ==> q == a / b
    ensures a < 0 ==> q == -((-a) / b)
  {
    if a >= 0 then a / b else -((-a) / b)
  }

  /** `(int) (later.GetSeconds () - earlier.GetSeconds ())`: whole seconds
      elapsed, truncated toward zero. */
  function ElapsedSeconds(earlier: int, later: int): (k: int)
    ensures earlier <= later ==> 0 <= k && k * NanosPerSecond <= later - earlier < (k + 1) * NanosPerSecond
    ensures later < earlier ==> k <= 0
  {
    TruncDiv(later - earlier, NanosPerSecond)
  }

  /** An integer written into an unsigned 64-bit wire field, reduced modulo 2^64. */
  function Wrap64(x: int): (r: uint64)
    ensures 0 <= x < 0x1_0000_0000_0000_0000 ==> r == x
  {
    x % 0x1_0000_0000_0000_0000
  }

  /** An integer written into an unsigned 32-bit field, reduced modulo 2^32. */
  function Wrap32(x: int): (r: uint32)
    ensures 0 <= x < 0x1_0000_0000 ==> r == x
  {
    x % 0x1_0000_0000
  }

  /** An integer stored into a `uint8_t`, reduced modulo 256. */
  function Wrap8(x: int): (r: uint8)
    ensures 0 <= x < 0x100 ==> r == x
    ensures (r - x) % 0x100 == 0
  {
    x % 0x100
  }

  /** An integer product stored into a 32-bit `int`: reduced modulo 2^32
      into the two's-complement range, as the compilers ns-3 builds with
      wrap a signed product. */
  function Narrow32(x: int): (r: int)
    ensures -0x8000_0000 <= r < 0x8000_0000
    ensures (r - x) % 0x1_0000_0000 == 0
    ensures -0x8000_0000 <= x < 0x8000_0000 ==> r == x
  {
    var u := x % 0x1_0000_0000;
    if u < 0x8000_0000 then u else u - 0x1_0000_0000
  }

  /** A `uint32_t` read into an `int`: values from 2^31 up come out
      negative (two's complement). */
  function Int32Of(x: uint32): (r: int)
    ensures -0x8000_0000 <= r < 0x8000_0000
    ensures (r - x) % 0x1_0000_0000 == 0
    ensures x < 0x8000_0000 ==> r == x
  {
    if x < 0x8000_0000 then x else x - 0x1_0000_0000
  }
}
