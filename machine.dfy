/** Fixed-width integers of the C target and the byte-order conversion
    the sample uses for port numbers. */
module Machine {

  newtype u16 = x: int | 0 <= x < 0x1_0000
  newtype u32 = x: int | 0 <= x < 0x1_0000_0000
  newtype i32 = x: int | -0x8000_0000 <= x < 0x8000_0000

  /** Conversion of a 32-bit unsigned value to a 32-bit signed parameter on a
      two's-complement target: the same bit pattern, read as signed. */
  function ToI32(x: u32): (r: i32)
    ensures (r as int - x as int) % 0x1_0000_0000 == 0
    ensures r >= 0 <==> x < 0x8000_0000
  {
    if x < 0x8000_0000 then x as int as i32 else (x as int - 0x1_0000_0000) as i32
  }

  /** The two bytes of a 16-bit value as a little-endian host stores them. */
  function HostBytes(x: u16): seq<bv8>
  {
    [(x % 0x100) as bv8, (x / 0x100) as bv8]
  }

  /** The two bytes of a 16-bit value in network (big-endian) order. */
  function NetworkBytes(x: u16): seq<bv8>
  {
    [(x / 0x100) as bv8, (x % 0x100) as bv8]
  }

  /** `htons` on a little-endian host: swap the two bytes, so that the value
      sits in memory in network byte order. */
  function Htons(x: u16): (r: u16)
    ensures HostBytes(r) == NetworkBytes(x)
  {
    var lo, hi := x as int % 0x100, x as int / 0x100;
    assert (lo * 0x100 + hi) % 0x100 == hi;
    assert (lo * 0x100 + hi) / 0x100 == lo;
    (lo * 0x100 + hi) as u16
  }
}
