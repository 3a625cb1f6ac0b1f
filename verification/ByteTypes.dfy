/** Bytes, byte strings and little-endian words. */
module ByteTypes {
  type Byte = x: int | 0 <= x < 256
  type Bytes = seq<Byte>

  function Le32(v: int): (r: Bytes)
    requires 0 <= v < 0x1_0000_0000
    ensures |r| == 4
  {
    [v % 256, v / 256 % 256, v / 65536 % 256, v / 16777216]
  }

  function FromLe32(b: Bytes): (v: int)
    requires |b| == 4
    ensures 0 <= v < 0x1_0000_0000
  {
    b[0] as int + 256 * (b[1] as int) + 65536 * (b[2] as int) + 16777216 * (b[3] as int)
  }

  lemma Le32RoundTrip(v: int)
    requires 0 <= v < 0x1_0000_0000
    ensures FromLe32(Le32(v)) == v
  {
    var a, b := v / 256, v / 65536;
    assert a / 256 == b && b / 256 == v / 16777216;
    assert v == 256 * a + v % 256 && a == 256 * b + a % 256 && b == 256 * (b / 256) + b % 256;
  }

  /** The lowest byte comes first. */
  lemma Le32Places(v: int)
    requires 0 <= v < 0x1_0000_0000
    ensures var b := Le32(v);
            v == b[0] as int + 0x100 * (b[1] as int) + 0x1_0000 * (b[2] as int) + 0x100_0000 * (b[3] as int)
  {
    Le32RoundTrip(v);
  }

  /** memcpy into a caller's buffer. */
  method CopyTo(buffer: array<Byte>, at: nat, src: Bytes)
    requires at + |src| <= buffer.Length
    modifies buffer
    ensures buffer[..] == old(buffer[..at]) + src + old(buffer[at + |src|..])
  {
    for k := 0 to |src|
      invariant forall j :: 0 <= j < k ==> buffer[at + j] == src[j]
      invariant forall j :: 0 <= j < buffer.Length && !(at <= j < at + k) ==> buffer[j] == old(buffer[j])
    {
      buffer[at + k] := src[k];
    }
  }
}
