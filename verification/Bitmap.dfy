/** The parts of bitmap.c that the free map and the page allocator use. */
module Bitmap {
  import opened ByteTypes

  /** cnt bits from i on, all clear. */
  predicate FreeRun(used: seq<bool>, i: int, cnt: nat) {
    0 <= i && i + cnt <= |used| && forall j :: i <= j < i + cnt ==> !used[j]
  }

  predicate UsedRun(used: seq<bool>, i: int, cnt: nat) {
    0 <= i && i + cnt <= |used| && forall j :: i <= j < i + cnt ==> used[j]
  }

  function SetRun(used: seq<bool>, i: int, cnt: nat, value: bool): (r: seq<bool>)
    requires 0 <= i && i + cnt <= |used|
    ensures |r| == |used|
  {
    seq(|used|, j requires 0 <= j < |used| => if i <= j < i + cnt then value else used[j])
  }

  /** A run that was free can be marked and cleared again without a trace. */
  lemma MarkAndClear(used: seq<bool>, i: int, cnt: nat)
    requires FreeRun(used, i, cnt)
    ensures SetRun(SetRun(used, i, cnt, true), i, cnt, false) == used
  {}

  /** The first run of cnt clear bits at or after i, or -1: bitmap_scan. */
  ghost function FirstRun(used: seq<bool>, i: nat, cnt: nat): (r: int)
    ensures r >= 0 ==> r >= i && FreeRun(used, r, cnt)
    ensures r < 0 ==> r == -1
    decreases |used| - i
  {
    if i + cnt > |used| then -1
    else if FreeRun(used, i, cnt) then i
    else FirstRun(used, i + 1, cnt)
  }

  /** There is no run in front of the one found. */
  lemma {:induction false} FirstIsFirst(used: seq<bool>, i: nat, cnt: nat, j: int)
    requires i <= j && FirstRun(used, i, cnt) > j
    ensures !FreeRun(used, j, cnt)
    decreases |used| - i
  {
    if i != j { FirstIsFirst(used, i + 1, cnt, j); }
  }

  /** When the scan fails there is no run at all. */
  lemma {:induction false} NoRun(used: seq<bool>, i: nat, cnt: nat, j: int)
    requires FirstRun(used, i, cnt) < 0 && i <= j
    ensures !FreeRun(used, j, cnt)
    decreases |used| - i
  {
    if i + cnt <= |used| && i != j {
      NoRun(used, i + 1, cnt, j);
    }
  }

  /** The scan passes over set bits. */
  lemma {:induction false} FirstRunSkips(used: seq<bool>, i: nat, r: nat, cnt: nat)
    requires i <= r && cnt > 0 && FreeRun(used, r, cnt)
    requires forall j :: i <= j < r ==> used[j]
    ensures FirstRun(used, i, cnt) == r
    decreases r - i
  {
    if i < r {
      assert used[i];
      FirstRunSkips(used, i + 1, r, cnt);
    }
  }

  // ---------------------------------------------------------------- in a file

  /** bitmap_file_size: whole 32-bit elements. */
  function FileBytes(bits: nat): (n: nat)
    ensures bits <= 8 * n < bits + 32 && n % 4 == 0
  {
    (bits + 31) / 32 * 4
  }

  function Width(k: nat): nat { if k == 0 then 1 else 2 * Width(k - 1) }

  /** Bits as a number, the first one lowest. */
  function Number(b: seq<bool>): (x: nat)
    ensures x < Width(|b|)
  {
    if b == [] then 0 else (if b[0] then 1 else 0) + 2 * Number(b[1..])
  }

  predicate Bit(x: nat, k: nat) {
    if k == 0 then x % 2 == 1 else Bit(x / 2, k - 1)
  }

  lemma {:induction false} NumberBit(b: seq<bool>, k: nat)
    requires k < |b|
    ensures Bit(Number(b), k) == b[k]
  {
    assert Number(b) / 2 == Number(b[1..]);
    if k > 0 { NumberBit(b[1..], k - 1); }
  }

  function PackByte(b: seq<bool>): Byte
    requires |b| == 8
  {
    assert Width(4) == 16 && Width(8) == 256;
    Number(b)
  }

  /** The elements of a bitmap as they lie in memory. */
  function Pack(b: seq<bool>): (r: Bytes)
    requires |b| % 8 == 0
    ensures 8 * |r| == |b|
  {
    seq(|b| / 8, i requires 0 <= i < |b| / 8 => PackByte(b[8 * i..8 * i + 8]))
  }

  /** Bit j of a byte counts 2 to the j. */
  lemma PackedByte(b: seq<bool>)
    requires |b| == 8
    ensures PackByte(b) == (if b[0] then 1 else 0) + (if b[1] then 2 else 0) + (if b[2] then 4 else 0) +
                           (if b[3] then 8 else 0) + (if b[4] then 16 else 0) + (if b[5] then 32 else 0) +
                           (if b[6] then 64 else 0) + if b[7] then 128 else 0
  {
    hide Number, Width;
    NumberFrom(b, 0);
    NumberFrom(b, 1);
    NumberFrom(b, 2);
    NumberFrom(b, 3);
    NumberFrom(b, 4);
    NumberFrom(b, 5);
    NumberFrom(b, 6);
    NumberFrom(b, 7);
    NumberFrom(b, 8);
    assert b[0..] == b;
  }

  lemma NumberFrom(b: seq<bool>, i: nat)
    requires i <= |b|
    ensures Number(b[i..]) == if i == |b| then 0 else (if b[i] then 1 else 0) + 2 * Number(b[i + 1..])
  {
    if i < |b| { assert b[i..][1..] == b[i + 1..]; }
  }

  /** Bit j of the elements. */
  predicate BitOf(c: Bytes, j: nat)
    requires j < 8 * |c|
  {
    Bit(c[j / 8], j % 8)
  }

  /** What bitmap_write stores, bitmap_read finds again, bit by bit. */
  lemma PackedBit(b: seq<bool>, j: nat)
    requires |b| % 8 == 0 && j < |b|
    ensures BitOf(Pack(b), j) == b[j]
  {
    NumberBit(b[8 * (j / 8)..8 * (j / 8) + 8], j % 8);
  }

  /** bitmap_contains (bits, start, cnt, true). */
  method ContainsUsed(bits: array<bool>, start: nat, cnt: nat) returns (r: bool)
    requires start + cnt <= bits.Length
    ensures r <==> !FreeRun(bits[..], start, cnt)
  {
    for i := 0 to cnt
      invariant forall j :: start <= j < start + i ==> !bits[j]
    {
      if bits[start + i] {
        assert bits[..][start + i];
        return true;
      }
    }
    return false;
  }

  /** bitmap_scan (bits, 0, cnt, false); -1 is BITMAP_ERROR. */
  method Scan(bits: array<bool>, cnt: nat) returns (r: int)
    ensures r == FirstRun(bits[..], 0, cnt)
  {
    if cnt <= bits.Length {
      var last := bits.Length - cnt;
      var i := 0;
      while i <= last
        invariant 0 <= i <= last + 1
        invariant FirstRun(bits[..], 0, cnt) == FirstRun(bits[..], i, cnt)
      {
        var contains := ContainsUsed(bits, i, cnt);
        if !contains {
          return i;
        }
        i := i + 1;
      }
    }
    return -1;
  }

  /** bitmap_set_multiple. */
  method SetMultiple(bits: array<bool>, start: nat, cnt: nat, value: bool)
    requires start + cnt <= bits.Length
    modifies bits
    ensures bits[..] == SetRun(old(bits[..]), start, cnt, value)
  {
    for i := 0 to cnt
      invariant forall j :: 0 <= j < bits.Length ==>
        bits[j] == if start <= j < start + i then value else old(bits[j])
    {
      bits[start + i] := value;
    }
  }
}
