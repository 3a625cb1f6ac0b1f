/** The Internet checksum (section 1 of RFC 1071) in CS341's network.c: the plain sum of
    16-bit words, and the one that takes eight bytes at a time. */
module Checksum {
  import opened ByteTypes
  import Arithmetic

  const W16 := 0x1_0000
  const W32 := 0x1_0000_0000
  const W64 := 0x1_0000_0000_0000_0000

  /** The largest buffer whose words a 32-bit sum holds. */
  const MAX_SIZE := 131074

  // ---------------------------------------------------------------- what is computed

  /** The sum of the little-endian 16-bit words, an odd last byte taken as a word. */
  function Sum16(b: Bytes): nat {
    if |b| == 0 then 0
    else if |b| == 1 then b[0]
    else b[0] + 256 * b[1] + Sum16(b[2..])
  }

  /** The ones-complement value of n in 16 bits: its residue modulo 65535, with 65535 in
      place of zero for every n but zero itself. */
  function Rep(n: nat): (r: nat)
    ensures r < W16 && (r == 0 <==> n == 0)
  {
    if n == 0 then 0 else 1 + (n - 1) % 65535
  }

  /** The checksum of a buffer. */
  function Sum(b: Bytes): (r: nat)
    ensures r < W16
  {
    65535 - Rep(Sum16(b))
  }

  // ---------------------------------------------------------------- residues

  lemma Residue(n: nat, q: nat, r: nat)
    requires n == 65535 * q + r && r < 65535
    ensures n % 65535 == r
  {}

  /** Adding a multiple of 65535 to a positive number does not change its value. */
  lemma RepAdds(n: nat, k: nat)
    requires n > 0
    ensures Rep(n + 65535 * k) == Rep(n)
  {
    var q, r := (n - 1) / 65535, (n - 1) % 65535;
    Residue(n - 1, q, r);
    Residue(n + 65535 * k - 1, q + k, r);
  }

  /** A word in a higher place counts as much as in the lowest. */
  lemma RepShift(a: nat, b: nat)
    ensures Rep(a + W16 * b) == Rep(a + b)
  {
    if a + b > 0 {
      RepAdds(a + b, b);
      assert a + b + 65535 * b == a + W16 * b;
    }
  }

  /** Numbers below 2^16 are their own value. */
  lemma RepSmall(n: nat)
    requires n < W16
    ensures Rep(n) == n
  {}

  /** What two numbers have in common when their values agree. */
  lemma RepEqual(n: nat, m: nat)
    ensures Rep(n) == Rep(m) <==> (n == 0 <==> m == 0) && n % 65535 == m % 65535
  {
    if n > 0 && m > 0 {
      PredResidue(n);
      PredResidue(m);
    }
  }

  lemma PredResidue(n: nat)
    requires n > 0
    ensures n % 65535 == if (n - 1) % 65535 == 65534 then 0 else (n - 1) % 65535 + 1
  {
    var q, r := (n - 1) / 65535, (n - 1) % 65535;
    if r == 65534 { Residue(n, q + 1, 0); } else { Residue(n, q, r + 1); }
  }

  // ---------------------------------------------------------------- checksum2

  lemma {:induction false} Sum16Bound(b: Bytes)
    ensures Sum16(b) <= 65535 * ((|b| + 1) / 2)
  {
    if |b| >= 2 {
      Sum16Bound(b[2..]);
    }
  }

  /** 65537 words fit into 32 bits. */
  lemma SumFits(b: Bytes)
    requires |b| <= MAX_SIZE
    ensures Sum16(b) < W32
  {
    Sum16Bound(b);
  }

  lemma {:induction false} Sum16Append(a: Bytes, b: Bytes)
    requires |a| % 2 == 0
    ensures Sum16(a + b) == Sum16(a) + Sum16(b)
  {
    if |a| == 0 {
      assert a + b == b;
    } else {
      Sum16Append(a[2..], b);
      assert (a + b)[2..] == a[2..] + b;
    }
  }

  /** A byte counts as it is at an even place and 256 times at an odd one. */
  lemma {:induction false} Sum16Last(b: Bytes, x: Byte)
    ensures Sum16(b + [x]) == Sum16(b) + if |b| % 2 == 0 then x else 256 * x
  {
    if |b| > 1 {
      assert (b + [x])[2..] == b[2..] + [x];
      Sum16Last(b[2..], x);
    } else if |b| == 1 {
      assert (b + [x])[2..] == [];
    }
  }

  /** The checksum is the one 16-bit number that makes up the sum of the words to a multiple of
      65535, and among 0 and 65535 it is 65535 only for a sum of zero. */
  lemma SumMeans(b: Bytes, r: nat)
    requires r < W16
    ensures r == Sum(b) <==> (Sum16(b) + r) % 65535 == 0 && (r == 65535 ==> Sum16(b) == 0) && (r == 0 ==> Sum16(b) > 0)
  {
    var n := Sum16(b);
    if n > 0 { PredResidue(n); }
    var q, m := n / 65535, n % 65535;
    hide Sum16;
    if m + r < 65535 {
      Residue(n + r, q, m + r);
    } else if m + r < 131070 {
      Residue(n + r, q + 1, m + r - 65535);
    }
  }

  /** One turn of the folding loop. */
  lemma FoldStep(sum: nat)
    ensures Rep(sum % W16 + sum / W16) == Rep(sum)
    ensures sum >= W16 ==> sum % W16 + sum / W16 < sum
  {
    RepShift(sum % W16, sum / W16);
    assert sum == sum % W16 + W16 * (sum / W16);
  }

  /** checksum2, on buffers up to the size that cannot overflow its sum. */
  method Checksum2(buf: Bytes, size: nat) returns (r: nat)
    requires size <= |buf| && size <= MAX_SIZE
    ensures r == Sum(buf[..size])
  {
    if size == 0 {
      return 0xFFFF;
    }
    hide Sum16, Rep;
    var sum: nat := Accumulate(buf, size);
    while sum / W16 != 0
      invariant Rep(sum) == Rep(Sum16(buf[..size]))
      decreases sum
    {
      FoldStep(sum);
      sum := sum % W16 + sum / W16;
    }
    RepSmall(sum);
    r := 65535 - sum;
  }

  /** checksum2's sum, in 32 bits. */
  method Accumulate(buf: Bytes, size: nat) returns (sum: nat)
    requires 0 < size <= |buf| && size <= MAX_SIZE
    ensures sum == Sum16(buf[..size])
  {
    hide Sum16;
    NoBytes();
    sum := 0;
    var i := 0;
    while i < size - 1
      invariant 0 <= i <= size && i % 2 == 0 && sum == Sum16(buf[..i])
    {
      var word16 := (buf[i] as int) + 256 * (buf[i + 1] as int);
      OneWord(buf, i);
      sum := (sum + word16) % W32;
      i := i + 2;
    }
    if size % 2 == 1 {
      OddByte(buf, i);
      sum := (sum + buf[i]) % W32;
    }
  }

  lemma NoBytes()
    ensures Sum16([]) == 0
  {}

  lemma OneWord(buf: Bytes, i: nat)
    requires i + 2 <= |buf| && i + 2 <= MAX_SIZE && i % 2 == 0
    ensures (Sum16(buf[..i]) + ((buf[i] as int) + 256 * (buf[i + 1] as int))) % W32 == Sum16(buf[..i + 2])
  {
    Sum16Append(buf[..i], buf[i..i + 2]);
    assert buf[..i] + buf[i..i + 2] == buf[..i + 2];
    SumFits(buf[..i + 2]);
  }

  lemma OddByte(buf: Bytes, i: nat)
    requires i < |buf| && i < MAX_SIZE && i % 2 == 0
    ensures (Sum16(buf[..i]) + buf[i]) % W32 == Sum16(buf[..i + 1])
  {
    Sum16Append(buf[..i], buf[i..i + 1]);
    assert buf[..i] + buf[i..i + 1] == buf[..i + 1];
    SumFits(buf[..i + 1]);
  }

  // ---------------------------------------------------------------- checksum

  /** Addition with end-around carry: the C statements sum += s; if (sum < s) sum++. */
  function AddCarry(sum: nat, s: nat, width: nat): (r: nat)
    requires width > 0
  {
    var t := (sum + s) % width;
    if t < s then t + 1 else t
  }

  lemma AddCarryIs(sum: nat, s: nat, width: nat)
    requires sum < width && s < width
    ensures AddCarry(sum, s, width) == (if sum + s < width then sum + s else sum + s - width + 1) < width
  {
    if sum + s >= width {
      Minus(sum + s, width);
    }
  }

  lemma Minus(n: nat, m: nat)
    requires m <= n < 2 * m
    ensures n % m == n - m
  {
    Arithmetic.DivUnique(n, m, 1);
  }

  /** A width is one more than a multiple of 65535, so the carry goes where it belongs. */
  lemma AddCarryRep(sum: nat, s: nat, width: nat, k: nat)
    requires sum < width && s < width && width == 65535 * k + 1 && k > 0
    ensures Rep(AddCarry(sum, s, width)) == Rep(sum + s) && AddCarry(sum, s, width) < width
  {
    AddCarryIs(sum, s, width);
    if sum + s >= width {
      RepAdds(sum + s - width + 1, k);
    }
  }

  lemma Widths()
    ensures W64 == 65535 * 281479271743489 + 1 && W32 == 65535 * 65537 + 1 && W16 == 65535 * 1 + 1
  {}

  /** Adding to numbers of the same value gives numbers of the same value. */
  lemma RepPlus(a: nat, b: nat, s: nat)
    requires Rep(a) == Rep(b)
    ensures Rep(a + s) == Rep(b + s)
  {
    RepEqual(a, b);
    RepEqual(a + s, b + s);
    SameResidue(a, b, s);
  }

  lemma SameResidue(a: nat, b: nat, s: nat)
    requires a % 65535 == b % 65535
    ensures (a + s) % 65535 == (b + s) % 65535
  {
    var x, y, r := a / 65535, b / 65535, a % 65535;
    var z, t := (r + s) / 65535, (r + s) % 65535;
    Residue(a + s, x + z, t);
    Residue(b + s, y + z, t);
  }

  /** The little-endian number in the bytes. */
  function Number(b: Bytes): (n: nat)
  {
    if |b| == 0 then 0 else b[0] + 256 * Number(b[1..])
  }

  /** Taken as one number, an even stretch of bytes counts as the sum of its words. */
  lemma {:induction false} NumberRep(a: nat, b: Bytes)
    requires |b| % 2 == 0 || |b| == 1
    ensures Rep(a + Number(b)) == Rep(a + Sum16(b))
    decreases |b|
  {
    if |b| == 1 {
      assert Number(b[1..]) == 0;
    } else if |b| > 0 {
      var rest := b[2..];
      assert b[1..][1..] == rest;
      assert Number(b) == b[0] + 256 * b[1] + W16 * Number(rest);
      var word := (b[0] as int) + 256 * (b[1] as int);
      RepShift(a + word, Number(rest));
      NumberRep(a + word, rest);
    }
  }

  lemma {:induction false} NumberBound(b: Bytes)
    ensures |b| == 1 ==> Number(b) < 256
    ensures |b| == 2 ==> Number(b) < W16
    ensures |b| == 4 ==> Number(b) < W32
    ensures |b| == 8 ==> Number(b) < W64
  {
    BytesBound(b);
    assert Power256(1) == 256 && Power256(2) == 256 * Power256(1) && Power256(3) == 256 * Power256(2) &&
           Power256(4) == 256 * Power256(3) && Power256(5) == 256 * Power256(4) && Power256(6) == 256 * Power256(5) &&
           Power256(7) == 256 * Power256(6) && Power256(8) == 256 * Power256(7);
  }

  function Power256(n: nat): nat {
    if n == 0 then 1 else 256 * Power256(n - 1)
  }

  lemma {:induction false} BytesBound(b: Bytes)
    ensures Number(b) < Power256(|b|)
  {
    if |b| > 0 {
      BytesBound(b[1..]);
    }
  }

  /** One addition of the wide loop or of its tail. */
  lemma WideStep(sum: nat, done: Bytes, b: Bytes)
    requires sum < W64 && Rep(sum) == Rep(Sum16(done)) && |done| % 2 == 0 &&
             (|b| == 1 || |b| == 2 || |b| == 4 || |b| == 8)
    ensures AddCarry(sum, Number(b), W64) < W64
    ensures Rep(AddCarry(sum, Number(b), W64)) == Rep(Sum16(done + b))
  {
    hide Rep, Sum16, Number, AddCarry;
    NumberBound(b);
    Widths();
    AddCarryRep(sum, Number(b), W64, 281479271743489);
    NumberRep(sum, b);
    RepPlus(sum, Sum16(done), Sum16(b));
    Sum16Append(done, b);
  }

  /** The end: 64 bits folded to 32 and to 16. */
  lemma FoldDown(sum: nat)
    requires sum < W64
    ensures var t1 := AddCarry(sum % W32, sum / W32, W32);
            sum / W32 < W32 && t1 < W32 && AddCarry(t1 % W16, t1 / W16, W16) == Rep(sum)
  {
    Widths();
    AddCarryRep(sum % W32, sum / W32, W32, 65537);
    var t1 := AddCarry(sum % W32, sum / W32, W32);
    AddCarryRep(t1 % W16, t1 / W16, W16, 1);
    hide AddCarry, Rep;
    RepShift(t1 % W16, t1 / W16);
    RepShift32(sum % W32, sum / W32);
    RepSmall(AddCarry(t1 % W16, t1 / W16, W16));
  }

  lemma RepShift32(a: nat, b: nat)
    ensures Rep(a + W32 * b) == Rep(a + b)
  {
    RepShift(a, W16 * b);
    RepShift(a, b);
  }

  /** How many bytes the three tests of a tail shorter than eight bytes read: each looks at
      size itself, so the last one reads a byte whenever the tail is not empty. */
  function TailRead(size: nat): (n: nat)
    requires size < 8
    ensures n == if size == 0 || size % 2 == 1 then size else size + 1
  {
    (if size / 4 % 2 == 1 then 4 else 0) + (if size / 2 % 2 == 1 then 2 else 0) + (if size > 0 then 1 else 0)
  }

  /** How many bytes checksum reads. */
  function BytesRead(size: nat): (n: nat)
    ensures n == if size % 8 == 0 || size % 2 == 1 then size else size + 1
  {
    EvenRest(size);
    size - size % 8 + TailRead(size % 8)
  }

  lemma Whole(k: nat)
    ensures 8 * k % 2 == 0
  {
    Parity(8 * k, 4 * k, 0);
  }

  lemma ReadsAll(size: nat)
    ensures BytesRead(size) >= size
  {}

  lemma ReadsTail(size: nat, k: nat)
    requires 8 * k <= size < 8 * k + 8
    ensures BytesRead(size) == 8 * k + TailRead(size - 8 * k)
  {
    Arithmetic.DivUnique(size, 8, k);
  }

  lemma EvenRest(size: nat)
    ensures size % 2 == size % 8 % 2
  {
    var q, t := size / 8, size % 8;
    Parity(size, 4 * q + t / 2, t % 2);
  }

  lemma Parity(n: nat, m: nat, r: nat)
    requires n == 2 * m + r && r < 2
    ensures n % 2 == r
  {
    Arithmetic.DivUnique(n, 2, m);
  }

  /** sum stands for the first at bytes. */
  ghost predicate StandsFor(sum: nat, mem: Bytes, at: nat) {
    at <= |mem| && sum < W64 && Rep(sum) == Rep(Sum16(mem[..at]))
  }

  /** sum += *b; if (sum < *b) sum++, with *b the next n bytes. */
  method AddNext(sum: nat, mem: Bytes, at: nat, n: nat) returns (r: nat)
    requires StandsFor(sum, mem, at) && at + n <= |mem| && at % 2 == 0 && (n == 1 || n == 2 || n == 4 || n == 8)
    ensures StandsFor(r, mem, at + n)
  {
    WideStep(sum, mem[..at], mem[at..at + n]);
    assert mem[..at] + mem[at..at + n] == mem[..at + n];
    hide Rep, Sum16, Number, AddCarry;
    r := AddCarry(sum, Number(mem[at..at + n]), W64);
  }

  /** checksum, on memory that reaches as far as it reads: the checksum of what it reads. */
  method Checksum8(mem: Bytes, size0: nat) returns (r: nat)
    requires BytesRead(size0) <= |mem|
    ensures r == Sum(mem[..BytesRead(size0)])
  {
    var sum: nat := 0;
    var size, at := size0, 0;
    ghost var k := 0;
    assert StandsFor(sum, mem, at);
    hide StandsFor, TailRead, Sum, BytesRead;
    ReadsAll(size0);
    while size >= 8
      invariant at == 8 * k && size == size0 - at && 0 <= size && 0 <= k && StandsFor(sum, mem, at)
    {
      Whole(k);
      sum := AddNext(sum, mem, at, 8);
      at, size, k := at + 8, size - 8, k + 1;
    }
    Whole(k);
    ReadsTail(size0, k);
    sum := AddTail(sum, mem, at, size);
    r := Finish(sum, mem, at + TailRead(size));
  }

  /** The tail of less than eight bytes. */
  method AddTail(sum0: nat, mem: Bytes, at0: nat, size: nat) returns (sum: nat)
    requires StandsFor(sum0, mem, at0) && at0 % 2 == 0 && size < 8 && at0 + TailRead(size) <= |mem|
    ensures StandsFor(sum, mem, at0 + TailRead(size))
  {
    hide StandsFor;
    var at := at0;
    sum := sum0;
    if size / 4 % 2 == 1 {
      sum := AddNext(sum, mem, at, 4);
      at := at + 4;
    }
    if size / 2 % 2 == 1 {
      sum := AddNext(sum, mem, at, 2);
      at := at + 2;
    }
    if size > 0 {
      sum := AddNext(sum, mem, at, 1);
      at := at + 1;
    }
  }

  /** The final folds. */
  method Finish(sum: nat, mem: Bytes, at: nat) returns (r: nat)
    requires StandsFor(sum, mem, at)
    ensures at <= |mem| && r == Sum(mem[..at])
  {
    FoldDown(sum);
    hide Rep, Sum16, AddCarry;
    var t1 := AddCarry(sum % W32, sum / W32, W32);
    var t3 := AddCarry(t1 % W16, t1 / W16, W16);
    r := 65535 - t3;
  }

  // ---------------------------------------------------------------- the two agree

  /** Both functions give the same for every memory exactly when the size is odd, a multiple
      of eight, or the byte behind the buffer is zero. */
  lemma ChecksumsAgree(mem: Bytes, size: nat)
    requires BytesRead(size) <= |mem|
    ensures Sum(mem[..BytesRead(size)]) == Sum(mem[..size]) <==>
            size % 2 == 1 || size % 8 == 0 || mem[size] == 0
  {
    if size % 2 == 0 && size % 8 != 0 {
      var b := mem[..size];
      assert mem[..size + 1] == b + [mem[size]];
      Sum16Append(b, [mem[size]]);
      RepEqual(Sum16(b + [mem[size]]), Sum16(b));
      ExtraByte(Sum16(b), mem[size]);
    }
  }

  /** Two zero bytes, and a seven behind them that is not part of the buffer. */
  lemma ExtraByteInput()
    ensures BytesRead(2) == 3 && Sum([0, 0, 7]) != Sum([0, 0, 7][..2])
  {
    ChecksumsAgree([0, 0, 7], 2);
    assert [0, 0, 7][..3] == [0, 0, 7];
  }

  lemma ExtraByte(n: nat, x: nat)
    requires x < 256
    ensures (n + x) % 65535 == n % 65535 <==> x == 0
  {
    var q, r := n / 65535, n % 65535;
    if r + x < 65535 { Residue(n + x, q, r + x); } else { Residue(n + x, q + 1, r + x - 65535); }
  }

  // ---------------------------------------------------------------- packets

  /** The receiver's test: a packet passes when its sum is positive and divisible by 65535. */
  lemma PassesWhen(b: Bytes)
    ensures Sum(b) == 0 <==> Sum16(b) > 0 && Sum16(b) % 65535 == 0
  {
    if Sum16(b) > 0 { PredResidue(Sum16(b)); }
  }

  /** The eight bytes in front of the payload: op and shift, the checksum, the length in
      network order. */
  function Header(op: Byte, shift: Byte, sum: nat, length: nat): (h: Bytes)
    requires sum < W16 && length < W32
    ensures |h| == 8
  {
    [op, shift, sum % 256, sum / 256, length / 16777216, length / 65536 % 256, length / 256 % 256, length % 256]
  }

  /** Filling in the checksum field adds the checksum to the sum of the words. */
  lemma FieldCounts(op: Byte, shift: Byte, sum: nat, length: nat, payload: Bytes)
    requires sum < W16 && length < W32
    ensures Sum16(Header(op, shift, sum, length) + payload) == Sum16(Header(op, shift, 0, length) + payload) + sum
  {
    var h, h0 := Header(op, shift, sum, length), Header(op, shift, 0, length);
    Sum16Append(h, payload);
    Sum16Append(h0, payload);
    HeaderWords(h);
    HeaderWords(h0);
    assert 256 * (sum / 256) + sum % 256 == sum;
  }

  lemma HeaderWords(h: Bytes)
    requires |h| == 8
    ensures Sum16(h) == h[0] + 256 * (h[1] as int) + h[2] + 256 * (h[3] as int) + h[4] + 256 * (h[5] as int) + h[6] +
            256 * (h[7] as int)
  {
    assert h[2..][2..] == h[4..] && h[4..][2..] == h[6..] && h[6..][2..] == [];
    assert Sum16(h[6..]) == h[6] + 256 * (h[7] as int);
    assert Sum16(h[4..]) == h[4] + 256 * (h[5] as int) + Sum16(h[6..]);
    assert Sum16(h[2..]) == h[2] + 256 * (h[3] as int) + Sum16(h[4..]);
  }

  /** A packet whose checksum field was filled with its own checksum passes, whatever its
      payload: also when its length is odd and when its words add up to zero. */
  lemma SealedPasses(op: Byte, shift: Byte, length: nat, payload: Bytes)
    requires length < W32
    ensures var packet := Header(op, shift, Sum(Header(op, shift, 0, length) + payload), length) + payload;
            Sum(packet) == 0
  {
    var blank := Header(op, shift, 0, length) + payload;
    var n, sum := Sum16(blank), Sum(blank);
    FieldCounts(op, shift, sum, length, payload);
    var packet := Header(op, shift, sum, length) + payload;
    assert Sum16(packet) == n + 65535 - Rep(n);
    if n > 0 {
      var q := (n - 1) / 65535;
      assert n - Rep(n) == 65535 * q;
      Residue(Sum16(packet), q + 1, 0);
    }
    PassesWhen(packet);
  }

  lemma LengthField(length: nat)
    requires length < W32
    ensures 0x100_0000 * (length / 0x100_0000) + 0x1_0000 * (length / 0x1_0000 % 256) + 0x100 * (length / 0x100 % 256) +
            length % 256 == length
  {
    var a, b := length / 0x100, length / 0x1_0000;
    assert a / 0x100 == b && b / 0x100 == length / 0x100_0000;
    assert length == 0x100 * a + length % 0x100 && a == 0x100 * b + a % 0x100 && b == 0x100 * (b / 0x100) + b % 0x100;
  }

  /** client.c's packet: a blank header, checksum2 over all of it, and the field filled in. */
  method BuildPacket(op: Byte, shift: Byte, payload: Bytes) returns (packet: Bytes)
    requires 8 + |payload| <= MAX_SIZE
    ensures |packet| == 8 + |payload| && packet[8..] == payload && packet[0] == op && packet[1] == shift
    ensures 0x100_0000 * (packet[4] as int) + 0x1_0000 * (packet[5] as int) + 0x100 * (packet[6] as int) +
            packet[7] as int == 8 + |payload|
    ensures Sum(packet) == 0
  {
    var length := 8 + |payload|;
    var blank := Header(op, shift, 0, length) + payload;
    var chksum := Checksum2(blank, length);
    assert blank[..length] == blank;
    SealedPasses(op, shift, length, payload);
    LengthField(length);
    hide Sum;
    packet := Header(op, shift, chksum, length) + payload;
  }

  /** server.c's test of a packet that arrived. */
  method Accepts(packet: Bytes) returns (ok: bool)
    requires |packet| <= MAX_SIZE
    ensures ok <==> Sum(packet) == 0
  {
    var sum := Checksum2(packet, |packet|);
    assert packet[..|packet|] == packet;
    ok := sum == 0;
  }
}
