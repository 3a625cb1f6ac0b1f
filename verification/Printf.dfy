/** Integer output of lib/stdio.c and its counterpart, lib/stdlib.c's atoi. */
module Printf {
  import Arithmetic

  const BUF_SIZE := 64
  const INT_MIN := -0x8000_0000
  const INT_MAX := 0x7FFF_FFFF

  /** struct integer_base: the base, its digits, the `x' character (or none), the group size. */
  datatype Base = Base(base: nat, digits: string, x: string, group: nat)

  const DECIMAL := Base(10, "0123456789", "", 3)
  const OCTAL := Base(8, "01234567", "", 3)
  const HEX := Base(16, "0123456789abcdef", "x", 4)
  const HEX_UPPER := Base(16, "0123456789ABCDEF", "X", 4)

  predicate IsBase(b: Base) {
    b == DECIMAL || b == OCTAL || b == HEX || b == HEX_UPPER
  }

  /** struct printf_conversion; precision -1 means none was given. */
  datatype Conversion = Conversion(minus: bool, plus: bool, space: bool, pound: bool, zero: bool, grouping: bool,
                                   width: nat, precision: int)

  // ---------------------------------------------------------------- what is printed

  function Repeat(ch: char, n: nat): (s: string)
    ensures |s| == n && forall i :: 0 <= i < n ==> s[i] == ch
  {
    seq(n, _ => ch)
  }

  function Reverse(s: string): (r: string)
    ensures |r| == |s|
  {
    if s == "" then "" else Reverse(s[1..]) + [s[0]]
  }

  /** The digits of value from the lowest up, cnt of them being there already, with commas
      between groups if wanted. */
  function RevDigits(value: nat, b: Base, grouping: bool, cnt: nat): (s: string)
    requires IsBase(b)
    ensures s == "" <==> value == 0
    decreases value
  {
    if value == 0 then ""
    else
      (if grouping && cnt > 0 && cnt % b.group == 0 then "," else "") +
      [b.digits[value % b.base]] + RevDigits(value / b.base, b, grouping, cnt + 1)
  }

  /** The buffer from its start to cp: digits, then zeros up to the precision, and for an
      octal number with the # flag one more if it does not end in one. */
  function RevBuffer(value: nat, b: Base, c: Conversion): (s: string)
    requires IsBase(b)
  {
    var digits := RevDigits(value, b, c.grouping, 0);
    var precision := if c.precision < 0 then 1 else c.precision;
    var wanted := if precision < BUF_SIZE - 1 then precision else BUF_SIZE - 1;
    var filled := digits + Repeat('0', if |digits| < wanted then wanted - |digits| else 0);
    if c.pound && b.base == 8 && (filled == "" || filled[|filled| - 1] != '0') then filled + "0" else filled
  }

  /** The sign character, if any. */
  function Sign(isSigned: bool, negative: bool, c: Conversion): string {
    if !isSigned then ""
    else if negative then "-"
    else if c.plus then "+"
    else if c.space then " "
    else ""
  }

  /** The whole conversion. */
  function Rendered(value: nat, isSigned: bool, negative: bool, b: Base, c: Conversion): string
    requires IsBase(b)
  {
    var sign := Sign(isSigned, negative, c);
    var x := if c.pound && value > 0 && b.x != "" then "0" + b.x else "";
    var body := RevBuffer(value, b, c);
    var used := |body| + |x| + |sign|;
    var pad := if c.width > used then c.width - used else 0;
    Assembled(c, pad, sign, x, Reverse(body))
  }

  /** The parts of a conversion in order. */
  function Assembled(c: Conversion, pad: nat, sign: string, x: string, digits: string): string {
    (if !c.minus && !c.zero then Repeat(' ', pad) else "") + sign + x + (if c.zero then Repeat('0', pad) else "") +
    digits +
    (if c.minus then Repeat(' ', pad) else "")
  }

  // ---------------------------------------------------------------- the buffer is large enough

  function Pow8(n: nat): (p: nat)
    ensures p > 0
  {
    if n == 0 then 1 else 8 * Pow8(n - 1)
  }

  lemma Pow8Of22()
    ensures Pow8(22) == 0x4_0000_0000_0000_0000
  {
    assert Pow8(4) == 8 * 8 * 8 * 8;
    Pow8Add(4, 4);
    Pow8Add(8, 8);
    Pow8Add(16, 4);
    Pow8Add(20, 2);
  }

  lemma {:induction false} Pow8Add(m: nat, n: nat)
    ensures Pow8(m + n) == Pow8(m) * Pow8(n)
  {
    if n > 0 {
      Pow8Add(m, n - 1);
      assert Pow8(m + n) == 8 * Pow8(m + (n - 1));
    }
  }

  lemma DividedBy(value: nat, base: nat, n: nat)
    requires base >= 8 && n > 0 && value < Pow8(n)
    ensures value / base < Pow8(n - 1)
  {
    var q := value / base;
    assert value == base * q + value % base;
    if q >= Pow8(n - 1) {
      Arithmetic.MulMono(8, base, q);
    }
  }

  /** n more digits take n characters and at most as many commas. */
  lemma {:induction false} DigitsFit(value: nat, b: Base, grouping: bool, cnt: nat, n: nat)
    requires IsBase(b) && value < Pow8(n)
    ensures |RevDigits(value, b, grouping, cnt)| <= 2 * n
    decreases value
  {
    if value > 0 && n > 0 {
      DividedBy(value, b.base, n);
      DigitsFit(value / b.base, b, grouping, cnt + 1, n - 1);
    }
  }

  /** A 64-bit number in any of the bases, grouped or not, leaves room for the precision's
      zeros and the # flag's: the buffer is never overrun. */
  lemma BufferFits(value: nat, b: Base, c: Conversion)
    requires IsBase(b) && value < 0x1_0000_0000_0000_0000
    ensures |RevDigits(value, b, c.grouping, 0)| <= 44 && |RevBuffer(value, b, c)| <= BUF_SIZE
  {
    Pow8Of22();
    DigitsFit(value, b, c.grouping, 0, 22);
  }

  // ---------------------------------------------------------------- format_integer

  /** vsnprintf_helper's buffer: the output as long as there is room for it. */
  class Bounded {
    const buffer: array<char>
    var length: nat

    ghost var written: string        // everything that was output

    ghost predicate Valid()
      reads this, buffer
    {
      length == |written| && (buffer.Length > 0 ==> buffer[..Room()] == written[..Room()])
    }

    /** How much of it is in the buffer. */
    ghost function Room(): nat
      reads this
      requires buffer.Length > 0 && length == |written|
      ensures Room() < buffer.Length && Room() <= |written|
    {
      if length < buffer.Length - 1 then length else buffer.Length - 1
    }

    constructor (buffer: array<char>)
      ensures Valid() && written == "" && this.buffer == buffer
    {
      this.buffer, length, written := buffer, 0, "";
    }

    /** vsnprintf_helper. */
    method Helper(ch: char)
      requires Valid()
      modifies this, buffer
      ensures Valid() && written == old(written) + [ch]
    {
      var maxLength := if buffer.Length > 0 then buffer.Length - 1 else 0;
      if length < maxLength {
        buffer[length] := ch;
      }
      length := length + 1;
      written := written + [ch];
    }

    /** The end of vsnprintf: a null terminator, and the length that was wanted. */
    method Finish() returns (r: nat)
      requires Valid()
      modifies buffer
      ensures r == |written|
      ensures buffer.Length > 0 ==>
        var n := if |written| < buffer.Length then |written| else buffer.Length - 1;
        buffer[..n] == written[..n] && buffer[n] == '\0'
    {
      var maxLength := if buffer.Length > 0 then buffer.Length - 1 else 0;
      if buffer.Length > 0 {
        buffer[if length < maxLength then length else maxLength] := '\0';
      }
      r := length;
    }
  }

  /** Where the characters go: the output function, which for vsnprintf fills a buffer, and
      all that has come out. */
  class Output {
    var out: string
    const target: Bounded?

    constructor (target: Bounded?)
      requires target != null ==> target.Valid() && target.written == ""
      ensures out == "" && this.target == target && Valid()
    {
      out := "";
      this.target := target;
    }

    ghost function Sink(): set<object> {
      if target == null then {} else {target, target.buffer}
    }

    ghost predicate Valid()
      reads this, Sink()
    {
      target != null ==> target.Valid() && target.written == out
    }

    method Put(ch: char)
      requires Valid()
      modifies this, Sink()
      ensures Valid() && out == old(out) + [ch]
    {
      out := out + [ch];
      if target != null {
        target.Helper(ch);
      }
    }

    /** output_dup. */
    method PutDup(ch: char, cnt: nat)
      requires Valid()
      modifies this, Sink()
      ensures Valid() && out == old(out) + Repeat(ch, cnt)
    {
      var left := cnt;
      assert Repeat(ch, 0) == "";
      while left > 0
        invariant 0 <= left <= cnt && Valid() && out == old(out) + Repeat(ch, cnt - left)
      {
        Put(ch);
        left := left - 1;
        assert Repeat(ch, cnt - left) == Repeat(ch, cnt - left - 1) + [ch];
      }
    }
  }

  /** The first loop: digits and commas into the buffer, from the lowest up. */
  method WriteDigits(buf: array<char>, value0: nat, b: Base, grouping: bool) returns (cp: nat)
    requires buf.Length == BUF_SIZE && IsBase(b) && value0 < 0x1_0000_0000_0000_0000
    modifies buf
    ensures cp <= BUF_SIZE && buf[..cp] == RevDigits(value0, b, grouping, 0)
    ensures cp <= 44
  {
    BufferFits(value0, b, Conversion(false, false, false, false, false, grouping, 0, 0));
    var value, digitCnt := value0, 0;
    cp := 0;
    while value > 0
      invariant 0 <= value < 0x1_0000_0000_0000_0000 && 0 <= digitCnt && cp <= 44
      invariant buf[..cp] + RevDigits(value, b, grouping, digitCnt) == RevDigits(value0, b, grouping, 0)
      decreases value
    {
      ghost var before, rest := buf[..cp], RevDigits(value / b.base, b, grouping, digitCnt + 1);
      ghost var comma := if grouping && digitCnt > 0 && digitCnt % b.group == 0 then "," else "";
      OneDigit(before, comma, b.digits[value % b.base], rest);
      assert |before| + |comma| + 1 <= 44;
      hide RevDigits;
      if grouping && digitCnt > 0 && digitCnt % b.group == 0 {
        buf[cp] := ',';
        cp := cp + 1;
      }
      assert buf[..cp] == before + comma;
      buf[cp] := b.digits[value % b.base];
      cp := cp + 1;
      assert buf[..cp] == before + comma + [b.digits[value % b.base]];
      value := value / b.base;
      digitCnt := digitCnt + 1;
    }
  }

  lemma OneDigit(before: string, comma: string, digit: char, rest: string)
    ensures before + (comma + [digit] + rest) == before + comma + [digit] + rest
  {}

  /** The precision's zeros and the # flag's. */
  method FillBuffer(buf: array<char>, value: nat, b: Base, c: Conversion) returns (cp: nat)
    requires buf.Length == BUF_SIZE && IsBase(b) && value < 0x1_0000_0000_0000_0000
    modifies buf
    ensures cp <= BUF_SIZE && buf[..cp] == RevBuffer(value, b, c)
  {
    cp := WriteDigits(buf, value, b, c.grouping);
    ghost var digits := buf[..cp];
    ghost var n := cp;
    hide RevDigits;
    var precision := if c.precision < 0 then 1 else c.precision;
    assert digits + Repeat('0', 0) == digits;
    while cp < precision && cp < BUF_SIZE - 1
      invariant n <= cp && (cp <= BUF_SIZE - 1 && (cp <= precision || cp == n))
      invariant buf[..cp] == digits + Repeat('0', cp - n)
    {
      buf[cp] := '0';
      cp := cp + 1;
      assert Repeat('0', cp - n) == Repeat('0', cp - n - 1) + ['0'];
    }
    ghost var filled := buf[..cp];
    assert cp > 0 ==> filled[cp - 1] == buf[cp - 1];
    if c.pound && b.base == 8 && (cp == 0 || buf[cp - 1] != '0') {
      buf[cp] := '0';
      cp := cp + 1;
      assert buf[..cp] == filled + "0";
    }
  }

  /** format_integer: what is output is the rendering, and the buffer is never overrun. */
  method FormatInteger(o: Output, value: nat, isSigned: bool, negative: bool, b: Base, c: Conversion)
    requires IsBase(b) && value < 0x1_0000_0000_0000_0000 && o.Valid()
    modifies o, o.Sink()
    ensures o.Valid() && o.out == old(o.out) + Rendered(value, isSigned, negative, b, c)
  {
    hide RevBuffer, Assembled, Repeat, Reverse, Sign;
    var buf := new char[BUF_SIZE](_ => ' ');
    var cp := FillBuffer(buf, value, b, c);
    var sign := Sign(isSigned, negative, c);
    var x := if c.pound && value > 0 && b.x != "" then "0" + b.x else "";
    var pad := if c.width > cp + |x| + |sign| then c.width - (cp + |x| + |sign|) else 0;
    Emit(o, buf, cp, sign, x, pad, c);
  }

  /** The output part. */
  method Emit(o: Output, buf: array<char>, cp: nat, sign: string, x: string, pad: nat, c: Conversion)
    requires cp <= buf.Length && o.Valid() && buf !in o.Sink()
    modifies o, o.Sink()
    ensures o.Valid() && o.out == old(o.out) + Assembled(c, pad, sign, x, Reverse(buf[..cp]))
  {
    hide Reverse, Repeat;
    NoneRepeated();
    ghost var out0, acc := o.out, "";
    ghost var digits := Reverse(buf[..cp]);
    if !c.minus && !c.zero {
      o.PutDup(' ', pad);
      acc := Repeat(' ', pad);
    }
    PutAll(o, sign);
    acc := Joined(out0, acc, sign);
    PutAll(o, x);
    acc := Joined(out0, acc, x);
    ghost var zeros := "";
    if c.zero {
      o.PutDup('0', pad);
      zeros := Repeat('0', pad);
    }
    acc := Joined(out0, acc, zeros);
    PutReversed(o, buf, cp);
    acc := Joined(out0, acc, digits);
    ghost var spaces := "";
    if c.minus {
      o.PutDup(' ', pad);
      spaces := Repeat(' ', pad);
    }
    acc := Joined(out0, acc, spaces);
  }

  lemma NoneRepeated()
    ensures Repeat(' ', 0) == "" && Repeat('0', 0) == ""
  {}

  /** Concatenation is associative. */
  ghost function Joined(a: string, b: string, c: string): (r: string)
    ensures a + b + c == a + r && (c == "" ==> a + b == a + r) && r == b + c
  {
    b + c
  }

  method PutAll(o: Output, s: string)
    requires o.Valid()
    modifies o, o.Sink()
    ensures o.Valid() && o.out == old(o.out) + s
  {
    for i := 0 to |s|
      invariant o.Valid() && o.out == old(o.out) + s[..i]
    {
      o.Put(s[i]);
    }
  }

  /** The buffer is output from cp down to its start. */
  method PutReversed(o: Output, buf: array<char>, cp0: nat)
    requires cp0 <= buf.Length && o.Valid() && buf !in o.Sink()
    modifies o, o.Sink()
    ensures o.Valid() && o.out == old(o.out) + Reverse(buf[..cp0])
  {
    var cp := cp0;
    while cp > 0
      invariant 0 <= cp <= cp0 && o.Valid() && o.out + Reverse(buf[..cp]) == old(o.out) + Reverse(buf[..cp0])
    {
      cp := cp - 1;
      ReverseLast(buf[..cp], buf[cp]);
      assert buf[..cp + 1] == buf[..cp] + [buf[cp]];
      o.Put(buf[cp]);
    }
    assert Reverse(buf[..0]) == "";
  }

  /** vsnprintf of one integer: the buffer holds as much of the rendering as it has room for
      before its null terminator, and the result is the length of all of it. */
  method Snprintf(buffer: array<char>, value: nat, isSigned: bool, negative: bool, b: Base, c: Conversion)
                  returns (r: nat)
    requires IsBase(b) && value < 0x1_0000_0000_0000_0000
    modifies buffer
    ensures var text := Rendered(value, isSigned, negative, b, c);
            r == |text| &&
            (buffer.Length > 0 ==>
              var n := if r < buffer.Length then r else buffer.Length - 1;
              buffer[..n] == text[..n] && buffer[n] == '\0')
  {
    var bounded := new Bounded(buffer);
    var o := new Output(bounded);
    hide Rendered;
    FormatInteger(o, value, isSigned, negative, b, c);
    assert o.out == Rendered(value, isSigned, negative, b, c);
    r := bounded.Finish();
  }

  lemma {:induction false} ReverseLast(s: string, ch: char)
    ensures Reverse(s + [ch]) == [ch] + Reverse(s)
  {
    if s == "" {
      assert s + [ch] == [ch];
    } else {
      ReverseLast(s[1..], ch);
      assert (s + [ch])[1..] == s[1..] + [ch];
    }
  }

  // ---------------------------------------------------------------- parse_conversion

  /** The argument types. */
  datatype Kind = CharKind | ShortKind | IntKind | IntMax | LongKind | LongLong | PtrDiff | SizeT

  /** What parse_conversion hands back; used counts the arguments taken for asterisks. */
  datatype Parsed = Parsed(c: Conversion, kind: Kind, rest: string, used: nat)

  const NO_FLAGS := Conversion(false, false, false, false, false, false, 0, -1)

  predicate IsFlag(ch: char) {
    ch == '-' || ch == '+' || ch == ' ' || ch == '#' || ch == '0' || ch == '\''
  }

  function WithFlag(c: Conversion, ch: char): Conversion {
    if ch == '-' then c.(minus := true)
    else if ch == '+' then c.(plus := true)
    else if ch == ' ' then c.(space := true)
    else if ch == '#' then c.(pound := true)
    else if ch == '0' then c.(zero := true)
    else c.(grouping := true)
  }

  /** The flags at the start of s, added to c. */
  function Flagged(s: string, c: Conversion): Conversion {
    if s != "" && IsFlag(s[0]) then Flagged(s[1..], WithFlag(c, s[0])) else c
  }

  function Unflagged(s: string): string {
    if s != "" && IsFlag(s[0]) then Unflagged(s[1..]) else s
  }

  /** Minus overrides zero, and plus overrides space. */
  function Settled(c: Conversion): Conversion {
    c.(zero := c.zero && !c.minus, space := c.space && !c.plus)
  }

  /** What is left behind leading digits. */
  function Undigited(s: string): string {
    if s != "" && IsDigit(s[0]) then Undigited(s[1..]) else s
  }

  /** The width's part: a number, or an argument, which may turn the minus flag on. */
  function WithWidth(p: Parsed, args: nat -> int): Parsed {
    if p.rest != "" && p.rest[0] == '*' then
      var w := args(p.used);
      Parsed(if w < 0 then p.c.(width := -w, minus := true) else p.c.(width := w), p.kind, p.rest[1..], p.used + 1)
    else p.(c := p.c.(width := Digits(p.rest, 0)), rest := Undigited(p.rest))
  }

  /** The precision's part; one that is there takes the zero flag away. */
  function WithPrecision(p: Parsed, args: nat -> int): Parsed {
    if p.rest == "" || p.rest[0] != '.' then p.(c := p.c.(precision := -1))
    else
      var s := p.rest[1..];
      if s != "" && s[0] == '*' then
        var w := args(p.used);
        Parsed(if w < 0 then p.c.(precision := -1) else p.c.(precision := w, zero := false), p.kind, s[1..], p.used + 1)
      else p.(c := p.c.(precision := Digits(s, 0), zero := false), rest := Undigited(s))
  }

  function WithKind(p: Parsed): Parsed {
    var s := p.rest;
    if s == "" then p
    else if s[0] == 'h' then
      if |s| > 1 && s[1] == 'h' then p.(kind := CharKind, rest := s[2..]) else p.(kind := ShortKind, rest := s[1..])
    else if s[0] == 'j' then p.(kind := IntMax, rest := s[1..])
    else if s[0] == 'l' then
      if |s| > 1 && s[1] == 'l' then p.(kind := LongLong, rest := s[2..]) else p.(kind := LongKind, rest := s[1..])
    else if s[0] == 't' then p.(kind := PtrDiff, rest := s[1..])
    else if s[0] == 'z' then p.(kind := SizeT, rest := s[1..])
    else p
  }

  function ParsedOf(format: string, args: nat -> int): Parsed {
    WithKind(WithPrecision(WithWidth(Parsed(Settled(Flagged(format, NO_FLAGS)), IntKind, Unflagged(format), 0), args),
    args))
  }

  /** parse_conversion on a format that ends where its terminator is. */
  method ParseConversion(format: string, args: nat -> int) returns (p: Parsed)
    ensures p == ParsedOf(format, args)
  {
    var i, c := ParseFlags(format);
    if c.minus {
      c := c.(zero := false);
    }
    if c.plus {
      c := c.(space := false);
    }
    assert c == Settled(Flagged(format, NO_FLAGS));
    hide Flagged, Unflagged, WithWidth, WithPrecision, WithKind;
    p := ParseWidth(Parsed(c, IntKind, format[i..], 0), args);
    p := ParsePrecision(p, args);
    p := WithKind(p);
  }

  method ParseFlags(format: string) returns (i: nat, c: Conversion)
    ensures i <= |format| && format[i..] == Unflagged(format) && c == Flagged(format, NO_FLAGS)
  {
    i, c := 0, NO_FLAGS;
    while i < |format| && IsFlag(format[i])
      invariant 0 <= i <= |format| && Unflagged(format[i..]) == Unflagged(format)
      invariant Flagged(format[i..], c) == Flagged(format, NO_FLAGS)
    {
      assert format[i..][1..] == format[i + 1..];
      c := WithFlag(c, format[i]);
      i := i + 1;
    }
  }

  method ParseNumber(s: string) returns (i: nat, n: nat)
    ensures i <= |s| && s[i..] == Undigited(s) && n == Digits(s, 0)
  {
    i, n := 0, 0;
    while i < |s| && IsDigit(s[i])
      invariant 0 <= i <= |s| && Undigited(s[i..]) == Undigited(s) && Digits(s[i..], n) == Digits(s, 0)
    {
      assert s[i..][1..] == s[i + 1..];
      n := n * 10 + DigitValue(s[i]);
      i := i + 1;
    }
  }

  method ParseWidth(p0: Parsed, args: nat -> int) returns (p: Parsed)
    ensures p == WithWidth(p0, args)
  {
    if p0.rest != "" && p0.rest[0] == '*' {
      var w := args(p0.used);
      if w < 0 {
        p := Parsed(p0.c.(width := -w, minus := true), p0.kind, p0.rest[1..], p0.used + 1);
      } else {
        p := Parsed(p0.c.(width := w), p0.kind, p0.rest[1..], p0.used + 1);
      }
    } else {
      var i, n := ParseNumber(p0.rest);
      p := p0.(c := p0.c.(width := n), rest := p0.rest[i..]);
    }
  }

  method ParsePrecision(p0: Parsed, args: nat -> int) returns (p: Parsed)
    ensures p == WithPrecision(p0, args)
  {
    p := p0.(c := p0.c.(precision := -1));
    if p.rest != "" && p.rest[0] == '.' {
      var s := p.rest[1..];
      if s != "" && s[0] == '*' {
        var w := args(p.used);
        p := Parsed(p.c.(precision := w), p.kind, s[1..], p.used + 1);
      } else {
        var i, n := ParseNumber(s);
        p := p.(c := p.c.(precision := n), rest := s[i..]);
      }
      if p.c.precision < 0 {
        p := p.(c := p.c.(precision := -1));
      }
    }
    if p.c.precision >= 0 {
      p := p.(c := p.c.(zero := false));
    }
  }

  /** A conversion that can be asked for without asterisks. */
  predicate Askable(c: Conversion) {
    !(c.minus && c.zero) && !(c.plus && c.space) && c.precision >= -1 && !(c.precision >= 0 && c.zero)
  }

  function Opt(on: bool, ch: char): string { if on then [ch] else "" }

  /** How it is asked for, up to the argument type. */
  function Asked(c: Conversion): string {
    Opt(c.minus, '-') + Opt(c.plus, '+') + Opt(c.space, ' ') +
    Opt(c.pound, '#') + Opt(c.zero, '0') + Opt(c.grouping, '\'') +
    (Decimal(c.width) + if c.precision < 0 then "" else "." + Decimal(c.precision))
  }

  /** A number's digits; none for zero. */
  function Decimal(n: nat): string {
    Reverse(RevDigits(n, DECIMAL, false, 0))
  }

  // ---------------------------------------------------------------- atoi

  predicate IsSpace(ch: char) {
    ch == ' ' || ch == '\t' || ch == '\n' || ch == '\r' || ch == 11 as char || ch == 12 as char
  }

  predicate IsDigit(ch: char) { '0' <= ch <= '9' }

  function DigitValue(ch: char): (d: nat)
    requires IsDigit(ch)
    ensures d <= 9
  {
    ch as int - '0' as int
  }

  /** What is left behind leading white space. */
  function Unspaced(s: string): string {
    if s != "" && IsSpace(s[0]) then Unspaced(s[1..]) else s
  }

  /** The number whose digits continue n; it ends before the first other character. */
  function Digits(s: string, n: nat): nat {
    if s != "" && IsDigit(s[0]) then Digits(s[1..], 10 * n + DigitValue(s[0])) else n
  }

  datatype Signed = Signed(negative: bool, rest: string)

  function SignOf(s: string): Signed {
    if s != "" && s[0] == '+' then Signed(false, s[1..])
    else if s != "" && s[0] == '-' then Signed(true, s[1..])
    else Signed(false, s)
  }

  /** The number at the start of s. */
  function ValueOf(s: string): int {
    var t := SignOf(Unspaced(s));
    if t.negative then 0 - Digits(t.rest, 0) else Digits(t.rest, 0)
  }

  predicate IsInt(n: int) { INT_MIN <= n <= INT_MAX }

  lemma {:induction false} DigitsGrow(s: string, n: nat)
    ensures Digits(s, n) >= n
  {
    if s != "" && IsDigit(s[0]) {
      DigitsGrow(s[1..], 10 * n + DigitValue(s[0]));
    }
  }

  /** atoi on a string that is not cut short by its terminator: the number at its start.  No
      intermediate value leaves the range of int exactly because the number itself does not;
      outside it the language leaves the result open. */
  method Atoi(s: string) returns (value: int)
    requires IsInt(ValueOf(s))
    ensures value == ValueOf(s)
  {
    var i := SkipSpaces(s);
    var negative := false;
    if i < |s| && s[i] == '+' {
      i := i + 1;
    } else if i < |s| && s[i] == '-' {
      negative := true;
      i := i + 1;
    }
    assert SignOf(Unspaced(s)) == Signed(negative, s[i..]);
    hide Digits;
    value := ParseDigits(s, i);
    if !negative {
      assert IsInt(-value);
      value := -value;
    }
  }

  /** Skip white space. */
  method SkipSpaces(s: string) returns (i: nat)
    ensures i <= |s| && Unspaced(s) == s[i..]
  {
    i := 0;
    while i < |s| && IsSpace(s[i])
      invariant 0 <= i <= |s| && Unspaced(s[i..]) == Unspaced(s)
    {
      assert s[i..][1..] == s[i + 1..];
      i := i + 1;
    }
  }

  /** Parse digits, as a negative number: every value on the way is an int. */
  method ParseDigits(s: string, at: nat) returns (value: int)
    requires at <= |s| && 0 - Digits(s[at..], 0) >= INT_MIN
    ensures value == 0 - Digits(s[at..], 0)
  {
    var i := at;
    value := 0;
    while i < |s| && IsDigit(s[i])
      invariant at <= i <= |s| && value <= 0 && Digits(s[i..], -value) == Digits(s[at..], 0)
    {
      assert s[i..][1..] == s[i + 1..];
      DigitsGrow(s[i + 1..], 10 * -value + DigitValue(s[i]));
      hide Digits;
      assert IsInt(value * 10) && IsInt(value * 10 - DigitValue(s[i]));
      value := value * 10 - DigitValue(s[i]);
      i := i + 1;
    }
  }

  // ---------------------------------------------------------------- the round trip

  ghost predicate AllDigits(s: string) {
    forall i :: 0 <= i < |s| ==> IsDigit(s[i])
  }

  lemma DecimalDigit(k: nat)
    requires k < 10
    ensures IsDigit(DECIMAL.digits[k]) && DigitValue(DECIMAL.digits[k]) == k
  {}

  /** Digits in front of something else are read in one go. */
  lemma {:induction false} DigitsThrough(a: string, t: string, n: nat)
    requires AllDigits(a)
    ensures Digits(a + t, n) == Digits(t, Digits(a, n))
  {
    if a == "" {
      assert a + t == t;
    } else {
      assert (a + t)[1..] == a[1..] + t;
      DigitsThrough(a[1..], t, 10 * n + DigitValue(a[0]));
    }
  }

  lemma {:induction false} ReverseAppend(a: string, b: string)
    ensures Reverse(a + b) == Reverse(b) + Reverse(a)
  {
    if a == "" {
      assert a + b == b;
    } else {
      assert (a + b)[1..] == a[1..] + b;
      ReverseAppend(a[1..], b);
    }
  }

  lemma {:induction false} ReverseDigits(s: string)
    requires AllDigits(s)
    ensures AllDigits(Reverse(s))
  {
    if s != "" {
      ReverseDigits(s[1..]);
    }
  }

  /** Zeros in front change nothing. */
  lemma {:induction false} ZerosCount(n: nat)
    ensures AllDigits(Repeat('0', n)) && Digits(Repeat('0', n), 0) == 0
  {
    if n > 0 {
      ZerosCount(n - 1);
      assert Repeat('0', n)[1..] == Repeat('0', n - 1);
    }
  }

  /** The digits of a number, put in reading order, are read as that number. */
  lemma {:induction false} DigitsRead(value: nat, cnt: nat)
    ensures AllDigits(RevDigits(value, DECIMAL, false, cnt))
    ensures AllDigits(Reverse(RevDigits(value, DECIMAL, false, cnt)))
    ensures Digits(Reverse(RevDigits(value, DECIMAL, false, cnt)), 0) == value
    decreases value
  {
    if value > 0 {
      var digit, rest := DECIMAL.digits[value % 10], RevDigits(value / 10, DECIMAL, false, cnt + 1);
      DigitsRead(value / 10, cnt + 1);
      DecimalDigit(value % 10);
      assert RevDigits(value, DECIMAL, false, cnt) == [digit] + rest;
      assert ([digit] + rest)[1..] == rest;
      assert Reverse([digit] + rest) == Reverse(rest) + [digit];
      ReverseDigits([digit] + rest);
      DigitsThrough(Reverse(rest), [digit], 0);
      LastDigit(digit, value / 10);
    }
  }

  lemma LastDigit(digit: char, n: nat)
    requires IsDigit(digit)
    ensures Digits([digit], n) == 10 * n + DigitValue(digit)
  {
    assert [digit][1..] == "";
  }

  /** One digit more, with or without a comma in front. */
  lemma OneMore(value: nat, cnt: nat, d: nat)
    requires RevDigits(value / 10, DECIMAL, true, cnt + 1) == RevDigits(value / 10, DECIMAL, false, d + 1)
    ensures RevDigits(value, DECIMAL, true, cnt) ==
            (if cnt > 0 && cnt % 3 == 0 && value > 0 then "," else "") + RevDigits(value, DECIMAL, false, d)
  {}

  /** A number below 1000 is rendered without commas inside. */
  lemma SmallGroup(value: nat, cnt: nat)
    requires cnt % 3 == 0 && value < 1000
    ensures RevDigits(value, DECIMAL, true, cnt) ==
            (if cnt > 0 && value > 0 then "," else "") + RevDigits(value, DECIMAL, false, 0)
  {
    TwoMore(cnt);
    assert value / 10 < 100 && value / 10 / 10 < 10 && value / 10 / 10 / 10 == 0;
    hide RevDigits;
    OneMore(value / 10 / 10, cnt + 2, 2);
    OneMore(value / 10, cnt + 1, 1);
    OneMore(value, cnt, 0);
  }

  lemma TwoMore(cnt: nat)
    requires cnt % 3 == 0
    ensures (cnt + 1) % 3 != 0 && (cnt + 2) % 3 != 0 && (cnt + 3) % 3 == 0
  {}

  lemma OneRevDigit(value: nat, cnt: nat)
    requires value > 0
    ensures RevDigits(value, DECIMAL, true, cnt) ==
            (if cnt > 0 && cnt % 3 == 0 then "," else "") + [DECIMAL.digits[value % 10]] +
            RevDigits(value / 10, DECIMAL, true, cnt + 1)
  {}

  /** A larger one has its last three digits behind a comma. */
  lemma LargeGroup(value: nat, cnt: nat) returns (three: string)
    requires cnt % 3 == 0 && value >= 1000
    ensures value / 10 / 10 / 10 > 0
    ensures RevDigits(value, DECIMAL, true, cnt) ==
            (if cnt > 0 then "," else "") + three + RevDigits(value / 10 / 10 / 10, DECIMAL, true, cnt + 3)
  {
    TwoMore(cnt);
    assert value / 10 >= 100 && value / 10 / 10 >= 10 && value / 10 / 10 / 10 > 0;
    OneRevDigit(value, cnt);
    OneRevDigit(value / 10, cnt + 1);
    OneRevDigit(value / 10 / 10, cnt + 2);
    hide RevDigits;
    three := [DECIMAL.digits[value % 10]] + [DECIMAL.digits[value / 10 % 10]] + [DECIMAL.digits[value / 10 / 10 % 10]];
  }

  /** The leading group of a number with a comma behind it: digits of a number below 1000. */
  lemma {:induction false} LeadGroup(value: nat, cnt: nat) returns (p: string, tail: string)
    requires cnt % 3 == 0 && value > 0 && (cnt > 0 || value >= 1000)
    ensures Reverse(RevDigits(value, DECIMAL, true, cnt)) == p + "," + tail
    ensures AllDigits(p) && p != "" && Digits(p, 0) < 1000
    decreases value
  {
    if value < 1000 {
      SmallGroup(value, cnt);
      var digits := RevDigits(value, DECIMAL, false, 0);
      assert digits != "" && Reverse(",") == ",";
      ReverseAppend(",", digits);
      DigitsRead(value, 0);
      hide RevDigits, Digits, AllDigits, Reverse;
      p, tail := Reverse(digits), "";
    } else {
      var three := LargeGroup(value, cnt);
      var comma := if cnt > 0 then "," else "";
      var rest := RevDigits(value / 10 / 10 / 10, DECIMAL, true, cnt + 3);
      p, tail := LeadGroup(value / 10 / 10 / 10, cnt + 3);
      ReverseAppend(comma + three, rest);
      hide RevDigits, Digits, AllDigits, Reverse;
      assert p + "," + tail + Reverse(comma + three) == p + "," + (tail + Reverse(comma + three));
      tail := tail + Reverse(comma + three);
    }
  }

  /** The zeros that the precision asks for. */
  function PrecisionZeros(value: nat, c: Conversion): string {
    var digits := RevDigits(value, DECIMAL, c.grouping, 0);
    var precision := if c.precision < 0 then 1 else c.precision;
    var wanted := if precision < BUF_SIZE - 1 then precision else BUF_SIZE - 1;
    Repeat('0', if |digits| < wanted then wanted - |digits| else 0)
  }

  lemma DecimalBuffer(value: nat, c: Conversion)
    ensures Reverse(RevBuffer(value, DECIMAL, c)) ==
            PrecisionZeros(value, c) + Reverse(RevDigits(value, DECIMAL, c.grouping, 0))
  {
    var digits, zeros := RevDigits(value, DECIMAL, c.grouping, 0), PrecisionZeros(value, c);
    assert RevBuffer(value, DECIMAL, c) == digits + zeros;
    ReverseAppend(digits, zeros);
    ReverseZeros(|zeros|);
  }

  lemma {:induction false} ReverseZeros(n: nat)
    ensures Reverse(Repeat('0', n)) == Repeat('0', n)
  {
    if n > 0 {
      ReverseZeros(n - 1);
      assert Repeat('0', n)[1..] == Repeat('0', n - 1);
    }
  }

  /** When commas do not come into it: there is no grouping, or nothing to group. */
  predicate Plain(value: nat, c: Conversion) {
    !c.grouping || value < 1000
  }

  lemma Associative(a: string, b: string, c: string)
    ensures a + (b + c) == a + b + c
  {}

  /** Digits behind zeros. */
  lemma BehindZeros(pad: nat, more: nat, digits: string)
    requires AllDigits(digits)
    ensures AllDigits(Repeat('0', pad) + Repeat('0', more) + digits)
    ensures Digits(Repeat('0', pad) + Repeat('0', more) + digits, 0) == Digits(digits, 0)
  {
    ZerosCount(pad);
    ZerosCount(more);
    DigitsThrough(Repeat('0', pad), Repeat('0', more), 0);
    DigitsThrough(Repeat('0', pad) + Repeat('0', more), digits, 0);
  }

  /** What atoi will find behind the sign: the number, or less than a thousand and a comma. */
  lemma BufferRead(value: nat, c: Conversion, pad: nat) returns (p: string, tail: string)
    ensures Repeat('0', pad) + Reverse(RevBuffer(value, DECIMAL, c)) == p + tail && AllDigits(p)
    ensures Plain(value, c) ==> tail == "" && Digits(p, 0) == value
    ensures !Plain(value, c) ==> p != "" && tail != "" && tail[0] == ',' && Digits(p, 0) < 1000
  {
    DecimalBuffer(value, c);
    var more := |PrecisionZeros(value, c)|;
    assert PrecisionZeros(value, c) == Repeat('0', more);
    var front := Repeat('0', pad) + Repeat('0', more);
    if Plain(value, c) {
      if c.grouping { SmallGroup(value, 0); }
      DigitsRead(value, 0);
      var digits := Reverse(RevDigits(value, DECIMAL, false, 0));
      BehindZeros(pad, more, digits);
      assert RevDigits(value, DECIMAL, c.grouping, 0) == RevDigits(value, DECIMAL, false, 0);
      hide *;
      Associative(Repeat('0', pad), Repeat('0', more), digits);
      p, tail := front + digits, "";
    } else {
      var lead, rest := LeadGroup(value, 0);
      BehindZeros(pad, more, lead);
      hide *;
      Associative(Repeat('0', pad), Repeat('0', more), lead + "," + rest);
      Associative(front, lead, "," + rest);
      assert lead + "," + rest == lead + ("," + rest);
      p, tail := front + lead, "," + rest;
    }
  }

  lemma {:induction false} SpacesSkipped(n: nat, t: string)
    ensures Unspaced(Repeat(' ', n) + t) == Unspaced(t)
  {
    if n == 0 {
      assert Repeat(' ', 0) + t == t;
    } else {
      assert (Repeat(' ', n) + t)[1..] == Repeat(' ', n - 1) + t;
      SpacesSkipped(n - 1, t);
    }
  }

  /** Digits, then something else or nothing: the number ends there. */
  lemma EndsThere(p: string, t: string)
    requires AllDigits(p) && (t == "" || !IsDigit(t[0]))
    ensures Digits(p + t, 0) == Digits(p, 0)
  {
    DigitsThrough(p, t, 0);
  }

  /** A number without a sign, or nothing but spaces. */
  lemma UnsignedRead(p: string, t: string)
    requires AllDigits(p) && (p != "" || t == Repeat(' ', |t|)) && (t == "" || !IsDigit(t[0]))
    ensures ValueOf(p + t) == Digits(p, 0)
  {
    EndsThere(p, t);
    if p == "" {
      SpacesSkipped(|t|, "");
      assert Repeat(' ', |t|) + "" == t && p + t == t;
    } else {
      assert (p + t)[0] == p[0];
      hide Digits;
    }
  }

  lemma MinusRead(rest: string)
    ensures ValueOf("-" + rest) == 0 - Digits(rest, 0)
  {
    assert ("-" + rest)[0] == '-' && ("-" + rest)[1..] == rest;
    hide Digits;
  }

  lemma PlusRead(rest: string)
    ensures ValueOf("+" + rest) == Digits(rest, 0)
  {
    assert ("+" + rest)[0] == '+' && ("+" + rest)[1..] == rest;
    hide Digits;
  }

  lemma SpaceRead(rest: string)
    ensures ValueOf(" " + rest) == ValueOf(rest)
  {
    assert (" " + rest)[0] == ' ' && (" " + rest)[1..] == rest;
    hide Digits;
  }

  /** A sign and a number are read as the signed number. */
  lemma SignRead(sign: string, p: string, t: string)
    requires AllDigits(p) && (p != "" || t == Repeat(' ', |t|)) && (t == "" || !IsDigit(t[0]))
    requires sign == "" || sign == "-" || sign == "+" || sign == " "
    ensures ValueOf(sign + (p + t)) == if sign == "-" then 0 - Digits(p, 0) else Digits(p, 0)
  {
    EndsThere(p, t);
    UnsignedRead(p, t);
    hide ValueOf, Digits, AllDigits;
    MinusRead(p + t);
    PlusRead(p + t);
    SpaceRead(p + t);
    assert "" + (p + t) == p + t;
  }

  /** The same behind spaces. */
  lemma TextRead(left: nat, sign: string, p: string, t: string)
    requires AllDigits(p) && (p != "" || t == Repeat(' ', |t|)) && (t == "" || !IsDigit(t[0]))
    requires sign == "" || sign == "-" || sign == "+" || sign == " "
    ensures ValueOf(Repeat(' ', left) + (sign + (p + t))) == if sign == "-" then 0 - Digits(p, 0) else Digits(p, 0)
  {
    SignRead(sign, p, t);
    SpacesSkipped(left, sign + (p + t));
    hide Digits, AllDigits, IsDigit, Unspaced, Repeat;
  }

  lemma SignIs(negative: bool, c: Conversion)
    ensures var sign := Sign(true, negative, c);
            (sign == "" || sign == "-" || sign == "+" || sign == " ") && (sign == "-" <==> negative)
  {}

  /** The number n that atoi finds in a rendering. */
  lemma ReadBack(value: nat, negative: bool, c: Conversion) returns (n: nat)
    ensures ValueOf(Rendered(value, true, negative, DECIMAL, c)) == if negative then 0 - n else n
    ensures if Plain(value, c) then n == value else n < 1000
  {
    var sign, body := Sign(true, negative, c), Reverse(RevBuffer(value, DECIMAL, c));
    var pad := PadFor(value, negative, c);
    RenderedIs(value, negative, c);
    var left, zeros, right := if !c.minus && !c.zero then pad else 0, if c.zero then pad else 0, if c.minus then pad
        else 0;
    var p, tail := BufferRead(value, c, zeros);
    n := Digits(p, 0);
    SignIs(negative, c);
    BehindDigits(tail, right);
    TextRead(left, sign, p, tail + Repeat(' ', right));
    AssembledIs(c, pad, sign, body);
    hide *;
    Associative(p, tail, Repeat(' ', right));
  }

  function PadFor(value: nat, negative: bool, c: Conversion): nat {
    var used := |RevBuffer(value, DECIMAL, c)| + |Sign(true, negative, c)|;
    if c.width > used then c.width - used else 0
  }

  lemma RenderedIs(value: nat, negative: bool, c: Conversion)
    ensures Rendered(value, true, negative, DECIMAL, c) ==
            Assembled(c, PadFor(value, negative, c), Sign(true, negative, c), "", Reverse(RevBuffer(value, DECIMAL, c)))
  {
    hide RevBuffer, Reverse, Sign, Assembled;
  }

  lemma BehindDigits(tail: string, n: nat)
    requires tail == "" || tail[0] == ','
    ensures var t := tail + Repeat(' ', n);
            (t == "" || !IsDigit(t[0])) && (tail == "" ==> t == Repeat(' ', |t|))
  {}

  /** atoi reads back what %d prints, for every 32-bit value, width, precision and flags,
      exactly when there is no grouping or the number is too small for it. */
  lemma PrintedIsRead(v: int, c: Conversion)
    requires IsInt(v)
    ensures ValueOf(Rendered(if v < 0 then -v else v, true, v < 0, DECIMAL, c)) == v <==>
            !c.grouping || -1000 < v < 1000
    ensures IsInt(ValueOf(Rendered(if v < 0 then -v else v, true, v < 0, DECIMAL, c)))
  {
    var n := ReadBack(if v < 0 then -v else v, v < 0, c);
  }

  lemma AssembledIs(c: Conversion, pad: nat, sign: string, digits: string)
    ensures Assembled(c, pad, sign, "", digits) ==
            Repeat(' ', if !c.minus && !c.zero then pad else 0) +
            (sign + (Repeat('0', if c.zero then pad else 0) + digits + Repeat(' ', if c.minus then pad else 0)))
  {
    assert Repeat(' ', 0) == "" && Repeat('0', 0) == "";
  }

  /** The same for the two functions together. */
  method PrintAndRead(v: int, c: Conversion) returns (r: int)
    requires IsInt(v)
    ensures r == v <==> !c.grouping || -1000 < v < 1000
  {
    var o := new Output(null);
    FormatInteger(o, if v < 0 then -v else v, true, v < 0, DECIMAL, c);
    ghost var text := Rendered(if v < 0 then -v else v, true, v < 0, DECIMAL, c);
    PrintedIsRead(v, c);
    hide Rendered, ValueOf;
    assert o.out == text;
    r := Atoi(o.out);
  }

  // ---------------------------------------------------------------- asking for a conversion

  lemma OneFlag(on: bool, ch: char, s: string, c: Conversion)
    requires IsFlag(ch)
    ensures Flagged(Opt(on, ch) + s, c) == Flagged(s, if on then WithFlag(c, ch) else c)
    ensures Unflagged(Opt(on, ch) + s) == Unflagged(s)
  {
    if on {
      assert ([ch] + s)[0] == ch && ([ch] + s)[1..] == s;
    } else {
      assert "" + s == s;
    }
  }

  /** What stops the flags: anything that is none. */
  lemma NoFlag(s: string, c: Conversion)
    requires s == "" || !IsFlag(s[0])
    ensures Flagged(s, c) == c && Unflagged(s) == s
  {}

  /** A positive number does not start with the zero flag's character. */
  lemma {:induction false} LeadingDigit(value: nat, cnt: nat)
    requires value > 0
    ensures var r := RevDigits(value, DECIMAL, false, cnt);
            r != "" && IsDigit(Reverse(r)[0]) && Reverse(r)[0] != '0'
    decreases value
  {
    var digit, rest := DECIMAL.digits[value % 10], RevDigits(value / 10, DECIMAL, false, cnt + 1);
    DecimalDigit(value % 10);
    assert RevDigits(value, DECIMAL, false, cnt) == [digit] + rest;
    assert ([digit] + rest)[1..] == rest;
    assert Reverse([digit] + rest) == Reverse(rest) + [digit];
    if value / 10 > 0 {
      LeadingDigit(value / 10, cnt + 1);
    } else {
      assert value % 10 == value;
      assert rest == "";
    }
  }

  lemma DecimalRead(n: nat, t: string)
    requires t == "" || !IsDigit(t[0])
    ensures Digits(Decimal(n) + t, 0) == n && Undigited(Decimal(n) + t) == t
  {
    DigitsRead(n, 0);
    EndsThere(Decimal(n), t);
    UndigitedAll(Decimal(n), t);
  }

  lemma {:induction false} UndigitedAll(a: string, t: string)
    requires AllDigits(a) && (t == "" || !IsDigit(t[0]))
    ensures Undigited(a + t) == t
  {
    if a == "" {
      assert a + t == t;
    } else {
      assert (a + t)[0] == a[0] && (a + t)[1..] == a[1..] + t;
      UndigitedAll(a[1..], t);
    }
  }

  /** Neither a digit of the width nor what follows it is a flag or an asterisk. */
  lemma WidthStarts(n: nat, t: string)
    requires t == "" || (!IsFlag(t[0]) && t[0] != '*')
    ensures var s := Decimal(n) + t;
            s == "" || (!IsFlag(s[0]) && s[0] != '*')
  {
    if n > 0 {
      LeadingDigit(n, 0);
      assert (Decimal(n) + t)[0] == Decimal(n)[0];
    } else {
      assert Decimal(0) + t == t;
    }
  }

  /** The characters behind a directive that leave it alone: no digit, flag, point, asterisk or
      length modifier. */
  predicate EndsDirective(t: string) {
    t != "" && !IsDigit(t[0]) && !IsFlag(t[0]) && t[0] != '*' && t[0] != '.' &&
    t[0] != 'h' && t[0] != 'j' && t[0] != 'l' && t[0] != 't' && t[0] != 'z'
  }

  lemma FlagsParsed(c: Conversion, t: string)
    requires t == "" || !IsFlag(t[0])
    ensures var s := Opt(c.minus, '-') + Opt(c.plus, '+') + Opt(c.space, ' ') +
                     Opt(c.pound, '#') + Opt(c.zero, '0') + Opt(c.grouping, '\'') + t;
            Flagged(s, NO_FLAGS) == c.(width := 0, precision := -1) && Unflagged(s) == t
  {
    var t5 := Opt(c.grouping, '\'') + t;
    var t4 := Opt(c.zero, '0') + t5;
    var t3 := Opt(c.pound, '#') + t4;
    var t2 := Opt(c.space, ' ') + t3;
    var t1 := Opt(c.plus, '+') + t2;
    var c1 := if c.minus then WithFlag(NO_FLAGS, '-') else NO_FLAGS;
    var c2 := if c.plus then WithFlag(c1, '+') else c1;
    var c3 := if c.space then WithFlag(c2, ' ') else c2;
    var c4 := if c.pound then WithFlag(c3, '#') else c3;
    var c5 := if c.zero then WithFlag(c4, '0') else c4;
    var c6 := if c.grouping then WithFlag(c5, '\'') else c5;
    assert c6 == c.(width := 0, precision := -1);
    hide WithFlag, Flagged, Unflagged, Opt;
    OneFlag(c.minus, '-', t1, NO_FLAGS);
    OneFlag(c.plus, '+', t2, c1);
    OneFlag(c.space, ' ', t3, c2);
    OneFlag(c.pound, '#', t4, c3);
    OneFlag(c.zero, '0', t5, c4);
    OneFlag(c.grouping, '\'', t, c5);
    NoFlag(t, c6);
    Nested(Opt(c.minus, '-'), Opt(c.plus, '+'), Opt(c.space, ' '), Opt(c.pound, '#'), Opt(c.zero, '0'),
        Opt(c.grouping, '\''), t);
  }

  lemma Nested(a: string, b: string, c: string, d: string, e: string, f: string, t: string)
    ensures a + b + c + d + e + f + t == a + (b + (c + (d + (e + (f + t)))))
  {
    Associative(a + b + c + d + e, f, t);
    Associative(a + b + c + d, e, f + t);
    Associative(a + b + c, d, e + (f + t));
    Associative(a + b, c, d + (e + (f + t)));
    Associative(a, b, c + (d + (e + (f + t))));
  }

  /** Parsing gives back the conversion that was asked for, and stops right behind it. */
  lemma AskedIsParsed(c: Conversion, t: string, args: nat -> int)
    requires Askable(c) && EndsDirective(t)
    ensures ParsedOf(Asked(c) + t, args) == Parsed(c, IntKind, t, 0)
  {
    var tail := (if c.precision < 0 then "" else "." + Decimal(c.precision)) + t;
    var number := Decimal(c.width) + tail;
    PrecisionParsed(c, t);
    WidthStarts(c.width, tail);
    DecimalRead(c.width, tail);
    FlagsParsed(c, number);
    AskedIs(c, t);
    KindParsed(c, t);
    hide Flagged, Unflagged, Undigited, Digits, Decimal, IsFlag, IsDigit, WithKind;
  }

  lemma AskedIs(c: Conversion, t: string)
    ensures var tail := (if c.precision < 0 then "" else "." + Decimal(c.precision)) + t;
            Asked(c) + t ==
            Opt(c.minus, '-') + Opt(c.plus, '+') + Opt(c.space, ' ') +
            Opt(c.pound, '#') + Opt(c.zero, '0') + Opt(c.grouping, '\'') +
            (Decimal(c.width) + tail)
  {
    var flags := Opt(c.minus, '-') + Opt(c.plus, '+') + Opt(c.space, ' ') +
                 Opt(c.pound, '#') + Opt(c.zero, '0') + Opt(c.grouping, '\'');
    var precision := if c.precision < 0 then "" else "." + Decimal(c.precision);
    assert Asked(c) == flags + (Decimal(c.width) + precision);
    hide *;
    Associative(flags, Decimal(c.width) + precision, t);
    Associative(Decimal(c.width), precision, t);
  }

  /** The precision's part of what was asked for. */
  lemma PrecisionParsed(c: Conversion, t: string)
    requires c.precision >= -1 && EndsDirective(t)
    ensures var tail := (if c.precision < 0 then "" else "." + Decimal(c.precision)) + t;
            tail != "" && !IsFlag(tail[0]) && !IsDigit(tail[0]) && tail[0] != '*' &&
            if c.precision < 0 then tail[0] != '.' && tail == t
            else tail[0] == '.' && tail[1..] != "" && tail[1..][0] != '*' && Digits(tail[1..], 0) == c.precision &&
                 Undigited(tail[1..]) == t
  {
    if c.precision < 0 {
      assert "" + t == t;
    } else {
      var tail := "." + Decimal(c.precision) + t;
      assert tail[1..] == Decimal(c.precision) + t;
      DecimalRead(c.precision, t);
      WidthStarts(c.precision, t);
    }
  }

  lemma KindParsed(c: Conversion, t: string)
    requires EndsDirective(t)
    ensures forall n :: WithKind(Parsed(c, IntKind, t, n)) == Parsed(c, IntKind, t, n)
  {}
}
