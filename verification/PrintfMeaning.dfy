/** What an integer conversion's output says, and what the characters of a directive ask for,
    read off the characters themselves. */
module PrintfMeaning {
  import opened Printf
  import Arithmetic

  // ---------------------------------------------------------------- numerals

  /** The value of a digit, by its character code; -1 for other characters. */
  function CharValue(ch: char): int {
    if '0' <= ch <= '9' then ch as int - '0' as int
    else if 'a' <= ch <= 'f' then ch as int - 'a' as int + 10
    else if 'A' <= ch <= 'F' then ch as int - 'A' as int + 10
    else -1
  }

  /** A digit of this base, in the right case. */
  predicate IsDigitOf(ch: char, base: nat, upper: bool) {
    0 <= CharValue(ch) < base && ('a' <= ch <= 'f' ==> !upper) && ('A' <= ch <= 'F' ==> upper)
  }

  /** The number that s stands for, the most significant digit first and commas passed over. */
  function Numeral(s: string, base: nat): int {
    if s == "" then 0
    else
      var n := Numeral(s[..|s| - 1], base);
      if s[|s| - 1] == ',' then n else base * n + CharValue(s[|s| - 1])
  }

  /** The conversions' bases: the number, the case of the letters, the digits in a group. */
  predicate IsNotation(b: Base, base: nat, upper: bool, group: nat) {
    (b == DECIMAL && base == 10 && !upper && group == 3) || (b == OCTAL && base == 8 && !upper && group == 3) ||
    (b == HEX && base == 16 && !upper && group == 4) || (b == HEX_UPPER && base == 16 && upper && group == 4)
  }

  lemma DigitTable(b: Base, base: nat, upper: bool, group: nat, k: nat)
    requires IsNotation(b, base, upper, group) && k < base
    ensures IsBase(b) && b.base == base && b.group == group && k < |b.digits| &&
            CharValue(b.digits[k]) == k && IsDigitOf(b.digits[k], base, upper) && (b.digits[k] == '0' <==> k == 0)
  {}

  lemma {:induction false} ReverseAt(s: string, i: nat)
    requires i < |s|
    ensures Reverse(s)[i] == s[|s| - 1 - i]
  {
    if i < |s| - 1 { ReverseAt(s[1..], i); }
  }

  lemma OneMoreDigit(s: string, ch: char, base: nat)
    ensures Numeral(s + [ch], base) == if ch == ',' then Numeral(s, base) else base * Numeral(s, base) + CharValue(ch)
  {
    assert (s + [ch])[..|s|] == s;
  }

  lemma NotationFacts(b: Base, base: nat, upper: bool, group: nat)
    requires IsNotation(b, base, upper, group)
    ensures IsBase(b) && b.base == base && base >= 8 && group > 1
  {}

  lemma Divided(value: nat, base: nat)
    requires base >= 8
    ensures value == base * (value / base) + value % base && (value > 0 ==> value / base < value)
    ensures value / base == 0 ==> value % base == value
  {
    Arithmetic.MulMono(8, base, value / base);
  }

  lemma Unfold(value: nat, b: Base, base: nat, upper: bool, group: nat, grouping: bool, cnt: nat)
    requires IsNotation(b, base, upper, group)
    ensures IsBase(b) && value % base < |b.digits|
    ensures value == 0 ==> RevDigits(value, b, grouping, cnt) == ""
    ensures value > 0 ==>
      RevDigits(value, b, grouping, cnt) ==
      Comma(grouping && cnt > 0 && cnt % group == 0) + [b.digits[value % base]] +
      RevDigits(value / base, b, grouping, cnt + 1)
    ensures CharValue(b.digits[value % base]) == value % base && IsDigitOf(b.digits[value % base], base, upper) &&
            b.digits[value % base] != ',' && (b.digits[value % base] == '0' <==> value % base == 0)
  {
    DigitTable(b, base, upper, group, value % base);
    hide IsDigitOf;
  }

  function Comma(on: bool): string { if on then "," else "" }

  lemma ReadOneMore(comma: bool, digit: char, rest: string, base: nat)
    requires digit != ','
    ensures Numeral(Reverse(Comma(comma) + [digit] + rest), base) ==
            base * Numeral(Reverse(rest), base) + CharValue(digit)
  {
    var front := Comma(comma) + [digit];
    ReverseAppend(front, rest);
    assert Reverse(front) == [digit] + Comma(comma) by {
      ReverseAppend(Comma(comma), [digit]);
      assert Reverse([digit]) == [digit] && Reverse(Comma(comma)) == Comma(comma);
    }
    OneMoreDigit(Reverse(rest), digit, base);
    OneMoreDigit(Reverse(rest) + [digit], ',', base);
    hide Numeral, Reverse, CharValue;
    if comma {
      assert Reverse(rest) + Reverse(front) == Reverse(rest) + [digit] + [','];
    } else {
      assert Reverse(rest) + Reverse(front) == Reverse(rest) + [digit];
    }
  }

  /** The digits read as the value. */
  lemma {:induction false} DigitsValue(value: nat, b: Base, base: nat, upper: bool, group: nat, grouping: bool,
                                       cnt: nat)
    requires IsNotation(b, base, upper, group)
    ensures IsBase(b) && Numeral(Reverse(RevDigits(value, b, grouping, cnt)), base) == value
    decreases value
  {
    hide *;
    NotationFacts(b, base, upper, group);
    Unfold(value, b, base, upper, group, grouping, cnt);
    NoNumeral(base);
    Divided(value, base);
    if value > 0 {
      DigitsValue(value / base, b, base, upper, group, grouping, cnt + 1);
      ReadOneMore(grouping && cnt > 0 && cnt % group == 0, b.digits[value % base],
                  RevDigits(value / base, b, grouping, cnt + 1), base);
    }
  }

  lemma NoNumeral(base: nat)
    ensures Numeral(Reverse(""), base) == 0
  {}

  /** The place, counted from the right and within a group and its comma, at which the digits
      continue when cnt of them are there. */
  function Place(cnt: nat, group: nat): nat
    requires group > 1
  {
    if cnt == 0 then 0 else if cnt % group == 0 then group else cnt % group
  }

  lemma NextPlace(cnt: nat, group: nat)
    requires group > 1
    ensures Place(cnt + 1, group) == if cnt > 0 && cnt % group == 0 then 1 else Place(cnt, group) + 1
    ensures Place(cnt, group) <= group && (Place(cnt, group) == group <==> cnt > 0 && cnt % group == 0)
  {
    var q, r := cnt / group, cnt % group;
    assert cnt == q * group + r;
    if r + 1 < group {
      Remainder(q, group, r + 1);
    } else {
      assert cnt + 1 == (q + 1) * group;
      Remainder(q + 1, group, 0);
    }
  }

  lemma Remainder(q: int, n: int, r: int)
    requires 0 <= r < n
    ensures (q * n + r) % n == r
  {
    var d := (q * n + r) / n;
    assert q * n + r == d * n + (q * n + r) % n;
    if d < q { Multiples(d, q, n); }
    if d > q { Multiples(q, d, n); }
  }

  lemma Multiples(d: int, q: int, n: int)
    requires d < q && n > 0
    ensures d * n + n <= q * n
  {
    Arithmetic.MulMono(d + 1, q, n);
    assert (d + 1) * n == d * n + n;
  }

  /** Character k behind place p is a comma. */
  predicate CommaAt(p: nat, k: nat, group: nat) { (p + k) % (group + 1) == group }

  /** Every character is a digit of the base or a comma; the commas stand behind each group;
      and the leading digit is not zero. */
  ghost predicate WellGrouped(s: string, base: nat, upper: bool, grouping: bool, p: nat, group: nat) {
    (forall k :: 0 <= k < |s| ==>
       (s[k] == ',' <==> grouping && CommaAt(p, k, group)) && (s[k] == ',' || IsDigitOf(s[k], base, upper))) &&
    (s != "" ==> s[|s| - 1] != ',' && s[|s| - 1] != '0')
  }

  lemma {:induction false} DigitsGrouped(value: nat, b: Base, base: nat, upper: bool, group: nat, grouping: bool,
                                         cnt: nat)
    requires IsNotation(b, base, upper, group)
    ensures IsBase(b) && group > 1
    ensures WellGrouped(RevDigits(value, b, grouping, cnt), base, upper, grouping, Place(cnt, group), group)
    decreases value
  {
    hide *;
    NotationFacts(b, base, upper, group);
    Unfold(value, b, base, upper, group, grouping, cnt);
    NoneGrouped(base, upper, grouping, Place(cnt, group), group);
    Divided(value, base);
    if value == 0 {
      return;
    }
    var rest := RevDigits(value / base, b, grouping, cnt + 1);
    var digit := b.digits[value % base];
    assert value / base == 0 <==> rest == "";
    DigitsGrouped(value / base, b, base, upper, group, grouping, cnt + 1);
    NextPlace(cnt, group);
    OneDigitGrouped(grouping && cnt > 0 && cnt % group == 0, digit, rest, base, upper, grouping, Place(cnt, group),
                    Place(cnt + 1, group), group);
  }

  lemma NoneGrouped(base: nat, upper: bool, grouping: bool, p: nat, group: nat)
    ensures WellGrouped("", base, upper, grouping, p, group)
  {}

  lemma OneDigitGrouped(comma: bool, digit: char, rest: string, base: nat, upper: bool, grouping: bool, p: nat, p': nat,
                        group: nat)
    requires group > 1 && p <= group && (comma <==> grouping && p == group) && p' == if p == group then 1 else p + 1
    requires digit != ',' && IsDigitOf(digit, base, upper) && (rest == "" ==> digit != '0')
    requires WellGrouped(rest, base, upper, grouping, p', group)
    ensures WellGrouped(Comma(comma) + [digit] + rest, base, upper, grouping, p, group)
  {
    var front := Comma(comma) + [digit];
    var s := front + rest;
    forall k | 0 <= k < |s|
      ensures s[k] == ',' <==> grouping && CommaAt(p, k, group)
      ensures s[k] == ',' || IsDigitOf(s[k], base, upper)
    {
      if k >= |front| {
        assert s[k] == rest[k - |front|];
        if grouping { SamePlace(p, k, p', k - |front|, group); }
      } else if grouping {
        FirstPlaces(p, k, group);
      }
    }
    hide IsDigitOf;
    if rest != "" { assert s[|s| - 1] == rest[|rest| - 1]; }
  }

  lemma SamePlace(p: nat, k: nat, p': nat, k': nat, group: nat)
    requires group > 1 && p <= group
    requires if p == group then p' == 1 && k == k' + 2 else p' == p + 1 && k == k' + 1
    ensures CommaAt(p, k, group) == CommaAt(p', k', group)
  {
    if p == group {
      assert p + k == (p' + k') + (group + 1);
      Shift(p' + k', group + 1);
    }
  }

  lemma Shift(x: nat, n: nat)
    requires n > 0
    ensures (x + n) % n == x % n
  {
    var q, r := x / n, x % n;
    assert x == q * n + r && x + n == (q + 1) * n + r;
    Remainder(q + 1, n, r);
  }

  lemma FirstPlaces(p: nat, k: nat, group: nat)
    requires group > 1 && p <= group && k < 2 && (k == 1 ==> p == group)
    ensures CommaAt(p, k, group) <==> p == group && k == 0
  {
    if k == 1 { Shift(0, group + 1); }
  }

  // ---------------------------------------------------------------- an integer conversion

  ghost predicate All(s: string, ch: char) { forall i :: 0 <= i < |s| ==> s[i] == ch }

  /** The larger one. */
  function Max(m: int, n: int): int { if m < n then n else m }

  /** The parts of the output, from left to right. */
  datatype Parts = Parts(spaces: string, sign: string, prefix: string, pad: string, zeros: string, digits: string,
                         behind: string)

  ghost function Text(t: Parts): string {
    t.spaces + t.sign + t.prefix + t.pad + t.zeros + t.digits + t.behind
  }

  /** The sign is there for signed conversions only: a minus, or what the flags ask for. */
  ghost predicate SignOk(sign: string, isSigned: bool, negative: bool, c: Conversion) {
    sign == if isSigned && negative then "-" else if isSigned && c.plus then "+" else if isSigned && c.space then " "
    else ""
  }

  /** The # flag: 0x or 0X in front of a hexadecimal number that is not zero. */
  ghost predicate PrefixOk(prefix: string, value: nat, base: nat, upper: bool, c: Conversion) {
    prefix == if c.pound && value > 0 && base == 16 then if upper then "0X" else "0x" else ""
  }

  /** Zeros make up for the precision, one if none is given and 63 at most; and the # flag has
      an octal number start with one. */
  ghost predicate ZerosOk(zeros: string, digits: string, base: nat, c: Conversion) {
    var wanted := if c.precision < 0 then 1 else if c.precision < 63 then c.precision else 63;
    All(zeros, '0') &&
    |zeros| == Max(if c.pound && base == 8 then 1 else 0, wanted - |digits|)
  }

  /** The digits stand for the value, without leading zeros and with the commas asked for. */
  ghost predicate DigitsOk(digits: string, value: nat, base: nat, upper: bool, group: nat, c: Conversion) {
    Numeral(digits, base) == value && (value == 0 <==> digits == "") &&
    (digits != "" ==> digits[0] != '0' && digits[0] != ',') &&
    forall i :: 0 <= i < |digits| ==>
      (digits[i] == ',' <==> c.grouping && (|digits| - 1 - i) % (group + 1) == group) &&
      (digits[i] == ',' || IsDigitOf(digits[i], base, upper))
  }

  /** What is missing from the width goes where the flags say: spaces behind the number, or
      zeros in front of it, or else spaces in front of it all. */
  ghost predicate PadsOk(t: Parts, c: Conversion) {
    var missing := Max(0, c.width - (|t.sign| + |t.prefix| + |t.zeros| + |t.digits|));
    All(t.spaces, ' ') && All(t.pad, '0') && All(t.behind, ' ') &&
    |t.spaces| == (if c.minus || c.zero then 0 else missing) &&
    |t.pad| == (if c.zero then missing else 0) && |t.behind| == (if c.minus then missing else 0)
  }

  /** The meaning of what format_integer puts out, in all four notations. */
  lemma RenderedMeans(value: nat, isSigned: bool, negative: bool, b: Base, base: nat, upper: bool, group: nat,
                      c: Conversion)
    returns (t: Parts)
    requires IsNotation(b, base, upper, group)
    ensures IsBase(b) && Rendered(value, isSigned, negative, b, c) == Text(t)
    ensures SignOk(t.sign, isSigned, negative, c) && PrefixOk(t.prefix, value, base, upper, c)
    ensures ZerosOk(t.zeros, t.digits, base, c) && DigitsOk(t.digits, value, base, upper, group, c)
    ensures PadsOk(t, c)
  {
    hide *;
    NotationFacts(b, base, upper, group);
    var rev := RevDigits(value, b, c.grouping, 0);
    var zeros := ZerosOf(value, b, base, upper, group, c);
    DigitsMean(value, b, base, upper, group, c);
    PrefixIs(value, b, base, upper, group, c);
    SignIs(isSigned, negative, c);
    var sign, prefix := Sign(isSigned, negative, c), PrefixOf(value, b, c);
    var missing := Max(0, c.width - (|RevBuffer(value, b, c)| + |prefix| + |sign|));
    RenderedParts(value, isSigned, negative, b, c);
    t := Parts(Repeat(' ', if c.minus || c.zero then 0 else missing), sign, prefix,
               Repeat('0', if c.zero then missing else 0), zeros, Reverse(rev),
               Repeat(' ', if c.minus then missing else 0));
    AssembledParts(c, missing, t);
    PadsAre(c, missing, t);
  }

  lemma SignIs(isSigned: bool, negative: bool, c: Conversion)
    ensures SignOk(Sign(isSigned, negative, c), isSigned, negative, c)
  {}

  function PrefixOf(value: nat, b: Base, c: Conversion): string {
    if c.pound && value > 0 && b.x != "" then "0" + b.x else ""
  }

  lemma RenderedParts(value: nat, isSigned: bool, negative: bool, b: Base, c: Conversion)
    requires IsBase(b)
    ensures var sign, prefix := Sign(isSigned, negative, c), PrefixOf(value, b, c);
            var missing := Max(0, c.width - (|RevBuffer(value, b, c)| + |prefix| + |sign|));
            missing >= 0 &&
            Rendered(value, isSigned, negative, b, c) ==
            Assembled(c, missing, sign, prefix, Reverse(RevBuffer(value, b, c)))
  {
    hide RevBuffer, Reverse, Assembled, Sign;
  }

  lemma PadsAre(c: Conversion, missing: nat, t: Parts)
    requires missing == Max(0, c.width - (|t.digits| + |t.zeros| + |t.prefix| + |t.sign|))
    requires t.spaces == Repeat(' ', if c.minus || c.zero then 0 else missing)
    requires t.pad == Repeat('0', if c.zero then missing else 0)
    requires t.behind == Repeat(' ', if c.minus then missing else 0)
    ensures PadsOk(t, c)
  {}

  lemma PrefixIs(value: nat, b: Base, base: nat, upper: bool, group: nat, c: Conversion)
    requires IsNotation(b, base, upper, group)
    ensures PrefixOk(PrefixOf(value, b, c), value, base, upper, c)
  {}

  lemma AssembledParts(c: Conversion, missing: nat, t: Parts)
    requires t.spaces == Repeat(' ', if c.minus || c.zero then 0 else missing)
    requires t.pad == Repeat('0', if c.zero then missing else 0)
    requires t.behind == Repeat(' ', if c.minus then missing else 0)
    ensures Assembled(c, missing, t.sign, t.prefix, t.zeros + t.digits) == Text(t)
  {
    assert Repeat(' ', 0) == "" && Repeat('0', 0) == "";
    var front := t.spaces + t.sign + t.prefix + t.pad;
    hide Repeat;
    Associative(front, t.zeros, t.digits);
  }

  /** The zeros between the padding and the digits. */
  lemma ZerosOf(value: nat, b: Base, base: nat, upper: bool, group: nat, c: Conversion) returns (zeros: string)
    requires IsNotation(b, base, upper, group)
    ensures IsBase(b) && Reverse(RevBuffer(value, b, c)) == zeros + Reverse(RevDigits(value, b, c.grouping, 0))
    ensures ZerosOk(zeros, Reverse(RevDigits(value, b, c.grouping, 0)), base, c)
    ensures |RevBuffer(value, b, c)| == |zeros| + |Reverse(RevDigits(value, b, c.grouping, 0))|
  {
    assert IsBase(b) && b.base == base;
    DigitsGrouped(value, b, base, upper, group, c.grouping, 0);
    LastNotZero(RevDigits(value, b, c.grouping, 0), base, upper, c.grouping, Place(0, group), group);
    hide IsNotation, RevDigits, IsDigitOf, Reverse, WellGrouped;
    zeros := BufferZeros(value, b, c);
    ReverseAppend(RevDigits(value, b, c.grouping, 0), zeros);
    ReverseZeros(|zeros|);
    assert zeros == Repeat('0', |zeros|);
  }

  lemma LastNotZero(s: string, base: nat, upper: bool, grouping: bool, p: nat, group: nat)
    requires WellGrouped(s, base, upper, grouping, p, group)
    ensures s != "" ==> s[|s| - 1] != '0'
  {}

  lemma BufferZeros(value: nat, b: Base, c: Conversion) returns (zeros: string)
    requires IsBase(b)
    requires var d := RevDigits(value, b, c.grouping, 0);
             d != "" ==> d[|d| - 1] != '0'
    ensures RevBuffer(value, b, c) == RevDigits(value, b, c.grouping, 0) + zeros
    ensures ZerosOk(zeros, RevDigits(value, b, c.grouping, 0), b.base, c)
  {
    var digits := RevDigits(value, b, c.grouping, 0);
    hide RevDigits;
    var precision := if c.precision < 0 then 1 else c.precision;
    var wanted := if precision < BUF_SIZE - 1 then precision else BUF_SIZE - 1;
    var n := if |digits| < wanted then wanted - |digits| else 0;
    var filled := digits + Repeat('0', n);
    assert n == 0 ==> filled == digits;
    assert n > 0 ==> filled[|filled| - 1] == '0';
    zeros := Repeat('0', n);
    if c.pound && b.base == 8 && n == 0 {
      zeros := "0";
      assert RevBuffer(value, b, c) == filled + "0";
    } else {
      assert RevBuffer(value, b, c) == filled;
    }
  }

  lemma DigitsMean(value: nat, b: Base, base: nat, upper: bool, group: nat, c: Conversion)
    requires IsNotation(b, base, upper, group)
    ensures IsBase(b) && DigitsOk(Reverse(RevDigits(value, b, c.grouping, 0)), value, base, upper, group, c)
  {
    DigitsValue(value, b, base, upper, group, c.grouping, 0);
    DigitsGrouped(value, b, base, upper, group, c.grouping, 0);
    assert value == 0 <==> RevDigits(value, b, c.grouping, 0) == "";
    assert Place(0, group) == 0;
    hide IsNotation, RevDigits, IsBase;
    ReversedGrouped(RevDigits(value, b, c.grouping, 0), value, base, upper, group, c);
  }

  lemma ReversedGrouped(rev: string, value: nat, base: nat, upper: bool, group: nat, c: Conversion)
    requires WellGrouped(rev, base, upper, c.grouping, 0, group) && (value == 0 <==> rev == "")
    requires Numeral(Reverse(rev), base) == value
    ensures DigitsOk(Reverse(rev), value, base, upper, group, c)
  {
    var digits := Reverse(rev);
    hide Numeral, IsDigitOf, Reverse;
    forall i | 0 <= i < |digits|
      ensures digits[i] == rev[|digits| - 1 - i]
    {
      ReverseAt(rev, i);
    }
    forall i | 0 <= i < |digits|
      ensures digits[i] == ',' <==> c.grouping && (|digits| - 1 - i) % (group + 1) == group
      ensures digits[i] == ',' || IsDigitOf(digits[i], base, upper)
    {
      var k := |digits| - 1 - i;
      assert rev[k] == ',' <==> c.grouping && CommaAt(0, k, group);
    }
  }

  // ---------------------------------------------------------------- a directive

  /** A width or precision in a directive: its digits, none at all included, or an asterisk. */
  datatype Number = Written(digits: string) | Star

  ghost predicate IsNumber(n: Number) { n.Written? ==> AllDigits(n.digits) }

  function NumberText(n: Number): string { if n.Star? then "*" else n.digits }

  /** Its value: the number written, or the argument. */
  function NumberValue(n: Number, arg: int): int { if n.Star? then arg else Numeral(n.digits, 10) }

  predicate AllFlags(s: string) {
    forall i :: 0 <= i < |s| ==> s[i] in "-+ #0'"
  }

  /** The length modifiers and what they ask for. */
  predicate IsModifier(s: string, kind: Kind) {
    (s == "hh" && kind == CharKind) || (s == "h" && kind == ShortKind) || (s == "" && kind == IntKind) ||
    (s == "j" && kind == IntMax) || (s == "l" && kind == LongKind) || (s == "ll" && kind == LongLong) ||
    (s == "t" && kind == PtrDiff) || (s == "z" && kind == SizeT)
  }

  /** What parse_conversion makes of a directive: flags in any order and any number, a width,
      a precision behind a point, a length modifier, and the character that tells the
      conversion. */
  lemma DirectiveMeans(flags: string, width: Number, point: bool, precision: Number, modifier: string, kind: Kind,
                       tail: string, args: nat -> int)
    requires AllFlags(flags) && IsNumber(width) && IsNumber(precision) && IsModifier(modifier, kind)
    requires width.Written? && width.digits != "" ==> width.digits[0] != '0'
    requires EndsDirective(tail)
    ensures var p := ParsedOf(flags + (NumberText(width) + ((if point then "." + NumberText(precision) else "") +
                                                            (modifier + tail))), args);
            var first, second := args(0), args(if width.Star? then 1 else 0);
            p.rest == tail && p.kind == kind &&
            p.used == (if width.Star? then 1 else 0) + (if point && precision.Star? then 1 else 0) &&
            p.c.plus == ('+' in flags) && p.c.space == (' ' in flags && '+' !in flags) &&
            p.c.pound == ('#' in flags) && p.c.grouping == ('\'' in flags) &&
            p.c.minus == ('-' in flags || NumberValue(width, first) < 0) &&
            p.c.width == (if NumberValue(width, first) < 0 then -NumberValue(width, first)
                          else NumberValue(width, first)) &&
            p.c.precision == (if point then Max(-1, NumberValue(precision, second)) else -1) &&
            p.c.zero == ('0' in flags && '-' !in flags && p.c.precision == -1)
  {
    hide *;
    var t3 := modifier + tail;
    var t2 := (if point then "." + NumberText(precision) else "") + t3;
    var t1 := NumberText(width) + t2;
    Starts(width, point, precision, modifier, kind, tail);
    FlagsRead(flags, t1, NO_FLAGS);
    NoFlags();
    WithFlagsIs(NO_FLAGS, flags);
    var c := Settled(Flagged(flags + t1, NO_FLAGS));
    SettledIs(Flagged(flags + t1, NO_FLAGS));
    var p0 := Parsed(c, IntKind, t1, 0);
    WidthRead(p0, width, t2, args);
    var p1 := WithWidth(p0, args);
    PrecisionRead(p1, point, precision, t3, args);
    var p2 := WithPrecision(p1, args);
    KindRead(p2, modifier, kind, tail);
    ParsedIs(flags + t1, args);
  }

  lemma ParsedIs(s: string, args: nat -> int)
    ensures ParsedOf(s, args) ==
            WithKind(WithPrecision(WithWidth(Parsed(Settled(Flagged(s, NO_FLAGS)), IntKind, Unflagged(s), 0), args),
            args))
  {}

  lemma WithFlagsIs(c: Conversion, flags: string)
    ensures WithFlags(c, flags) ==
            c.(minus := c.minus || '-' in flags, plus := c.plus || '+' in flags, space := c.space || ' ' in flags,
               pound := c.pound || '#' in flags, zero := c.zero || '0' in flags,
               grouping := c.grouping || '\'' in flags)
  {}

  lemma NoFlags()
    ensures NO_FLAGS == Conversion(false, false, false, false, false, false, 0, -1)
  {}

  lemma SettledIs(c: Conversion)
    ensures Settled(c) == c.(zero := c.zero && !c.minus, space := c.space && !c.plus)
  {}

  /** What follows the flags, the width and the precision is none of them. */
  lemma Starts(width: Number, point: bool, precision: Number, modifier: string, kind: Kind, tail: string)
    requires IsNumber(width) && IsNumber(precision) && IsModifier(modifier, kind) && EndsDirective(tail)
    requires width.Written? && width.digits != "" ==> width.digits[0] != '0'
    ensures var t3 := modifier + tail;
            var t2 := (if point then "." + NumberText(precision) else "") + t3;
            var t1 := NumberText(width) + t2;
            t1 != "" && !IsFlag(t1[0]) && t2 != "" && !IsDigit(t2[0]) && t2[0] != '*' && (t2[0] == '.' <==> point) &&
            t3 != "" && !IsDigit(t3[0]) && t3[0] != '*'
  {
    var t3 := modifier + tail;
    assert t3[0] == if modifier == "" then tail[0] else modifier[0];
    var t2 := (if point then "." + NumberText(precision) else "") + t3;
    if point { assert t2[0] == '.'; } else { assert t2 == t3; }
    var t1 := NumberText(width) + t2;
    if NumberText(width) == "" { assert t1 == t2; } else { assert t1[0] == NumberText(width)[0]; }
  }

  /** c with the flags that these characters stand for. */
  function WithFlags(c: Conversion, flags: string): Conversion {
    c.(minus := c.minus || '-' in flags, plus := c.plus || '+' in flags, space := c.space || ' ' in flags,
       pound := c.pound || '#' in flags, zero := c.zero || '0' in flags, grouping := c.grouping || '\'' in flags)
  }

  lemma {:induction false} FlagsRead(flags: string, t: string, c: Conversion)
    requires AllFlags(flags) && (t == "" || !IsFlag(t[0]))
    ensures Unflagged(flags + t) == t && Flagged(flags + t, c) == WithFlags(c, flags)
  {
    if flags == "" {
      assert flags + t == t;
    } else {
      var ch, rest := flags[0], flags[1..];
      assert (flags + t)[0] == ch && (flags + t)[1..] == rest + t;
      assert flags == [ch] + rest;
      FlagsRead(rest, t, WithFlag(c, ch));
      FirstFlag(c, ch, rest);
      assert IsFlag(ch);
      hide WithFlag, WithFlags, IsFlag, AllFlags;
    }
  }

  lemma FirstFlag(c: Conversion, ch: char, rest: string)
    requires ch in "-+ #0'"
    ensures WithFlags(WithFlag(c, ch), rest) == WithFlags(c, [ch] + rest)
  {
    var s := [ch] + rest;
    assert forall x :: x in s <==> x == ch || x in rest;
  }

  lemma {:induction false} NumeralIs(s: string)
    requires AllDigits(s)
    ensures Digits(s, 0) == Numeral(s, 10) >= 0
  {
    if s != "" {
      var front, last := s[..|s| - 1], s[|s| - 1];
      NumeralIs(front);
      DigitsThrough(front, [last], 0);
      LastDigit(last, Digits(front, 0));
      assert s == front + [last];
      hide Digits;
    }
  }

  /** Written digits are read up to what follows them. */
  lemma NumberRead(s: string, t: string)
    requires AllDigits(s) && (t == "" || !IsDigit(t[0]))
    ensures Digits(s + t, 0) == Numeral(s, 10) >= 0 && Undigited(s + t) == t
  {
    NumeralIs(s);
    DigitsThrough(s, t, 0);
    UndigitedAll(s, t);
    hide Numeral;
  }

  lemma WidthRead(p: Parsed, width: Number, t: string, args: nat -> int)
    requires IsNumber(width) && p.rest == NumberText(width) + t && t != "" && !IsDigit(t[0]) && t[0] != '*'
    ensures var w := NumberValue(width, args(p.used));
            WithWidth(p, args) ==
            Parsed(p.c.(width := if w < 0 then -w else w, minus := p.c.minus || w < 0), p.kind, t,
                   p.used + if width.Star? then 1 else 0)
  {
    if width.Star? {
      assert p.rest[0] == '*' && p.rest[1..] == t;
    } else {
      NumberRead(width.digits, t);
      if width.digits == "" { assert p.rest == t; } else { assert p.rest[0] == width.digits[0]; }
      hide Digits, Numeral;
    }
  }

  lemma PrecisionRead(p: Parsed, point: bool, precision: Number, t: string, args: nat -> int)
    requires IsNumber(precision) && p.rest == (if point then "." + NumberText(precision) else "") + t
    requires t != "" && !IsDigit(t[0]) && t[0] != '*' && (p.rest[0] == '.' <==> point)
    ensures var w := if point then Max(-1, NumberValue(precision, args(p.used))) else -1;
            WithPrecision(p, args) ==
            Parsed(p.c.(precision := w, zero := p.c.zero && w == -1), p.kind, t,
                   p.used + if point && precision.Star? then 1 else 0)
  {
    if point {
      var rest := p.rest[1..];
      assert rest == NumberText(precision) + t;
      if precision.Star? {
        assert rest[0] == '*' && rest[1..] == t;
      } else {
        NumberRead(precision.digits, t);
        if precision.digits == "" { assert rest == t; } else { assert rest[0] == precision.digits[0]; }
        hide Digits, Numeral;
      }
    } else {
      assert p.rest == t;
    }
  }

  lemma KindRead(p: Parsed, modifier: string, kind: Kind, tail: string)
    requires IsModifier(modifier, kind) && EndsDirective(tail) && p.rest == modifier + tail && p.kind == IntKind
    ensures WithKind(p) == p.(kind := kind, rest := tail)
  {
    if modifier == "" {
      assert p.rest == tail;
    } else if |modifier| == 1 {
      assert p.rest[0] == modifier[0] && p.rest[1] == tail[0] && p.rest[1..] == tail;
    } else {
      assert p.rest[0] == modifier[0] && p.rest[1] == modifier[1] && p.rest[2..] == tail;
    }
  }

  // ---------------------------------------------------------------- atoi

  predicate AllSpace(s: string) {
    forall i :: 0 <= i < |s| ==> s[i] == ' ' || 9 <= s[i] as int <= 13
  }

  /** What atoi reads: past white space and one sign, the decimal number up to the first other
      character. */
  lemma NumberMeans(space: string, sign: string, digits: string, tail: string)
    requires AllSpace(space) && (sign == "" || sign == "-" || sign == "+") && AllDigits(digits)
    requires tail == "" || (!('0' <= tail[0] <= '9') && (sign == "" && digits == "" ==>
                            tail[0] != '-' && tail[0] != '+' && !AllSpace(tail[..1])))
    ensures ValueOf(space + (sign + (digits + tail))) ==
            if sign == "-" then -Numeral(digits, 10) else Numeral(digits, 10)
  {
    var t := sign + (digits + tail);
    NumberRead(digits, tail);
    SignFirst(sign, digits, tail);
    hide Digits, Numeral;
    if sign == "" { assert t == digits + tail; } else { assert t[0] == sign[0] && t[1..] == digits + tail; }
    SpaceRead(space, t);
  }

  lemma SignFirst(sign: string, digits: string, tail: string)
    requires (sign == "" || sign == "-" || sign == "+") && AllDigits(digits)
    requires tail == "" || (!('0' <= tail[0] <= '9') && (sign == "" && digits == "" ==>
                            tail[0] != '-' && tail[0] != '+' && !AllSpace(tail[..1])))
    ensures var t := sign + (digits + tail);
            t == "" || (!IsSpace(t[0]) && (sign == "" ==> t[0] != '-' && t[0] != '+'))
  {
    var t := sign + (digits + tail);
    if t != "" {
      assert t[0] == if sign != "" then sign[0] else if digits != "" then digits[0] else tail[0];
      if sign == "" && digits == "" { assert tail[..1][0] == tail[0]; }
    }
  }

  lemma {:induction false} SpaceRead(space: string, t: string)
    requires AllSpace(space) && (t == "" || !IsSpace(t[0]))
    ensures Unspaced(space + t) == t
  {
    if space == "" {
      assert space + t == t;
    } else {
      assert (space + t)[0] == space[0] && (space + t)[1..] == space[1..] + t;
      SpaceRead(space[1..], t);
    }
  }
}
