/** Integer conversions of printf (lib/stdio.c): `format_integer`, `output_dup`
    and the bounded writer `vsnprintf_helper`. */
module Printf {
  import Arithmetic

  const UINTMAX: nat := 0xFFFF_FFFF_FFFF_FFFF

  /** `struct printf_conversion`: flags, minimum width, precision (-1 if none). */
  datatype Conversion = Conversion(
    minus: bool, plus: bool, space: bool, pound: bool, zero: bool, group: bool,
    width: nat, precision: int)

  /** `struct integer_base`. */
  datatype Base = Base(base: nat, digits: string, x: string, group: nat)

  const BASE_D := Base(10, "0123456789", "", 3)
  const BASE_O := Base(8, "01234567", "", 3)
  const BASE_X_LOWER := Base(16, "0123456789abcdef", "x", 4)
  const BASE_X_UPPER := Base(16, "0123456789ABCDEF", "X", 4)

  predicate IsBase(b: Base) {
    b == BASE_D || b == BASE_O || b == BASE_X_LOWER || b == BASE_X_UPPER
  }

  lemma {:induction false} BaseShape(b: Base)
    requires IsBase(b)
    ensures 8 <= b.base <= 16 && |b.digits| == b.base && 3 <= b.group && |b.x| <= 1
  {
  }

  // ----- what a rendered number means -----

  /** The digit a character stands for in base `b`, or `b.base` for other characters. */
  function DigitValue(b: Base, c: char): (d: nat)
    ensures d <= b.base
  {
    var n := if '0' <= c <= '9' then c as int - '0' as int
             else if b.x == "x" && 'a' <= c <= 'f' then c as int - 'a' as int + 10
             else if b.x == "X" && 'A' <= c <= 'F' then c as int - 'A' as int + 10
             else b.base;
    if n < b.base then n else b.base
  }

  predicate IsDigit(b: Base, c: char) { DigitValue(b, c) < b.base }

  /** The number read from the digits of `s`; all other characters are skipped. */
  function ReadNumber(b: Base, s: string): (n: nat)
  {
    if s == "" then 0 else
      var n := ReadNumber(b, s[..|s| - 1]);
      var c := s[|s| - 1];
      if IsDigit(b, c) then n * b.base + DigitValue(b, c) else n
  }

  lemma {:induction false} DigitsReadBack(b: Base, d: nat)
    requires IsBase(b) && d < b.base
    ensures |b.digits| == b.base && DigitValue(b, b.digits[d]) == d
  {
    BaseShape(b);
    if d < 8 {
      assert b.digits[d] == "01234567"[d];
    } else if d < 10 {
      assert b.digits[d] == "0123456789"[d];
    } else if b == BASE_X_LOWER {
      assert b.digits[d] == "abcdef"[d - 10];
    } else {
      assert b.digits[d] == "ABCDEF"[d - 10];
    }
  }

  // ----- what format_integer computes -----

  function Repeat(c: char, n: nat): (s: string)
    ensures |s| == n && forall i | 0 <= i < n :: s[i] == c
  {
    seq(n, _ => c)
  }

  function Reverse(s: string): (r: string)
    ensures |r| == |s|
  {
    if s == "" then "" else Reverse(s[1..]) + [s[0]]
  }

  /** The digits of `value`, least significant first, with group separators;
      `cnt` digits have been produced before. */
  function RevDigits(b: Base, group: bool, value: nat, cnt: nat): (s: string)
    requires IsBase(b)
    decreases value
  {
    BaseShape(b);
    if value == 0 then "" else
      Arithmetic.DivisionDef(value, b.base);
      (if group && cnt > 0 && cnt % b.group == 0 then "," else "")
      + [b.digits[value % b.base]] + RevDigits(b, group, value / b.base, cnt + 1)
  }

  const BUF_SIZE: nat := 64

  /** Digits padded with zeros up to the precision. */
  function Padded(digits: string, c: Conversion): (s: string)
    ensures |digits| <= |s|
  {
    var precision := if c.precision < 0 then 1 else c.precision;
    var want := if precision < BUF_SIZE - 1 then precision else BUF_SIZE - 1;
    if |digits| < want then digits + Repeat('0', want - |digits|) else digits
  }

  /** The contents of `buf` when the digits are complete, least significant first. */
  function Buffer(b: Base, c: Conversion, value: nat): (s: string)
    requires IsBase(b)
  {
    var padded := Padded(RevDigits(b, c.group, value, 0), c);
    if c.pound && b.base == 8 && (padded == "" || padded[|padded| - 1] != '0') then padded + "0" else padded
  }

  function Sign(isSigned: bool, negative: bool, c: Conversion): (s: string)
  {
    if !isSigned then ""
    else if c.plus then (if negative then "-" else "+")
    else if c.space then (if negative then "-" else " ")
    else if negative then "-" else ""
  }

  function HexPrefix(b: Base, c: Conversion, value: nat): (s: string)
  {
    if c.pound && value != 0 && b.x != "" then "0" + b.x else ""
  }

  /** Number of characters needed to fill the field. */
  function PadCount(value: nat, isSigned: bool, negative: bool, b: Base, c: Conversion): (n: nat)
    requires IsBase(b)
  {
    var used := |Buffer(b, c, value)| + |HexPrefix(b, c, value)| + |Sign(isSigned, negative, c)|;
    if used < c.width then c.width - used else 0
  }

  /** The parts of the output in their order. */
  function Laid(blanks: nat, sign: string, prefix: string, zeros: nat, digits: string, back: nat): (s: string) {
    Repeat(' ', blanks) + sign + prefix + Repeat('0', zeros) + digits + Repeat(' ', back)
  }

  /** Everything `format_integer` passes to its output function. */
  function Formatted(value: nat, isSigned: bool, negative: bool, b: Base, c: Conversion): (s: string)
    requires IsBase(b)
  {
    var pad := PadCount(value, isSigned, negative, b, c);
    Laid(if !c.minus && !c.zero then pad else 0, Sign(isSigned, negative, c), HexPrefix(b, c, value),
         if c.zero then pad else 0, Reverse(Buffer(b, c, value)), if c.minus then pad else 0)
  }

  // ----- reading back -----

  lemma {:induction false} ReadLast(b: Base, s: string, c: char)
    ensures ReadNumber(b, s + [c]) ==
            if IsDigit(b, c) then ReadNumber(b, s) * b.base + DigitValue(b, c) else ReadNumber(b, s)
  {
    assert (s + [c])[..|s|] == s;
  }

  /** A prefix that reads as zero does not matter. */
  lemma {:induction false} ReadAfterZero(b: Base, p: string, s: string)
    requires ReadNumber(b, p) == 0
    ensures ReadNumber(b, p + s) == ReadNumber(b, s)
  {
    if s == "" {
      assert p + s == p;
    } else {
      var t, c := s[..|s| - 1], s[|s| - 1];
      assert s == t + [c] && p + s == (p + t) + [c];
      ReadAfterZero(b, p, t);
      ReadLast(b, t, c);
      ReadLast(b, p + t, c);
    }
  }

  /** Characters that are no digits, or zeros in front, do not matter. */
  lemma {:induction false} ReadFiller(b: Base, s: string)
    requires forall i | 0 <= i < |s| :: !IsDigit(b, s[i]) || DigitValue(b, s[i]) == 0
    ensures ReadNumber(b, s) == 0
  {
    if s != "" {
      ReadFiller(b, s[..|s| - 1]);
    }
  }

  lemma {:induction false} ReadBeforeFiller(b: Base, s: string, f: string)
    requires forall i | 0 <= i < |f| :: !IsDigit(b, f[i])
    ensures ReadNumber(b, s + f) == ReadNumber(b, s)
  {
    if f == "" {
      assert s + f == s;
    } else {
      var g, c := f[..|f| - 1], f[|f| - 1];
      assert s + f == (s + g) + [c];
      ReadLast(b, s + g, c);
      ReadBeforeFiller(b, s, g);
    }
  }

  lemma {:induction false} ReverseCons(c: char, s: string)
    ensures Reverse([c] + s) == Reverse(s) + [c]
  {
    assert ([c] + s)[1..] == s;
  }

  lemma {:induction false} ReverseConcat(s: string, t: string)
    ensures Reverse(s + t) == Reverse(t) + Reverse(s)
  {
    if s == "" {
      assert s + t == t;
    } else {
      assert (s + t)[1..] == s[1..] + t;
      ReverseConcat(s[1..], t);
    }
  }

  lemma {:induction false} ReverseRepeat(c: char, n: nat)
    ensures Reverse(Repeat(c, n)) == Repeat(c, n)
  {
    if n > 0 {
      assert Repeat(c, n) == [c] + Repeat(c, n - 1);
      ReverseCons(c, Repeat(c, n - 1));
      ReverseRepeat(c, n - 1);
      assert Repeat(c, n - 1) + [c] == Repeat(c, n);
    }
  }

  lemma {:induction false} CommaIsNoDigit(b: Base)
    requires IsBase(b)
    ensures !IsDigit(b, ',') && !IsDigit(b, ' ') && !IsDigit(b, '-') && !IsDigit(b, '+')
    ensures !IsDigit(b, 'x') && !IsDigit(b, 'X') && DigitValue(b, '0') == 0
  {
  }

  /** The digits of a value read back as the value. */
  lemma {:induction false} RevDigitsRead(b: Base, group: bool, value: nat, cnt: nat)
    requires IsBase(b)
    ensures ReadNumber(b, Reverse(RevDigits(b, group, value, cnt))) == value
    decreases value
  {
    hide ReadNumber, Reverse, IsBase, DigitValue, RevDigits;
    if value == 0 {
      ReadEmpty(b);
      RevDigitsZero(b, group, cnt);
    } else {
      RevDigitsStep(b, group, value, cnt);
      Arithmetic.DivisionDef(value, b.base);
      var d, rest := b.digits[value % b.base], RevDigits(b, group, value / b.base, cnt + 1);
      RevDigitsRead(b, group, value / b.base, cnt + 1);
      DigitsReadBack(b, value % b.base);
      ReverseCons(d, rest);
      ReadLast(b, Reverse(rest), d);
      if group && cnt > 0 && cnt % b.group == 0 {
        CommaIsNoDigit(b);
        ReverseCons(',', [d] + rest);
        ReadLast(b, Reverse([d] + rest), ',');
        assert RevDigits(b, group, value, cnt) == [','] + ([d] + rest);
      } else {
        assert RevDigits(b, group, value, cnt) == [d] + rest;
      }
    }
  }

  lemma {:induction false} ReadEmpty(b: Base)
    ensures Reverse("") == "" && ReadNumber(b, "") == 0
  {
  }

  /** Leading zeros in the digit buffer do not change its value. */
  lemma {:induction false} BufferRead(b: Base, c: Conversion, value: nat)
    requires IsBase(b)
    ensures ReadNumber(b, Reverse(Buffer(b, c, value))) == value
  {
    hide ReadNumber, Reverse, IsBase, DigitValue, RevDigits;
    var digits := RevDigits(b, c.group, value, 0);
    RevDigitsRead(b, c.group, value, 0);
    CommaIsNoDigit(b);
    var zeros := |Buffer(b, c, value)| - |digits|;
    assert Buffer(b, c, value) == digits + Repeat('0', zeros);
    ReverseConcat(digits, Repeat('0', zeros));
    ReverseRepeat('0', zeros);
    ReadFiller(b, Repeat('0', zeros));
    ReadAfterZero(b, Repeat('0', zeros), Reverse(digits));
  }

  /** Whatever the flags, width and precision, the digits that `format_integer`
      outputs read back as the value, and the field is filled. */
  lemma {:induction false} FormattedReadsBack(value: nat, isSigned: bool, negative: bool, b: Base, c: Conversion)
    requires IsBase(b)
    ensures ReadNumber(b, Formatted(value, isSigned, negative, b, c)) == value
    ensures |Formatted(value, isSigned, negative, b, c)| >= c.width
  {
    hide ReadNumber, Reverse, DigitValue, Buffer, IsBase, Sign, HexPrefix;
    var pad := PadCount(value, isSigned, negative, b, c);
    var blanks := Repeat(' ', if !c.minus && !c.zero then pad else 0);
    var zeros := Repeat('0', if c.zero then pad else 0);
    var back := Repeat(' ', if c.minus then pad else 0);
    var sign, prefix, digits := Sign(isSigned, negative, c), HexPrefix(b, c, value), Reverse(Buffer(b, c, value));
    CommaIsNoDigit(b);
    BufferRead(b, c, value);
    SignRead(b, isSigned, negative, c, value);
    ReadFiller(b, blanks);
    ReadFiller(b, zeros);
    ReadAfterZero(b, blanks, sign);
    ReadAfterZero(b, blanks + sign, prefix);
    ReadAfterZero(b, blanks + sign + prefix, zeros);
    ReadAfterZero(b, blanks + sign + prefix + zeros, digits);
    ReadBeforeFiller(b, blanks + sign + prefix + zeros + digits, back);
  }

  lemma {:induction false} SignRead(b: Base, isSigned: bool, negative: bool, c: Conversion, value: nat)
    requires IsBase(b)
    ensures ReadNumber(b, Sign(isSigned, negative, c)) == 0 && ReadNumber(b, HexPrefix(b, c, value)) == 0
  {
    CommaIsNoDigit(b);
    ReadFiller(b, Sign(isSigned, negative, c));
    ReadFiller(b, HexPrefix(b, c, value));
  }

  // ----- the sign -----

  /** The number read from `s` with its sign. */
  function ReadSigned(b: Base, s: string): (n: int) {
    if '-' in s then -(ReadNumber(b, s) as int) else ReadNumber(b, s)
  }

  lemma {:induction false} DigitIsNoMinus(b: Base, d: nat)
    requires IsBase(b) && d < b.base
    ensures |b.digits| == b.base && b.digits[d] != '-'
  {
    hide IsBase;
    DigitsReadBack(b, d);
    assert DigitValue(b, '-') == b.base;
  }

  lemma {:induction false} RevDigitsNoMinus(b: Base, group: bool, value: nat, cnt: nat)
    requires IsBase(b)
    ensures '-' !in RevDigits(b, group, value, cnt)
    decreases value
  {
    hide IsBase, RevDigits, DigitValue;
    if value == 0 {
      RevDigitsZero(b, group, cnt);
    } else {
      RevDigitsStep(b, group, value, cnt);
      DigitIsNoMinus(b, value % b.base);
      RevDigitsNoMinus(b, group, value / b.base, cnt + 1);
    }
  }

  lemma {:induction false} BufferNoMinus(b: Base, c: Conversion, value: nat)
    requires IsBase(b)
    ensures '-' !in Reverse(Buffer(b, c, value))
  {
    hide IsBase, RevDigits, Reverse;
    RevDigitsNoMinus(b, c.group, value, 0);
    ReverseMembers(Buffer(b, c, value));
  }

  /** A minus sign is output exactly for a negative value of a signed conversion, so that the signed
      value reads back. */
  lemma {:induction false} SignReadsBack(value: nat, isSigned: bool, negative: bool, b: Base, c: Conversion)
    requires IsBase(b)
    ensures '-' in Formatted(value, isSigned, negative, b, c) <==> isSigned && negative
    ensures ReadSigned(b, Formatted(value, isSigned, negative, b, c)) ==
            if isSigned && negative then -(value as int) else value
  {
    hide ReadNumber, Reverse, Buffer, IsBase;
    FormattedReadsBack(value, isSigned, negative, b, c);
    BufferNoMinus(b, c, value);
    PrefixNoMinus(b, c, value);
    assert '-' in Sign(isSigned, negative, c) <==> isSigned && negative;
  }

  lemma {:induction false} PrefixNoMinus(b: Base, c: Conversion, value: nat)
    requires IsBase(b)
    ensures '-' !in HexPrefix(b, c, value)
  {
  }

  // ----- the shape of the output -----

  /** Digits stand in groups of three, in groups of four in hexadecimal. */
  function GroupSize(b: Base): (n: nat) { if b.base == 16 then 4 else 3 }

  /** A separator has a multiple of whole groups to its right: `k` characters follow it. */
  predicate Separates(b: Base, k: nat) { k % (GroupSize(b) + 1) == GroupSize(b) }

  /** The one way to write a value in base `b`: no leading zeros, nothing for zero, and separators between the
      groups and nowhere else. */
  ghost predicate Numeral(s: string, b: Base, group: bool, value: nat) {
    && (s == "" <==> value == 0) && ReadNumber(b, s) == value
    && (s != "" ==> 0 < DigitValue(b, s[0]) < b.base)
    && (forall i | 0 <= i < |s| :: if group && Separates(b, |s| - 1 - i) then s[i] == ',' else IsDigit(b, s[i]))
  }

  /** Where digit number `cnt`, with the separator in front of it, begins: modulo the length of a group. */
  ghost function Column(b: Base, cnt: nat): (k: nat) {
    if cnt > 0 && cnt % GroupSize(b) == 0 then GroupSize(b) else cnt % GroupSize(b)
  }

  lemma {:induction false} GroupOf(b: Base)
    requires IsBase(b)
    ensures b.group == GroupSize(b) && (b.group == 3 || b.group == 4)
  {
  }

  lemma {:induction false} ColumnStep(b: Base, cnt: nat, k: nat)
    requires IsBase(b)
    ensures var len := if cnt > 0 && cnt % b.group == 0 then 2 else 1;
            && (k < len ==> (Separates(b, Column(b, cnt) + k) <==> k == 0 && len == 2))
            && (k >= len ==> (Separates(b, Column(b, cnt) + k) <==> Separates(b, Column(b, cnt + 1) + k - len)))
  {
    hide IsBase, Separates;
    GroupOf(b);
    NextColumn(b, cnt);
    var col := Column(b, cnt);
    if cnt > 0 && cnt % b.group == 0 {
      SeparatesPeriod(b, k);
    } else if k == 0 {
      SeparatesEnd(b, col);
    }
  }

  lemma {:induction false} NextColumn(b: Base, cnt: nat)
    requires b.group == GroupSize(b)
    ensures Column(b, cnt + 1) == if cnt > 0 && cnt % b.group == 0 then 1 else Column(b, cnt) + 1
  {
    if b.base == 16 { NextModFour(cnt); } else { NextModThree(cnt); }
  }

  lemma {:induction false} NextModFour(cnt: nat)
    ensures (cnt + 1) % 4 == if cnt % 4 == 3 then 0 else cnt % 4 + 1
  {
  }

  lemma {:induction false} NextModThree(cnt: nat)
    ensures (cnt + 1) % 3 == if cnt % 3 == 2 then 0 else cnt % 3 + 1
  {
  }

  lemma {:induction false} SeparatesPeriod(b: Base, k: nat)
    ensures Separates(b, GroupSize(b)) && !Separates(b, GroupSize(b) + 1)
    ensures k > 0 ==> (Separates(b, GroupSize(b) + k) <==> Separates(b, k - 1))
  {
    assert k > 0 ==> (4 + k) % 5 == (k - 1) % 5 && (3 + k) % 4 == (k - 1) % 4;
  }

  lemma {:induction false} SeparatesEnd(b: Base, k: nat)
    requires k < GroupSize(b)
    ensures !Separates(b, k)
  {
  }

  /** The characters least significant first. */
  lemma {:induction false} SeparatorsAt(b: Base, group: bool, value: nat, cnt: nat, i: nat)
    requires IsBase(b) && i < |RevDigits(b, group, value, cnt)|
    ensures var c := RevDigits(b, group, value, cnt)[i];
            if group && Separates(b, Column(b, cnt) + i) then c == ',' else IsDigit(b, c)
    decreases value
  {
    hide IsBase, RevDigits, DigitValue, Separates, Column;
    RevDigitsZero(b, group, cnt);
    RevDigitsStep(b, group, value, cnt);
    DigitsReadBack(b, value % b.base);
    ColumnStep(b, cnt, i);
    var len := if group && cnt > 0 && cnt % b.group == 0 then 2 else 1;
    if i >= len {
      SeparatorsAt(b, group, value / b.base, cnt + 1, i - len);
    }
  }

  lemma {:induction false} TopDigit(b: Base, group: bool, value: nat, cnt: nat)
    requires IsBase(b) && value > 0
    ensures var s := RevDigits(b, group, value, cnt); s != "" && 0 < DigitValue(b, s[|s| - 1]) < b.base
    decreases value
  {
    hide IsBase, RevDigits, DigitValue;
    RevDigitsStep(b, group, value, cnt);
    DigitsReadBack(b, value % b.base);
    if value / b.base == 0 {
      RevDigitsZero(b, group, cnt + 1);
      Arithmetic.DivisionDef(value, b.base);
    } else {
      TopDigit(b, group, value / b.base, cnt + 1);
    }
  }

  lemma {:induction false} DigitsAreNumeral(b: Base, group: bool, value: nat)
    requires IsBase(b)
    ensures Numeral(Reverse(RevDigits(b, group, value, 0)), b, group, value)
  {
    hide IsBase, RevDigits, DigitValue, Separates, Reverse, ReadNumber, IsDigit;
    var rev := RevDigits(b, group, value, 0);
    var s := Reverse(rev);
    ReverseMembers(rev);
    RevDigitsRead(b, group, value, 0);
    if value == 0 { RevDigitsZero(b, group, 0); } else { TopDigit(b, group, value, 0); }
    forall i | 0 <= i < |s| ensures if group && Separates(b, |s| - 1 - i) then s[i] == ',' else IsDigit(b, s[i]) {
      SeparatorsAt(b, group, value, 0, |s| - 1 - i);
    }
  }

  function Max(a: int, b: int): (m: int) { if a < b then b else a }
  function Min(a: int, b: int): (m: int) { if a < b then a else b }

  /** The digits of a conversion: zeros in front up to the precision (1 if none is given, at most 63), and at
      least one zero in front with `#` in octal. */
  ghost predicate DigitsOf(s: string, zeros: nat, b: Base, c: Conversion, value: nat) {
    && zeros <= |s| && s[..zeros] == Repeat('0', zeros) && Numeral(s[zeros..], b, c.group, value)
    && |s| == Max(|s| - zeros + (if c.pound && b.base == 8 then 1 else 0),
                  Min(if c.precision < 0 then 1 else c.precision, 63))
  }

  ghost predicate SignOf(s: string, isSigned: bool, negative: bool, c: Conversion) {
    && (s == "-" <==> isSigned && negative)
    && (s == "+" <==> isSigned && !negative && c.plus)
    && (s == " " <==> isSigned && !negative && !c.plus && c.space)
    && s in {"", "-", "+", " "}
  }

  ghost predicate PrefixOf(s: string, b: Base, c: Conversion, value: nat) {
    if c.pound && value > 0 && b == BASE_X_LOWER then s == "0x"
    else if c.pound && value > 0 && b == BASE_X_UPPER then s == "0X"
    else s == ""
  }

  /** A field: blanks in front, or behind with `-`, or zeros behind the sign and prefix with `0`. */
  ghost predicate Field(s: string, lead: string, digits: string, c: Conversion) {
    var pad := Max(0, c.width - |lead| - |digits|);
    if !c.minus && !c.zero then s == Repeat(' ', pad) + lead + digits
    else if !c.zero then s == lead + digits + Repeat(' ', pad)
    else if !c.minus then s == lead + Repeat('0', pad) + digits
    else s == lead + Repeat('0', pad) + digits + Repeat(' ', pad)
  }

  ghost predicate IsFormat(s: string, sign: string, prefix: string, digits: string, zeros: nat, value: nat,
                           isSigned: bool, negative: bool, b: Base, c: Conversion) {
    && SignOf(sign, isSigned, negative, c) && PrefixOf(prefix, b, c, value)
    && DigitsOf(digits, zeros, b, c, value) && Field(s, sign + prefix, digits, c)
  }

  lemma {:induction false} BufferIsDigits(b: Base, c: Conversion, value: nat) returns (zeros: nat)
    requires IsBase(b)
    ensures DigitsOf(Reverse(Buffer(b, c, value)), zeros, b, c, value)
  {
    hide IsBase, RevDigits, DigitValue, Reverse, Numeral;
    var rev, buf := RevDigits(b, c.group, value, 0), Buffer(b, c, value);
    zeros := |buf| - |rev|;
    assert buf == rev + Repeat('0', zeros);
    ReverseConcat(rev, Repeat('0', zeros));
    ReverseRepeat('0', zeros);
    DigitsAreNumeral(b, c.group, value);
    assert Reverse(buf)[zeros..] == Reverse(rev);
    if rev != "" { TopIsNoZero(b, c.group, value); }
  }

  lemma {:induction false} TopIsNoZero(b: Base, group: bool, value: nat)
    requires IsBase(b) && RevDigits(b, group, value, 0) != ""
    ensures var s := RevDigits(b, group, value, 0); s[|s| - 1] != '0'
  {
    hide IsBase, RevDigits;
    RevDigitsZero(b, group, 0);
    TopDigit(b, group, value, 0);
  }

  /** What is output: the sign, the prefix and the numeral with its zeros, laid out in the field.  The field is
      exactly as wide as asked, or as the number needs, except that `-` and `0` together, which a negative width
      passed for `*` brings about, pad on both sides. */
  lemma {:induction false} FormattedShape(value: nat, isSigned: bool, negative: bool, b: Base, c: Conversion)
    returns (sign: string, prefix: string, digits: string, zeros: nat)
    requires IsBase(b)
    ensures IsFormat(Formatted(value, isSigned, negative, b, c), sign, prefix, digits, zeros, value, isSigned,
                     negative, b, c)
    ensures |Formatted(value, isSigned, negative, b, c)| == Max(c.width, |sign + prefix| + |digits|) <==>
            !(c.minus && c.zero) || c.width <= |sign + prefix| + |digits|
  {
    hide Buffer, Reverse, DigitsOf, Sign, HexPrefix, SignOf, PrefixOf, Field, Laid, IsBase;
    sign, prefix, digits := Sign(isSigned, negative, c), HexPrefix(b, c, value), Reverse(Buffer(b, c, value));
    zeros := BufferIsDigits(b, c, value);
    SignAndPrefix(isSigned, negative, b, c, value);
    LaidIsField(PadCount(value, isSigned, negative, b, c), sign, prefix, digits, c);
    FieldWidth(Formatted(value, isSigned, negative, b, c), sign + prefix, digits, c);
  }

  lemma {:induction false} SignAndPrefix(isSigned: bool, negative: bool, b: Base, c: Conversion, value: nat)
    requires IsBase(b)
    ensures SignOf(Sign(isSigned, negative, c), isSigned, negative, c) && PrefixOf(HexPrefix(b, c, value), b, c, value)
  {
  }

  lemma {:induction false} LaidIsField(pad: nat, sign: string, prefix: string, digits: string, c: Conversion)
    requires pad == Max(0, c.width - |sign| - |prefix| - |digits|)
    ensures Field(Laid(if !c.minus && !c.zero then pad else 0, sign, prefix, if c.zero then pad else 0, digits,
                       if c.minus then pad else 0), sign + prefix, digits, c)
  {
    assert Repeat(' ', 0) == "" && Repeat('0', 0) == "";
    assert Repeat(' ', pad) + sign + prefix == Repeat(' ', pad) + (sign + prefix);
  }

  lemma {:induction false} FieldWidth(s: string, lead: string, digits: string, c: Conversion)
    requires Field(s, lead, digits, c)
    ensures |s| == Max(c.width, |lead| + |digits|) <==> !(c.minus && c.zero) || c.width <= |lead| + |digits|
  {
  }

  // ----- the 64-character buffer never overflows -----

  function Pow8(k: nat): (p: nat)
    ensures p > 0
  {
    if k == 0 then 1 else 8 * Pow8(k - 1)
  }

  lemma {:induction false} RevDigitsLength(b: Base, group: bool, value: nat, cnt: nat, k: nat)
    requires IsBase(b) && value < Pow8(k)
    ensures |RevDigits(b, group, value, cnt)| <= 2 * k
    decreases value
  {
    hide IsBase, Pow8;
    if value > 0 {
      BaseShape(b);
      QuotientShrinks(value, b.base, k);
      RevDigitsLength(b, group, value / b.base, cnt + 1, k - 1);
    }
  }

  lemma {:induction false} QuotientShrinks(value: nat, base: nat, k: nat)
    requires 0 < value < Pow8(k) && base >= 8
    ensures k >= 1 && 0 <= value / base < value && value / base < Pow8(k - 1)
  {
    Arithmetic.QuotientLower(value, base, 0);
    Arithmetic.MulLe(8, base, value);
    Arithmetic.QuotientUpper(value, base, value);
    Arithmetic.MulLe(8, base, Pow8(k - 1));
    Arithmetic.QuotientUpper(value, base, Pow8(k - 1));
  }

  lemma {:induction false} DigitsFit(b: Base, group: bool, value: nat)
    requires IsBase(b) && value <= UINTMAX
    ensures |RevDigits(b, group, value, 0)| <= 44
  {
    assert Pow8(7) == 0x20_0000;
    assert Pow8(14) == Pow8(7) * 0x20_0000;
    assert Pow8(21) == Pow8(14) * 0x20_0000;
    assert Pow8(22) > UINTMAX;
    RevDigitsLength(b, group, value, 0, 22);
  }

  // ----- zero-padded octal -----

  /** The conversion `%0<width>o`. */
  function ZeroPadded(width: nat): (c: Conversion) {
    Conversion(false, false, false, false, true, false, width, -1)
  }

  function Octal(value: nat, width: nat): (s: string) {
    Formatted(value, false, false, BASE_O, ZeroPadded(width))
  }

  ghost predicate OctalDigits(s: string) {
    forall i | 0 <= i < |s| :: '0' <= s[i] <= '7'
  }

  lemma {:induction false} RevDigitsOctal(value: nat, cnt: nat, k: nat)
    requires value < Pow8(k)
    ensures |RevDigits(BASE_O, false, value, cnt)| <= k && OctalDigits(RevDigits(BASE_O, false, value, cnt))
    decreases value
  {
    if value > 0 {
      QuotientShrinks(value, 8, k);
      RevDigitsStep(BASE_O, false, value, cnt);
      RevDigitsOctal(value / 8, cnt + 1, k - 1);
    }
  }

  lemma {:induction false} ReverseMembers(s: string)
    ensures forall i | 0 <= i < |s| :: Reverse(s)[i] == s[|s| - 1 - i]
  {
    if s != "" {
      ReverseMembers(s[1..]);
    }
  }

  /** A value below 8^width fills the field exactly, with octal digits only, and
      reads back. */
  lemma {:induction false} OctalShape(value: nat, width: nat)
    requires width > 0 && value < Pow8(width)
    ensures |Octal(value, width)| == width && OctalDigits(Octal(value, width))
    ensures ReadNumber(BASE_O, Octal(value, width)) == value
  {
    hide Reverse, Buffer, ReadNumber, Pow8;
    var c := ZeroPadded(width);
    var buf := Buffer(BASE_O, c, value);
    OctalBuffer(value, width);
    ReverseMembers(buf);
    assert Octal(value, width) == Repeat('0', width - |buf|) + Reverse(buf);
    FormattedReadsBack(value, false, false, BASE_O, c);
  }

  /** There is one way to write a number in octal digits of a given width. */
  lemma {:induction false} OctalUnique(s: string, t: string)
    requires |s| == |t| && OctalDigits(s) && OctalDigits(t) && ReadNumber(BASE_O, s) == ReadNumber(BASE_O, t)
    ensures s == t
  {
    if s != "" {
      var n := |s| - 1;
      OctalUnique(s[..n], t[..n]);
      assert s == s[..n] + [s[n]] && t == t[..n] + [t[n]];
    }
  }

  lemma {:induction false} OctalBuffer(value: nat, width: nat)
    requires width > 0 && value < Pow8(width)
    ensures |Buffer(BASE_O, ZeroPadded(width), value)| <= width
    ensures OctalDigits(Buffer(BASE_O, ZeroPadded(width), value))
  {
    hide RevDigits, Pow8;
    RevDigitsOctal(value, 0, width);
  }

  // ----- the code -----

  /** `struct vsnprintf_aux`: at most `maxLength` characters are stored, from
      `start` on; `sent` is everything output so far. */
  class Writer {
    const buffer: array<char>
    const start: nat
    const maxLength: nat
    var p: nat
    var length: nat
    ghost var sent: string

    ghost predicate Valid()
      reads this, buffer
    {
      && start + maxLength < buffer.Length
      && length == |sent| && p == start + Stored(sent, maxLength)
      && buffer[start..p] == sent[..Stored(sent, maxLength)]
    }

    /** What lies outside the part of the buffer that may be written. */
    ghost function Outside(): (string, string)
      reads this, buffer
    {
      if start + maxLength < buffer.Length then (buffer[..start], buffer[start + maxLength + 1..]) else ("", "")
    }

    /** The set-up in `vsnprintf`, for a nonzero `bufSize`. */
    constructor (buffer: array<char>, start: nat, bufSize: nat)
      requires bufSize > 0 && start + bufSize <= buffer.Length
      ensures Valid() && sent == "" && this.buffer == buffer && this.start == start && maxLength == bufSize - 1
    {
      this.buffer, this.start, maxLength := buffer, start, bufSize - 1;
      p, length, sent := start, 0, "";
    }

    /** `vsnprintf_helper`. */
    method Output(ch: char)
      requires Valid()
      modifies this, buffer
      ensures Valid() && sent == old(sent) + [ch] && Outside() == old(Outside())
    {
      if length < maxLength {
        buffer[p] := ch;
        p := p + 1;
      }
      length := length + 1;
      sent := sent + [ch];
    }

    /** `output_dup`. */
    method OutputDup(ch: char, cnt: nat)
      requires Valid()
      modifies this, buffer
      ensures Valid() && sent == old(sent) + Repeat(ch, cnt) && Outside() == old(Outside())
    {
      var n := cnt;
      while n > 0
        invariant 0 <= n <= cnt && Valid() && Outside() == old(Outside())
        invariant sent == old(sent) + Repeat(ch, cnt - n)
      {
        Output(ch);
        n := n - 1;
      }
    }

    /** The final step of `vsnprintf`: the string in the buffer is null-terminated. */
    method Terminate() returns (len: nat)
      requires Valid()
      modifies buffer
      ensures len == |sent| && Outside() == old(Outside())
      ensures start + maxLength < buffer.Length
      ensures var n := Stored(sent, maxLength);
              buffer[start..start + n + 1] == sent[..n] + ['\0']
    {
      buffer[p] := '\0';
      len := length;
    }
  }

  function Stored(sent: string, maxLength: nat): (n: nat)
    ensures n <= |sent| && n <= maxLength
  {
    if |sent| < maxLength then |sent| else maxLength
  }

  lemma {:induction false} RevDigitsStep(b: Base, group: bool, value: nat, cnt: nat)
    requires IsBase(b) && value > 0
    ensures |b.digits| == b.base > 0 && b.group > 0 && 0 <= value / b.base < value && 0 <= value % b.base < b.base
    ensures RevDigits(b, group, value, cnt) ==
            (if group && cnt > 0 && cnt % b.group == 0 then "," else "")
            + [b.digits[value % b.base]] + RevDigits(b, group, value / b.base, cnt + 1)
  {
    BaseShape(b);
    Arithmetic.DivisionDef(value, b.base);
    Arithmetic.QuotientLower(value, b.base, 0);
    Arithmetic.MulLe(8, b.base, value);
    Arithmetic.QuotientUpper(value, b.base, value);
  }

  /** The loop of `format_integer` that accumulates digits into `buf`. */
  method AccumulateDigits(value: nat, b: Base, group: bool, buf: array<char>) returns (cp: nat)
    requires IsBase(b) && value <= UINTMAX && buf.Length == BUF_SIZE
    modifies buf
    ensures cp <= 44 && buf[..cp] == RevDigits(b, group, value, 0)
  {
    hide RevDigits, IsBase;
    DigitsFit(b, group, value);
    ghost var all := RevDigits(b, group, value, 0);
    cp := 0;
    var digitCnt: nat := 0;
    var v: nat := value;
    while v > 0
      invariant cp <= |all| && buf[..cp] + RevDigits(b, group, v, digitCnt) == all
      decreases v
    {
      RevDigitsStep(b, group, v, digitCnt);
      ghost var done := buf[..cp];
      if group && digitCnt > 0 && digitCnt % b.group == 0 {
        buf[cp] := ',';
        cp := cp + 1;
        assert buf[..cp] == done + [','];
      }
      ghost var done' := buf[..cp];
      buf[cp] := b.digits[v % b.base];
      cp := cp + 1;
      assert buf[..cp] == done' + [b.digits[v % b.base]];
      v := v / b.base;
      digitCnt := digitCnt + 1;
    }
    RevDigitsZero(b, group, digitCnt);
  }

  lemma {:induction false} RevDigitsZero(b: Base, group: bool, cnt: nat)
    requires IsBase(b)
    ensures RevDigits(b, group, 0, cnt) == ""
  {
  }

  /** Digits, zeros up to the precision, and the octal `#` zero.  Every store is
      within the 64 characters of `buf`. */
  method FillBuffer(value: nat, b: Base, c: Conversion, buf: array<char>) returns (cp: nat)
    requires IsBase(b) && value <= UINTMAX && buf.Length == BUF_SIZE
    modifies buf
    ensures cp <= BUF_SIZE && buf[..cp] == Buffer(b, c, value)
  {
    hide RevDigits, IsBase;
    cp := AccumulateDigits(value, b, c.group, buf);
    ghost var digits := buf[..cp];
    var precision := if c.precision < 0 then 1 else c.precision;
    while cp < precision && cp < BUF_SIZE - 1
      invariant |digits| <= cp <= BUF_SIZE - 1
      invariant cp == |digits| || cp <= precision
      invariant buf[..cp] == digits + Repeat('0', cp - |digits|)
    {
      buf[cp] := '0';
      cp := cp + 1;
    }
    assert buf[..cp] == Padded(digits, c);
    if c.pound && b.base == 8 && (cp == 0 || buf[cp - 1] != '0') {
      ghost var padded := buf[..cp];
      buf[cp] := '0';
      cp := cp + 1;
      assert buf[..cp] == padded + "0";
    }
  }

  /** `format_integer`. */
  method FormatInteger(value: nat, isSigned: bool, negative: bool, b: Base, c: Conversion, w: Writer)
    requires IsBase(b) && value <= UINTMAX && w.Valid()
    modifies w, w.buffer
    ensures w.Valid() && w.Outside() == old(w.Outside())
    ensures w.sent == old(w.sent) + Formatted(value, isSigned, negative, b, c)
  {
    hide IsBase, Buffer, Repeat, Reverse, Sign, HexPrefix, Laid, Writer.Valid, Writer.Outside;
    var sign := Sign(isSigned, negative, c);
    var prefix := HexPrefix(b, c, value);
    var buf := new char[BUF_SIZE];
    var cp := FillBuffer(value, b, c, buf);
    var pad := c.width - cp - |prefix| - |sign|;
    if pad < 0 { pad := 0; }
    var blanks := if !c.minus && !c.zero then pad else 0;
    var zeros, back := if c.zero then pad else 0, if c.minus then pad else 0;
    w.OutputDup(' ', blanks);
    OutputAll(w, sign);
    OutputAll(w, prefix);
    w.OutputDup('0', zeros);
    OutputReversed(w, buf, cp);
    w.OutputDup(' ', back);
    Regroup(old(w.sent), blanks, sign, prefix, zeros, Reverse(buf[..cp]), back);
  }

  lemma {:induction false} Regroup(s: string, blanks: nat, sign: string, prefix: string, zeros: nat, digits: string,
                                   back: nat)
    ensures s + Repeat(' ', blanks) + sign + prefix + Repeat('0', zeros) + digits + Repeat(' ', back) ==
            s + Laid(blanks, sign, prefix, zeros, digits, back)
  {
    hide Repeat;
    var a, d, f := Repeat(' ', blanks), Repeat('0', zeros), Repeat(' ', back);
    assert s + a + sign == s + (a + sign);
    assert s + (a + sign) + prefix == s + (a + sign + prefix);
    assert s + (a + sign + prefix) + d == s + (a + sign + prefix + d);
    assert s + (a + sign + prefix + d) + digits == s + (a + sign + prefix + d + digits);
    assert s + (a + sign + prefix + d + digits) + f == s + (a + sign + prefix + d + digits + f);
  }

  method OutputAll(w: Writer, s: string)
    requires w.Valid()
    modifies w, w.buffer
    ensures w.Valid() && w.Outside() == old(w.Outside()) && w.sent == old(w.sent) + s
  {
    for i := 0 to |s|
      invariant w.Valid() && w.Outside() == old(w.Outside()) && w.sent == old(w.sent) + s[..i]
    {
      w.Output(s[i]);
    }
  }

  /** The digits leave the buffer in reverse. */
  method OutputReversed(w: Writer, buf: array<char>, cnt: nat)
    requires w.Valid() && buf != w.buffer && cnt <= buf.Length
    modifies w, w.buffer
    ensures w.Valid() && w.Outside() == old(w.Outside())
    ensures w.sent == old(w.sent) + Reverse(buf[..cnt])
  {
    hide Writer.Valid, Writer.Outside;
    var cp := cnt;
    ReadEmpty(BASE_O);
    while cp > 0
      invariant 0 <= cp <= cnt && w.Valid() && w.Outside() == old(w.Outside())
      invariant w.sent == old(w.sent) + Reverse(buf[cp..cnt])
    {
      cp := cp - 1;
      w.Output(buf[cp]);
      assert buf[cp..cnt] == [buf[cp]] + buf[cp + 1..cnt];
      ReverseCons(buf[cp], buf[cp + 1..cnt]);
    }
  }
}
