/** `integer_parser`: reading an integer of a machine type from text, with overflow checks done in
    machine arithmetic. */
module IntegerParser {
  import opened Wrappers
  import Decimals
  import NumberTheory

  datatype IntType = IntType(bits: nat, signed: bool) {
    predicate Valid() { bits == 8 || bits == 16 || bits == 32 || bits == 64 }

    /** Two to the number of bits. */
    function Modulus(): (m: int)
      requires Valid()
      ensures m >= 256 && m % 2 == 0
    {
      if bits == 8 then 0x100 else if bits == 16 then 0x1_0000
      else if bits == 32 then 0x1_0000_0000 else 0x1_0000_0000_0000_0000
    }

    function Min(): int
      requires Valid()
    {
      if signed then -(Modulus() / 2) else 0
    }

    function Max(): int
      requires Valid()
    {
      if signed then Modulus() / 2 - 1 else Modulus() - 1
    }
  }

  function PowerOfTwo(n: nat): nat { if n == 0 then 1 else 2 * PowerOfTwo(n - 1) }

  lemma PowerOfTwoSum(a: nat, b: nat)
    ensures PowerOfTwo(a + b) == PowerOfTwo(a) * PowerOfTwo(b)
  {
    if a > 0 {
      PowerOfTwoSum(a - 1, b);
      NumberTheory.Associate(2, PowerOfTwo(a - 1), PowerOfTwo(b));
    }
  }

  lemma Squares(n: nat, p: nat)
    requires PowerOfTwo(n) == p
    ensures PowerOfTwo(2 * n) == p * p
  {
    PowerOfTwoSum(n, n);
  }

  lemma ModulusIsPower(t: IntType)
    requires t.Valid()
    ensures t.Modulus() == PowerOfTwo(t.bits)
  {
    assert PowerOfTwo(8) == 0x100;
    Squares(8, 0x100);
    Squares(16, 0x1_0000);
    Squares(32, 0x1_0000_0000);
  }

  /** The ranges are those of two's complement. */
  lemma Ranges(t: IntType)
    requires t.Valid()
    ensures t.Max() - t.Min() + 1 == PowerOfTwo(t.bits)
    ensures t.Min() == if t.signed then -t.Max() - 1 else 0
  {
    ModulusIsPower(t);
  }

  // ----- machine arithmetic on the unsigned counterpart `US` -----

  /** Conversion to `US`. */
  function ToUnsigned(t: IntType, x: int): int
    requires t.Valid()
  {
    x % t.Modulus()
  }

  /** The value of an arithmetic expression on `US` operands: types narrower than `int` are promoted
      to it and do not wrap, the others wrap around. */
  function Arithmetic(t: IntType, x: int): int
    requires t.Valid()
  {
    if t.bits < 32 then x else x % t.Modulus()
  }

  /** Conversion to T: two's complement. */
  function ToT(t: IntType, x: int): int
    requires t.Valid()
  {
    var u := x % t.Modulus();
    if u > t.Max() then u - t.Modulus() else u
  }

  // ----- texts and what they denote -----

  datatype IntegerDesc = IntegerDesc(negative: string, base: string, value: string)

  function BaseOf(desc: IntegerDesc): int { if |desc.base| > 0 then 16 else 10 }

  predicate IsDigit(base: int, ch: char) {
    '0' <= ch <= '9' || (base == 16 && ('a' <= ch <= 'f' || 'A' <= ch <= 'F'))
  }

  function DigitOf(ch: char): int {
    if '0' <= ch <= '9' then ch as int - '0' as int
    else if 'a' <= ch <= 'f' then ch as int - 'a' as int + 10
    else ch as int - 'A' as int + 10
  }

  predicate AllDigits(base: int, s: string) { forall i | 0 <= i < |s| :: IsDigit(base, s[i]) }

  /** The number a digit string stands for. */
  function Denoted(base: int, s: string): int {
    if s == "" then 0 else Denoted(base, s[..|s| - 1]) * base + DigitOf(s[|s| - 1])
  }

  function SignedValue(desc: IntegerDesc): int {
    var n := Denoted(BaseOf(desc), desc.value);
    if |desc.negative| > 0 then -n else n
  }

  /** What should be accepted: digits of the base whose number T can hold, and no sign for an
      unsigned T. */
  predicate Acceptable(t: IntType, desc: IntegerDesc)
    requires t.Valid()
  {
    AllDigits(BaseOf(desc), desc.value)
    && t.Min() <= SignedValue(desc) <= t.Max()
    && (|desc.negative| > 0 ==> t.signed)
  }

  lemma {:induction false} DenotedGrows(base: int, s: string, i: nat)
    requires base >= 10 && i <= |s| && AllDigits(base, s)
    ensures 0 <= Denoted(base, s[..i]) <= Denoted(base, s)
  {
    if s == "" {
    } else if i < |s| {
      var init := s[..|s| - 1];
      assert AllDigits(base, init);
      DenotedGrows(base, init, i);
      assert init[..i] == s[..i];
      Scaled(Denoted(base, init), base);
      assert IsDigit(base, s[|s| - 1]);
    } else {
      var init := s[..|s| - 1];
      assert AllDigits(base, init);
      DenotedGrows(base, init, |init|);
      assert init[..|init|] == init && s[..i] == s;
      Scaled(Denoted(base, init), base);
      assert IsDigit(base, s[|s| - 1]);
    }
  }

  lemma Scaled(n: int, base: int)
    requires n >= 0 && base >= 1
    ensures n * base >= n
  {
  }

  lemma DenotedStep(base: int, s: string, i: nat)
    requires i < |s|
    ensures Denoted(base, s[..i + 1]) == Denoted(base, s[..i]) * base + DigitOf(s[i])
  {
    assert s[..i + 1][..i] == s[..i];
  }

  /** The two checks before a digit is taken in decide whether the new number exceeds the limit, and
      when it does not nothing has wrapped. */
  lemma ChecksDecide(t: IntType, result: int, base: int, digit: int, limit: int)
    requires t.Valid() && (base == 10 || base == 16) && 0 <= digit < base
    requires 0 <= result <= limit < t.Modulus() && limit >= 16
    ensures (result > limit / base || Arithmetic(t, result * base) > Arithmetic(t, limit - digit))
            <==> result * base + digit > limit
    ensures result * base + digit <= limit
            ==> Arithmetic(t, result * base) == result * base
                && ToUnsigned(t, Arithmetic(t, Arithmetic(t, result * base) + digit)) == result * base + digit
  {
    var q := limit / base;
    var m := t.Modulus();
    assert limit == q * base + limit % base;
    if result > q {
      NumberTheory.ScaleLe(q + 1, result, base);
      assert (q + 1) * base == q * base + base;
    } else {
      NumberTheory.ScaleLe(result, q, base);
      Small(result * base, m);
    }
    Small(limit - digit, m);
    if result * base + digit <= limit {
      NumberTheory.ScaleLe(0, result, base);
      Small(result * base, m);
      Small(result * base + digit, m);
    }
  }

  lemma Small(x: int, m: int)
    ensures 0 <= x < m ==> x % m == x
  {
  }

  /** `checked_negate` reaches every magnitude up to that of the smallest value. */
  lemma NegateReaches(t: IntType, u: int)
    requires t.Valid() && t.signed && 0 <= u <= -t.Min()
    ensures ToT(t, -ToT(t, Arithmetic(t, u - 1)) - 1) == -u
  {
    var m := t.Modulus();
    if u == 0 {
      assert (-1) % m == m - 1 by { Wrap(-1, m); }
      assert ToT(t, Arithmetic(t, u - 1)) == -1 by {
        Small(m - 1, m);
      }
      Small(0, m);
    } else {
      Small(u - 1, m);
      assert ToT(t, Arithmetic(t, u - 1)) == u - 1;
      Wrap(-u, m);
    }
  }

  lemma Wrap(x: int, m: int)
    requires -m <= x < 0 && m > 0
    ensures x % m == x + m
  {
    assert x == -1 * m + (x + m);
  }

  /** The largest magnitude let through, as the loop computes it. */
  function Limit(t: IntType, negative: bool): int
    requires t.Valid()
  {
    if negative then ToUnsigned(t, if t.Min() < 0 then -t.Min() else t.Min()) else ToUnsigned(t, t.Max())
  }

  lemma LimitIsRoom(t: IntType, negative: bool)
    requires t.Valid()
    ensures Limit(t, negative) == if negative then -t.Min() else t.Max()
    ensures t.signed || !negative ==> 16 <= Limit(t, negative) < t.Modulus()
  {
    Small(t.Max(), t.Modulus());
    Small(-t.Min(), t.Modulus());
  }

  /** After `i` digits the accumulator holds their number, within the limit. (A signed text for an
      unsigned T is on its way to rejection whatever the accumulator holds.) */
  ghost predicate Accumulated(t: IntType, desc: IntegerDesc, i: nat, result: int)
    requires t.Valid()
  {
    i <= |desc.value| && AllDigits(BaseOf(desc), desc.value[..i])
    && (t.signed || desc.negative == "" ==>
        result == Denoted(BaseOf(desc), desc.value[..i]) && 0 <= result <= Limit(t, |desc.negative| > 0))
  }

  lemma TooLarge(t: IntType, desc: IntegerDesc, i: nat)
    requires t.Valid() && i <= |desc.value|
    requires Denoted(BaseOf(desc), desc.value[..i]) > if |desc.negative| > 0 then -t.Min() else t.Max()
    ensures !Acceptable(t, desc)
  {
    if AllDigits(BaseOf(desc), desc.value) {
      DenotedGrows(BaseOf(desc), desc.value, i);
    }
  }

  lemma DigitTurn(t: IntType, desc: IntegerDesc, i: nat, result: int)
    requires t.Valid() && Accumulated(t, desc, i, result) && i < |desc.value|
    requires IsDigit(BaseOf(desc), desc.value[i])
    ensures var base, limit, digit := BaseOf(desc), Limit(t, |desc.negative| > 0), DigitOf(desc.value[i]);
            if result > limit / base || Arithmetic(t, result * base) > Arithmetic(t, limit - digit)
            then !Acceptable(t, desc)
            else Accumulated(t, desc, i + 1, ToUnsigned(t, Arithmetic(t, Arithmetic(t, result * base) + digit)))
  {
    var negative := |desc.negative| > 0;
    var base, limit, digit := BaseOf(desc), Limit(t, negative), DigitOf(desc.value[i]);
    DenotedStep(base, desc.value, i);
    LimitIsRoom(t, negative);
    if t.signed || !negative {
      ChecksDecide(t, result, base, digit, limit);
      if result * base + digit > limit {
        TooLarge(t, desc, i + 1);
      }
    }
  }

  /** `integer_parser` on a text already split into sign, base prefix and digits: it accepts exactly
      the acceptable ones and returns the number they denote. */
  method ParseInteger(t: IntType, desc: IntegerDesc) returns (r: Option<int>)
    requires t.Valid()
    ensures r == if Acceptable(t, desc) then Some(SignedValue(desc)) else None
  {
    var negative := |desc.negative| > 0;
    var base := if |desc.base| > 0 then 16 else 10;
    var result := 0;
    var i := 0;
    LimitIsRoom(t, negative);
    while i < |desc.value|
      invariant 0 <= i <= |desc.value| && Accumulated(t, desc, i, result)
    {
      var ch := desc.value[i];
      var digit := 0;
      if '0' <= ch <= '9' {
        digit := ch as int - '0' as int;
      } else if base == 16 && 'a' <= ch <= 'f' {
        digit := ch as int - 'a' as int + 10;
      } else if base == 16 && 'A' <= ch <= 'F' {
        digit := ch as int - 'A' as int + 10;
      } else {
        return None;
      }
      var limit := Limit(t, negative);
      assert IsDigit(base, ch) && digit == DigitOf(ch);
      DigitTurn(t, desc, i, result);
      if result > limit / base {
        return None;
      }
      if Arithmetic(t, result * base) > Arithmetic(t, limit - digit) {
        return None;
      }
      result := ToUnsigned(t, Arithmetic(t, Arithmetic(t, result * base) + digit));
      i := i + 1;
    }
    assert desc.value[..i] == desc.value;
    r := CheckedResult(t, negative, result);
  }

  /** `check_signed_range` and the final conversion or negation. */
  method CheckedResult(t: IntType, negative: bool, result: int) returns (r: Option<int>)
    requires t.Valid() && (t.signed || !negative ==> 0 <= result <= Limit(t, negative))
    ensures r == if negative && !t.signed then None else Some(if negative then -result else result)
  {
    LimitIsRoom(t, negative);
    Small(t.Max(), t.Modulus());
    if t.signed {
      Wrap(t.Min(), t.Modulus());
      if result > (if negative then ToUnsigned(t, t.Min()) else ToUnsigned(t, t.Max())) {
        return None;
      }
    }
    if negative {
      if !t.signed {
        return None;
      }
      NegateReaches(t, result);
      return Some(ToT(t, -ToT(t, Arithmetic(t, result - 1)) - 1));
    }
    Small(result, t.Modulus());
    return Some(ToT(t, result));
  }

  // ----- splitting the text, in either build -----

  predicate IsAlnum(ch: char) { '0' <= ch <= '9' || 'a' <= ch <= 'z' || 'A' <= ch <= 'Z' }

  /** The letters and digits of the "C" locale. */
  lemma AlnumCharacters(ch: char)
    ensures IsAlnum(ch)
            <==> ch in "0123456789" || ch in "abcdefghijklmnopqrstuvwxyz" || ch in "ABCDEFGHIJKLMNOPQRSTUVWXYZ"
  {
    CharacterBlock('0', '9', "0123456789", ch);
    CharacterBlock('a', 'z', "abcdefghijklmnopqrstuvwxyz", ch);
    CharacterBlock('A', 'Z', "ABCDEFGHIJKLMNOPQRSTUVWXYZ", ch);
  }

  predicate HasPrefix(s: string, prefix: string) { prefix <= s }

  function AfterSign(text: string): string { if text != "" && text[0] == '-' then text[1..] else text }

  function SignOf(text: string): string { if text != "" && text[0] == '-' then "-" else "" }

  /** Matching `(-)?(0x)?([0-9a-zA-Z]+)|((0x)?0)`: the prefix is given back if nothing would follow it. */
  function SplitByRegex(text: string): Option<IntegerDesc> {
    var rest := AfterSign(text);
    if rest == "" || exists i | 0 <= i < |rest| :: !IsAlnum(rest[i]) then None
    else if |rest| > 2 && HasPrefix(rest, "0x") then Some(IntegerDesc(SignOf(text), "0x", rest[2..]))
    else Some(IntegerDesc(SignOf(text), "", rest))
  }

  /** A text as a C string: up to the first NUL. */
  function UpToNul(text: string): (s: string)
    ensures s <= text && 0 as char !in s
    ensures 0 as char !in text ==> s == text
    ensures 0 as char in text ==> |s| < |text| && text[|s|] == 0 as char
  {
    if text == "" || text[0] == 0 as char then "" else [text[0]] + UpToNul(text[1..])
  }

  /** The version without regular expressions. */
  function SplitByHand(text: string): Option<IntegerDesc> {
    if text == "" then None
    else
      var chars := UpToNul(text);
      var rest := AfterSign(chars);
      var hex := HasPrefix(rest, "0x");
      var value := if hex then rest[2..] else rest;
      if value == "" then None else Some(IntegerDesc(SignOf(chars), if hex then "0x" else "", value))
  }

  /** The integer a text is read as. */
  function Read(t: IntType, split: Option<IntegerDesc>): Option<int>
    requires t.Valid()
  {
    match split
    case None => None
    case Some(desc) => if Acceptable(t, desc) then Some(SignedValue(desc)) else None
  }

  /** A character that is neither letter nor digit makes the other version's text unacceptable. */
  lemma OddCharacter(t: IntType, text: string, i: nat)
    requires t.Valid() && 0 as char !in text && i < |AfterSign(text)| && !IsAlnum(AfterSign(text)[i])
    ensures Read(t, SplitByHand(text)) == None
  {
    var rest := AfterSign(text);
    if SplitByHand(text).Some? {
      var desc := SplitByHand(text).value;
      var j := if HasPrefix(rest, "0x") then i - 2 else i;
      assert HasPrefix(rest, "0x") ==> rest[0] == '0' && rest[1] == 'x';
      assert desc.value[j] == rest[i];
      assert !IsDigit(BaseOf(desc), desc.value[j]);
    }
  }

  lemma BuildsAgreeUpToNul(t: IntType, text: string)
    requires t.Valid() && 0 as char !in text
    ensures Read(t, SplitByRegex(text)) == Read(t, SplitByHand(text))
  {
    var rest := AfterSign(text);
    if i :| 0 <= i < |rest| && !IsAlnum(rest[i]) {
      OddCharacter(t, text, i);
    } else if rest == "0x" {
      var desc := IntegerDesc(SignOf(text), "", rest);
      assert !IsDigit(10, desc.value[1]);
    }
  }

  lemma NulMatchesNothing(text: string)
    requires 0 as char in text
    ensures SplitByRegex(text) == None
  {
    var i := |UpToNul(text)|;
    var rest := AfterSign(text);
    var j := if text[0] == '-' then i - 1 else i;
    assert rest[j] == text[i] && !IsAlnum(rest[j]);
  }

  /** The two builds of the library read a text as the same integer, or both reject it, exactly when it
      does not hold a NUL after the text of an integer of T. */
  lemma BuildsAgree(t: IntType, text: string)
    requires t.Valid()
    ensures Read(t, SplitByRegex(text)) == Read(t, SplitByHand(text))
            <==> 0 as char !in text || Read(t, SplitByRegex(UpToNul(text))) == None
  {
    var chars := UpToNul(text);
    BuildsAgreeUpToNul(t, chars);
    if 0 as char in text {
      NulMatchesNothing(text);
      assert UpToNul(chars) == chars;
      assert SplitByHand(text) == SplitByHand(chars);
    }
  }

  /** Such a text: a digit and a NUL. */
  lemma BuildsDiffer(t: IntType, d: nat)
    requires t.Valid() && d < 10
    ensures var text := Decimals.Decimal(d) + [0 as char];
            Read(t, SplitByRegex(text)) == None && Read(t, SplitByHand(text)) == Some(d)
  {
    var digit, text := Decimals.Decimal(d), Decimals.Decimal(d) + [0 as char];
    assert text[1] == 0 as char && UpToNul(text) == digit;
    NulMatchesNothing(text);
    PrintedRoundTrip(t, d);
    BuildsAgreeUpToNul(t, digit);
    assert SplitByHand(text) == SplitByHand(digit);
  }

  // ----- reading back a printed integer -----

  function Print(v: int): string { if v < 0 then "-" + Decimals.Decimal(-v) else Decimals.Decimal(v) }

  lemma {:induction false} DenotedDecimal(s: string)
    requires forall c | c in s :: Decimals.IsDigit(c)
    ensures AllDigits(10, s) && Denoted(10, s) == Decimals.DecimalValue(s)
  {
    if s == "" {
    } else {
      DenotedDecimal(s[..|s| - 1]);
      assert s[|s| - 1] in s && Decimals.IsDigit(s[|s| - 1]);
      assert forall i | 0 <= i < |s| :: s[i] in s;
    }
  }

  lemma DecimalSplits(n: nat, sign: string)
    requires sign == "" || sign == "-"
    ensures SplitByRegex(sign + Decimals.Decimal(n)) == Some(IntegerDesc(sign, "", Decimals.Decimal(n)))
  {
    var digits := Decimals.Decimal(n);
    var text := sign + digits;
    assert forall i | 0 <= i < |digits| :: digits[i] in digits && Decimals.IsDigit(digits[i]);
    assert sign == "-" ==> text[1..] == digits;
    assert sign == "" ==> text == digits;
    assert AfterSign(text) == digits && SignOf(text) == sign;
  }

  function Signed(sign: string, n: int): int { if sign == "-" then -n else n }

  lemma DecimalReads(t: IntType, n: nat, sign: string)
    requires t.Valid() && (sign == "" || sign == "-")
    ensures Read(t, Some(IntegerDesc(sign, "", Decimals.Decimal(n))))
            == if t.Min() <= Signed(sign, n) <= t.Max() && (sign == "-" ==> t.signed) then Some(Signed(sign, n))
               else None
  {
    Decimals.DecimalValueOfDecimal(n);
    DenotedDecimal(Decimals.Decimal(n));
  }

  /** Every integer, printed in decimal, is read back as itself if it is a value of T, and rejected if it
      is not. */
  lemma PrintedRoundTrip(t: IntType, v: int)
    requires t.Valid()
    ensures Read(t, SplitByRegex(Print(v))) == if t.Min() <= v <= t.Max() then Some(v) else None
  {
    var sign, n := if v < 0 then "-" else "", if v < 0 then -v else v;
    assert SplitByRegex(Print(v)) == Some(IntegerDesc(sign, "", Decimals.Decimal(n))) by {
      assert Print(v) == sign + Decimals.Decimal(n);
      DecimalSplits(n, sign);
    }
    DecimalReads(t, n, sign);
  }

  /** An unsigned T has no use for a sign, not even before a zero. */
  lemma SignRejected(t: IntType, digits: string)
    requires t.Valid() && !t.signed
    ensures Read(t, SplitByRegex("-" + digits)) == None
  {
    assert ("-" + digits)[1..] == digits;
  }

  // ----- and in base 16 -----

  function HexDigit(d: nat, upper: bool): char
    requires d < 16
  {
    if d < 10 then '0' + d as char else if upper then 'A' + (d - 10) as char else 'a' + (d - 10) as char
  }

  lemma HexDigits()
    ensures seq(16, d requires 0 <= d < 16 => HexDigit(d, false)) == "0123456789abcdef"
    ensures seq(16, d requires 0 <= d < 16 => HexDigit(d, true)) == "0123456789ABCDEF"
  {
  }

  /** The digits of a number, of which `upper` tells the case of the one of weight 16 to the power `k`. */
  function Hex(n: nat, k: nat, upper: nat -> bool): (s: string)
    ensures s != ""
    decreases n
  {
    (if n < 16 then "" else Hex(n / 16, k + 1, upper)) + [HexDigit(n % 16, upper(k))]
  }

  function PrintHex(v: int, upper: nat -> bool): string {
    if v < 0 then "-" + ("0x" + Hex(-v, 0, upper)) else "0x" + Hex(v, 0, upper)
  }

  lemma HexDigitReads(d: nat, upper: bool)
    requires d < 16
    ensures var ch := HexDigit(d, upper); IsDigit(16, ch) && DigitOf(ch) == d && IsAlnum(ch)
  {
  }

  lemma AppendDigit(s: string, ch: char)
    requires AllDigits(16, s) && IsDigit(16, ch)
    ensures AllDigits(16, s + [ch]) && Denoted(16, s + [ch]) == Denoted(16, s) * 16 + DigitOf(ch)
  {
    assert (s + [ch])[..|s|] == s;
  }

  lemma {:induction false} HexDenotes(n: nat, k: nat, upper: nat -> bool)
    ensures AllDigits(16, Hex(n, k, upper)) && Denoted(16, Hex(n, k, upper)) == n
    decreases n
  {
    HexDigitReads(n % 16, upper(k));
    if n < 16 {
      AppendDigit("", HexDigit(n, upper(k)));
      assert "" + [HexDigit(n, upper(k))] == [HexDigit(n, upper(k))];
    } else {
      HexDenotes(n / 16, k + 1, upper);
      AppendDigit(Hex(n / 16, k + 1, upper), HexDigit(n % 16, upper(k)));
    }
  }

  lemma HexSplits(digits: string, sign: string)
    requires (sign == "" || sign == "-") && digits != "" && AllDigits(16, digits)
    ensures SplitByRegex(sign + ("0x" + digits)) == Some(IntegerDesc(sign, "0x", digits))
  {
    var rest, text := "0x" + digits, sign + ("0x" + digits);
    assert sign == "-" ==> text[1..] == rest;
    assert sign == "" ==> text == rest;
    assert rest[0] == '0' && rest[1] == 'x' && rest[2..] == digits;
    forall i | 0 <= i < |rest|
      ensures IsAlnum(rest[i])
    {
      assert i >= 2 ==> rest[i] == digits[i - 2] && IsDigit(16, digits[i - 2]);
    }
  }

  lemma HexReads(t: IntType, n: nat, sign: string, digits: string)
    requires t.Valid() && (sign == "" || sign == "-") && AllDigits(16, digits) && Denoted(16, digits) == n
    ensures Read(t, Some(IntegerDesc(sign, "0x", digits)))
            == if t.Min() <= Signed(sign, n) <= t.Max() && (sign == "-" ==> t.signed) then Some(Signed(sign, n))
               else None
  {
  }

  /** The same round trip in base 16, with digits of either case. */
  lemma HexRoundTrip(t: IntType, v: int, upper: nat -> bool)
    requires t.Valid()
    ensures Read(t, SplitByRegex(PrintHex(v, upper))) == if t.Min() <= v <= t.Max() then Some(v) else None
  {
    var sign, n := if v < 0 then "-" else "", if v < 0 then -v else v;
    var digits := Hex(n, 0, upper);
    HexDenotes(n, 0, upper);
    HexSplits(digits, sign);
    HexReads(t, n, sign, digits);
    assert PrintHex(v, upper) == sign + ("0x" + digits);
  }
}
