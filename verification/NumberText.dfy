/** Numbers as text: what "%lx" prints, and what strtoul and strtol read (section 7.22.1.4 of
ISO C11) on a machine whose long has 64 bits.
 */
module NumberText {
  import opened Helpers

  const ULONG_MAX := 0xffff_ffff_ffff_ffff
  const LONG_MAX := 0x7fff_ffff_ffff_ffff

  function DigitChar(d: nat): char
    requires d < 16
  {
    "0123456789abcdef"[d]
  }

  function Quotient(n: nat, base: nat): (q: nat)
    requires 2 <= base
    ensures n > 0 ==> q < n
  {
    QuotientIsLess(n, n / base, n % base, base);
    n / base
  }

  lemma QuotientIsLess(n: nat, q: nat, r: nat, base: nat)
    requires 2 <= base && n == q * base + r
    ensures n > 0 ==> q < n
  {
    assert q * base == q * 2 + q * (base - 2);
  }

  function Remainder(n: nat, base: nat): (r: nat)
    requires 2 <= base
    ensures r < base
  {
    n % base
  }

  /** A number written in a base, by division. */
  function Digits(n: nat, base: nat): (s: string)
    requires 2 <= base <= 16
    ensures s != ""
    decreases n
  {
    if n < base then [DigitChar(n)]
    else Digits(Quotient(n, base), base) + [DigitChar(Remainder(n, base))]
  }

  function DigitValue(c: char): nat {
    if '0' <= c <= '9' then (c - '0') as nat
    else if 'a' <= c <= 'z' then (c - 'a') as nat + 10
    else if 'A' <= c <= 'Z' then (c - 'A') as nat + 10
    else 36
  }

  predicate AllDigits(s: string, base: nat) {
    forall i :: 0 <= i < |s| ==> DigitValue(s[i]) < base
  }

  /** The value of a string of digits. */
  function Number(s: string, base: nat): nat {
    if s == "" then 0 else Number(s[..|s| - 1], base) * base + DigitValue(s[|s| - 1])
  }

  predicate IsSpace(c: char) {
    c == ' ' || '\t' <= c <= '\r'
  }

  // ---------------------------------------------------------------------------
  // The subject sequence

  /** `end` is where the conversion stopped, 0 if there was nothing to convert. */
  datatype Scan = Scan(negative: bool, magnitude: nat, end: nat)

  function SpaceEnd(s: string, i: nat): (j: nat)
    requires i <= |s|
    ensures i <= j <= |s|
    ensures forall k :: i <= k < j ==> IsSpace(s[k])
    ensures j < |s| ==> !IsSpace(s[j])
    decreases |s| - i
  {
    if i < |s| && IsSpace(s[i]) then SpaceEnd(s, i + 1) else i
  }

  function DigitEnd(s: string, i: nat, base: nat): (j: nat)
    requires i <= |s|
    ensures i <= j <= |s|
    ensures forall k :: i <= k < j ==> DigitValue(s[k]) < base
    ensures j < |s| ==> DigitValue(s[j]) >= base
    decreases |s| - i
  {
    if i < |s| && DigitValue(s[i]) < base then DigitEnd(s, i + 1, base) else i
  }

  predicate HexPrefixAt(s: string, i: nat) {
    i + 2 < |s| && s[i] == '0' && (s[i + 1] == 'x' || s[i + 1] == 'X') && DigitValue(s[i + 2]) < 16
  }

  /** The base in use at position `i`; 0 asks for that of a C constant. */
  function BaseAt(s: string, i: nat, base: nat): nat {
    if base != 0 then base
    else if HexPrefixAt(s, i) then 16
    else if i < |s| && s[i] == '0' then 8
    else 10
  }

  function SignEnd(s: string, i: nat): nat {
    if i < |s| && (s[i] == '-' || s[i] == '+') then i + 1 else i
  }

  function PrefixEnd(s: string, i: nat, base: nat): (j: nat)
    requires base == 0 || base == 10
    ensures i <= |s| ==> i <= j <= |s|
  {
    if BaseAt(s, i, base) == 16 then i + 2 else i
  }

  function ScanNumber(s: string, base: nat): Scan
    requires base == 0 || base == 10
  {
    var sign := SpaceEnd(s, 0);
    var start := SignEnd(s, sign);
    var first := PrefixEnd(s, start, base);
    var b := BaseAt(s, start, base);
    var end := DigitEnd(s, first, b);
    if end == first then Scan(false, 0, 0)
    else Scan(start > sign && s[sign] == '-', Number(s[first..end], b), end)
  }

  datatype Converted = Converted(value: int, end: nat, erange: bool)

  function Strtoul(s: string, base: nat): Converted
    requires base == 0 || base == 10
  {
    var r := ScanNumber(s, base);
    if r.magnitude > ULONG_MAX then Converted(ULONG_MAX, r.end, true)
    else if r.negative && r.magnitude > 0 then Converted(ULONG_MAX + 1 - r.magnitude, r.end, false)
    else Converted(r.magnitude, r.end, false)
  }

  function Strtol(s: string, base: nat): Converted
    requires base == 0 || base == 10
  {
    var r := ScanNumber(s, base);
    if r.negative then
      if r.magnitude > LONG_MAX + 1 then Converted(-LONG_MAX - 1, r.end, true) else Converted(0 - r.magnitude as int, r.end, false)
    else
      if r.magnitude > LONG_MAX then Converted(LONG_MAX, r.end, true) else Converted(r.magnitude, r.end, false)
  }

  // ---------------------------------------------------------------------------
  // Which number a string of digits stands for

  function LowerChar(c: char): char {
    match c
    case 'A' => 'a'
    case 'B' => 'b'
    case 'C' => 'c'
    case 'D' => 'd'
    case 'E' => 'e'
    case 'F' => 'f'
    case _ => c
  }

  /** With the hexadecimal digits in lower case. */
  function Lower(s: string): (t: string)
    ensures |t| == |s|
  {
    if s == "" then "" else Lower(s[..|s| - 1]) + [LowerChar(s[|s| - 1])]
  }

  function Zeros(k: nat): (s: string)
    ensures |s| == k
  {
    if k == 0 then "" else Zeros(k - 1) + "0"
  }

  /** The string is the number as written by division, in either case and with any number of zeros
      in front. */
  ghost predicate Spells(s: string, n: nat, base: nat)
    requires 2 <= base <= 16
  {
    exists k :: Lower(s) == Zeros(k) + Digits(n, base)
  }

  lemma DigitIs(c: char, d: nat)
    requires d < 16
    ensures DigitValue(c) == d <==> LowerChar(c) == DigitChar(d)
  {
  }

  lemma NumberSnoc(s: string, c: char, base: nat)
    ensures Number(s + [c], base) == Number(s, base) * base + DigitValue(c)
    ensures AllDigits(s + [c], base) <==> AllDigits(s, base) && DigitValue(c) < base
    ensures Lower(s + [c]) == Lower(s) + [LowerChar(c)]
  {
    assert (s + [c])[..|s|] == s;
  }

  lemma Division(n: nat, base: nat)
    requires 2 <= base
    ensures n == Quotient(n, base) * base + Remainder(n, base)
    ensures n >= base ==> Quotient(n, base) > 0
  {
  }

  lemma DivisionOf(q: nat, d: nat, base: nat)
    requires 2 <= base && d < base
    ensures Quotient(q * base + d, base) == q && Remainder(q * base + d, base) == d
  {
    hide Quotient;
    var x := q * base + d;
    Division(x, base);
    RemainderIs(x, q, base, d);
    SameFactor(Quotient(x, base), q, base);
  }

  lemma SameFactor(p: nat, q: nat, base: nat)
    requires base > 0 && p * base == q * base
    ensures p == q
  {
    assert (p - q) * base == 0 && (q - p) * base == 0;
    if p > q {
      MultipleAtLeast(p - q, base);
      assert false;
    } else if q > p {
      MultipleAtLeast(q - p, base);
      assert false;
    }
  }

  lemma DigitsSnoc(n: nat, d: nat, base: nat)
    requires 2 <= base <= 16 && n > 0 && d < base
    ensures Digits(n * base + d, base) == Digits(n, base) + [DigitChar(d)]
  {
    hide Quotient, Remainder, DigitChar;
    MultipleAtLeast(n, base);
    DivisionOf(n, d, base);
  }

  /** A string of digits is its number written by division, after some zeros. */
  lemma {:induction false} DigitsSpell(s: string, base: nat) returns (k: nat)
    requires 2 <= base <= 16 && s != "" && AllDigits(s, base)
    ensures Lower(s) == Zeros(k) + Digits(Number(s, base), base)
  {
    hide Quotient, Remainder, DigitChar, DigitValue, LowerChar;
    var front, c := s[..|s| - 1], s[|s| - 1];
    var d := DigitValue(c);
    assert s == front + [c];
    NumberSnoc(front, c, base);
    DigitIs(c, d);
    if front == "" {
      k := 0;
      assert Zeros(0) + Digits(d, base) == [DigitChar(d)];
    } else {
      k := DigitsSpell(front, base);
      var n := Number(front, base);
      if n > 0 {
        DigitsSnoc(n, d, base);
      } else {
        k := k + 1;
        ZeroChar(0);
        assert Digits(0, base) == [DigitChar(0)] == "0";
      }
    }
  }

  lemma {:induction false} ZerosAreDigits(s: string, k: nat, base: nat)
    requires 2 <= base <= 16 && Lower(s) == Zeros(k)
    ensures AllDigits(s, base) && Number(s, base) == 0
    decreases k
  {
    hide DigitChar, DigitValue, LowerChar;
    if k > 0 {
      ZeroChar(0);
      var front, c := s[..k - 1], s[k - 1];
      assert s == front + [c];
      NumberSnoc(front, c, base);
      assert Lower(s)[..k - 1] == Lower(front) && Zeros(k)[..k - 1] == Zeros(k - 1);
      assert Lower(s)[k - 1] == '0' == DigitChar(0);
      ZerosAreDigits(front, k - 1, base);
      DigitIs(c, 0);
    }
  }

  lemma {:induction false} SpellsDigits(s: string, k: nat, n: nat, base: nat)
    requires 2 <= base <= 16 && Lower(s) == Zeros(k) + Digits(n, base)
    ensures s != "" && AllDigits(s, base) && Number(s, base) == n
    decreases n
  {
    hide Quotient, Remainder, DigitChar, DigitValue, LowerChar;
    var d := if n < base then n else Remainder(n, base);
    var before := Zeros(k) + if n < base then "" else Digits(Quotient(n, base), base);
    assert Lower(s) == before + [DigitChar(d)];
    var front, c := s[..|s| - 1], s[|s| - 1];
    assert s == front + [c];
    NumberSnoc(front, c, base);
    assert Lower(s)[..|s| - 1] == Lower(front) == before;
    DigitIs(c, d);
    if n < base {
      assert before == Zeros(k);
      ZerosAreDigits(front, k, base);
    } else {
      Division(n, base);
      SpellsDigits(front, k, Quotient(n, base), base);
    }
  }

  /** Which strings stand for a number: those that spell it. */
  lemma NumberIsSpelled(s: string, n: nat, base: nat)
    requires 2 <= base <= 16
    ensures s != "" && AllDigits(s, base) && Number(s, base) == n <==> Spells(s, n, base)
  {
    if s != "" && AllDigits(s, base) {
      var k := DigitsSpell(s, base);
    }
    if Spells(s, n, base) {
      var k :| Lower(s) == Zeros(k) + Digits(n, base);
      SpellsDigits(s, k, n, base);
    }
  }

  lemma {:induction false} LowerAppend(s: string, t: string)
    ensures Lower(s + t) == Lower(s) + Lower(t)
    decreases |t|
  {
    if t == "" {
      assert s + t == s;
    } else {
      assert (s + t)[..|s + t| - 1] == s + t[..|t| - 1];
      LowerAppend(s, t[..|t| - 1]);
    }
  }

  lemma {:induction false} ZerosAreLower(k: nat)
    ensures Lower(Zeros(k)) == Zeros(k)
  {
    if k > 0 {
      ZerosAreLower(k - 1);
      NumberSnoc(Zeros(k - 1), '0', 10);
    }
  }

  lemma DigitCharIsLower(d: nat)
    requires d < 16
    ensures LowerChar(DigitChar(d)) == DigitChar(d)
  {
  }

  lemma {:induction false} DigitsAreLower(n: nat, base: nat)
    requires 2 <= base <= 16
    ensures Lower(Digits(n, base)) == Digits(n, base)
    decreases n
  {
    hide Quotient, Remainder, DigitChar, LowerChar;
    if n < base {
      DigitCharIsLower(n);
      NumberSnoc("", DigitChar(n), base);
      assert "" + [DigitChar(n)] == [DigitChar(n)];
    } else {
      DigitCharIsLower(Remainder(n, base));
      DigitsAreLower(Quotient(n, base), base);
      NumberSnoc(Digits(Quotient(n, base), base), DigitChar(Remainder(n, base)), base);
    }
  }

  /** A number written by division spells itself, with zeros in front as well. */
  lemma DigitsSpellThemselves(k: nat, n: nat, base: nat)
    requires 2 <= base <= 16
    ensures Spells(Zeros(k) + Digits(n, base), n, base)
  {
    LowerAppend(Zeros(k), Digits(n, base));
    ZerosAreLower(k);
    DigitsAreLower(n, base);
  }

  lemma ZeroChar(d: nat)
    requires d < 16
    ensures DigitChar(d) == '0' <==> d == 0
  {
  }

  /** Only zero is written with a zero in front. */
  lemma {:induction false} FirstDigit(n: nat, base: nat)
    requires 2 <= base <= 16
    ensures Digits(n, base)[0] == '0' <==> n == 0
    decreases n
  {
    hide Quotient, Remainder, DigitChar;
    if n < base {
      ZeroChar(n);
    } else {
      Division(n, base);
      FirstDigit(Quotient(n, base), base);
    }
  }

  // ---------------------------------------------------------------------------
  // Where a conversion ends

  lemma {:induction false} DigitEndIs(s: string, i: nat, j: nat, base: nat)
    requires i <= j <= |s|
    requires forall k :: i <= k < j ==> DigitValue(s[k]) < base
    requires j < |s| ==> DigitValue(s[j]) >= base
    ensures DigitEnd(s, i, base) == j
    decreases j - i
  {
    if i < j {
      DigitEndIs(s, i + 1, j, base);
    }
  }

  lemma {:induction false} SpaceEndIs(s: string, i: nat, j: nat)
    requires i <= j <= |s|
    requires forall k :: i <= k < j ==> IsSpace(s[k])
    requires j < |s| ==> !IsSpace(s[j])
    ensures SpaceEnd(s, i) == j
    decreases j - i
  {
    if i < j {
      SpaceEndIs(s, i + 1, j);
    }
  }

  // ---------------------------------------------------------------------------
  // What is read in full is a numeral, and the other way round

  ghost predicate Spaces(t: string) {
    forall i :: 0 <= i < |t| ==> IsSpace(t[i])
  }

  predicate Sign(t: string) {
    t == "" || t == "-" || t == "+"
  }

  /** The prefix and first digit of an integer constant of C, or of a decimal number for base 10. */
  predicate Prefix(t: string, digits: string, base: nat, b: nat) {
    digits != "" &&
    if base == 10 then t == "" && b == 10
    else if t != "" then (t == "0x" || t == "0X") && b == 16
    else b == if digits[0] == '0' then 8 else 10
  }

  ghost predicate Numeral(s: string, space: string, sign: string, prefix: string, digits: string, base: nat, b: nat)
  {
    && s == space + sign + prefix + digits
    && Spaces(space) && Sign(sign) && Prefix(prefix, digits, base, b) && AllDigits(digits, b)
  }

  lemma FullScanIsNumeral(s: string, base: nat) returns (space: string, sign: string, prefix: string, digits: string, b: nat)
    requires base == 0 || base == 10
    requires ScanNumber(s, base).end == |s| != 0
    ensures Numeral(s, space, sign, prefix, digits, base, b)
    ensures ScanNumber(s, base) == Scan(sign == "-", Number(digits, b), |s|)
  {
    hide SignEnd, PrefixEnd, BaseAt, Number, Sign, Prefix, IsSpace, DigitValue, SpaceEnd, DigitEnd, HexPrefixAt;
    var i := SpaceEnd(s, 0);
    var start := SignEnd(s, i);
    SignIsSign(s, i);
    var first := PrefixEnd(s, start, base);
    b := BaseAt(s, start, base);
    space, sign, prefix, digits := s[..i], s[i..start], s[start..first], s[first..];
    assert DigitEnd(s, first, b) == |s| && s[first..|s|] == digits;
    PrefixIsPrefix(s, start, base);
    SplitInFour(s, i, start, first);
  }

  lemma SignIsSign(s: string, i: nat)
    requires i <= |s|
    ensures i <= SignEnd(s, i) <= |s| && Sign(s[i..SignEnd(s, i)])
    ensures s[i..SignEnd(s, i)] == "-" <==> SignEnd(s, i) > i && s[i] == '-'
  {
    assert SignEnd(s, i) > i ==> s[i..i + 1] == [s[i]];
  }

  lemma PrefixIsPrefix(s: string, i: nat, base: nat)
    requires i <= |s| && (base == 0 || base == 10)
    requires PrefixEnd(s, i, base) < |s|
    ensures Prefix(s[i..PrefixEnd(s, i, base)], s[PrefixEnd(s, i, base)..], base, BaseAt(s, i, base))
  {
    if HexPrefixAt(s, i) {
      assert s[i..i + 2] == [s[i], s[i + 1]];
    }
  }

  lemma SplitInFour(s: string, i: nat, j: nat, k: nat)
    requires i <= j <= k <= |s|
    ensures s == s[..i] + s[i..j] + s[j..k] + s[k..]
  {
  }

  lemma NumeralIsFullScan(s: string, space: string, sign: string, prefix: string, digits: string, base: nat, b: nat)
    requires base == 0 || base == 10
    requires Numeral(s, space, sign, prefix, digits, base, b)
    ensures ScanNumber(s, base) == Scan(sign == "-", Number(digits, b), |s|)
  {
    hide SignEnd, PrefixEnd, BaseAt, Number, Sign, Prefix, IsSpace, DigitValue, AllDigits, Spaces, SpaceEnd, DigitEnd;
    var rest := prefix + digits;
    assert space + sign + prefix + digits == space + (sign + rest) == space + sign + rest;
    var i, start := |space|, |space| + |sign|;
    var first := start + |prefix|;
    AfterSpace(s, space, sign + rest, sign, rest, prefix, digits, base, b);
    AfterSign(s, space, sign, rest, prefix, digits, base, b);
    AfterPrefix(s, space + sign, prefix, digits, base, b);
    assert s[first..] == digits && s[first..|s|] == digits;
    AllDigitsEnd(s, first, digits, b);
  }

  lemma RestStarts(rest: string, prefix: string, digits: string, base: nat, b: nat)
    requires rest == prefix + digits
    requires Prefix(prefix, digits, base, b) && AllDigits(digits, b) && (base == 0 || base == 10)
    ensures rest != "" && DigitValue(rest[0]) < 16
  {
    assert DigitValue(digits[0]) < b <= 16;
    assert rest[0] == if prefix != "" then prefix[0] else digits[0];
  }

  lemma AfterSpace(s: string, space: string, tail: string, sign: string, rest: string, prefix: string, digits: string, base: nat, b: nat)
    requires s == space + tail && tail == sign + rest && rest == prefix + digits
    requires Spaces(space) && Sign(sign) && (base == 0 || base == 10)
    requires Prefix(prefix, digits, base, b) && AllDigits(digits, b)
    ensures SpaceEnd(s, 0) == |space|
  {
    RestStarts(rest, prefix, digits, base, b);
    assert s[|space|] == if sign != "" then sign[0] else rest[0];
    SpaceEndIs(s, 0, |space|);
  }

  lemma AfterSign(s: string, space: string, sign: string, rest: string, prefix: string, digits: string, base: nat, b: nat)
    requires s == space + sign + rest && rest == prefix + digits
    requires Sign(sign) && Prefix(prefix, digits, base, b) && AllDigits(digits, b) && (base == 0 || base == 10)
    ensures SignEnd(s, |space|) == |space| + |sign|
    ensures sign != "" ==> (s[|space|] == '-' <==> sign == "-")
  {
    RestStarts(rest, prefix, digits, base, b);
    assert s[|space|] == if sign != "" then sign[0] else rest[0];
  }

  lemma AfterPrefix(s: string, before: string, prefix: string, digits: string, base: nat, b: nat)
    requires s == before + prefix + digits && (base == 0 || base == 10)
    requires Prefix(prefix, digits, base, b) && AllDigits(digits, b)
    ensures PrefixEnd(s, |before|, base) == |before| + |prefix|
    ensures BaseAt(s, |before|, base) == b && digits != ""
  {
    var i := |before|;
    if prefix != "" {
      assert s[i] == prefix[0] && s[i + 1] == prefix[1] && s[i + 2] == digits[0];
    } else {
      assert forall k :: 0 <= k < |digits| ==> s[i + k] == digits[k];
      assert s[i] == digits[0] && (|digits| > 1 ==> s[i + 1] == digits[1]);
      assert |digits| > 1 ==> DigitValue(digits[1]) < b;
    }
  }

  lemma AllDigitsEnd(s: string, first: nat, digits: string, b: nat)
    requires first <= |s| && s[first..] == digits && AllDigits(digits, b)
    ensures DigitEnd(s, first, b) == |s|
  {
    forall k | first <= k < |s|
      ensures DigitValue(s[k]) < b
    {
      assert s[k] == digits[k - first];
    }
    DigitEndIs(s, first, |s|, b);
  }

  // ---------------------------------------------------------------------------
  // The numerals spelled out

  /** The six characters that are space in the C locale. */
  ghost predicate White(t: string) {
    forall i :: 0 <= i < |t| ==> t[i] in " \t\n\U{000B}\U{000C}\r"
  }

  lemma SpaceIs(c: char)
    ensures IsSpace(c) <==> c in " \t\n\U{000B}\U{000C}\r"
  {
  }

  lemma SpacesAreWhite(t: string)
    ensures Spaces(t) <==> White(t)
  {
    hide IsSpace;
    forall i | 0 <= i < |t|
      ensures IsSpace(t[i]) <==> t[i] in " \t\n\U{000B}\U{000C}\r"
    {
      SpaceIs(t[i]);
    }
  }

  /** An integer constant of C without suffix: decimal, octal or hexadecimal. */
  ghost predicate Constant(t: string, n: nat) {
    || (t != "" && t[0] != '0' && Spells(t, n, 10))
    || (t != "" && t[0] == '0' && Spells(t, n, 8))
    || (|t| > 2 && (t[..2] == "0x" || t[..2] == "0X") && Spells(t[2..], n, 16))
  }

  ghost predicate SignedConstant(s: string, space: string, sign: string, t: string, n: nat) {
    s == space + sign + t && White(space) && (sign == "" || sign == "+" || sign == "-") && Constant(t, n)
  }

  ghost predicate SignedDecimal(s: string, space: string, sign: string, t: string, n: nat) {
    s == space + sign + t && White(space) && (sign == "" || sign == "+" || sign == "-") && Spells(t, n, 10)
  }

  lemma DecimalIsNumeral(s: string, space: string, sign: string, t: string, n: nat)
    ensures SignedDecimal(s, space, sign, t, n) <==> Numeral(s, space, sign, "", t, 10, 10) && Number(t, 10) == n
  {
    SpacesAreWhite(space);
    NumberIsSpelled(t, n, 10);
    assert space + sign + "" == space + sign;
  }

  /** A numeral that strtoul reads with base 0 is an integer constant. */
  lemma NumeralIsConstant(s: string, space: string, sign: string, prefix: string, digits: string, b: nat)
    requires Numeral(s, space, sign, prefix, digits, 0, b)
    ensures SignedConstant(s, space, sign, prefix + digits, Number(digits, b))
  {
    hide Spells, Number, AllDigits, White, Spaces;
    SpacesAreWhite(space);
    NumberIsSpelled(digits, Number(digits, b), b);
    var t := prefix + digits;
    assert space + sign + prefix + digits == space + sign + t;
    if prefix == "" {
      assert t == digits;
    } else {
      assert t[..2] == prefix && t[2..] == digits;
    }
  }

  lemma ConstantIsNumeral(s: string, space: string, sign: string, t: string, n: nat)
    returns (prefix: string, digits: string, b: nat)
    requires SignedConstant(s, space, sign, t, n)
    ensures Numeral(s, space, sign, prefix, digits, 0, b) && Number(digits, b) == n
  {
    hide Spells, Number, AllDigits, White, Spaces;
    SpacesAreWhite(space);
    if t[0] != '0' && Spells(t, n, 10) {
      prefix, digits, b := "", t, 10;
    } else if t[0] == '0' && Spells(t, n, 8) {
      prefix, digits, b := "", t, 8;
    } else {
      prefix, digits, b := t[..2], t[2..], 16;
    }
    NumberIsSpelled(digits, n, b);
    assert t == prefix + digits;
    assert space + sign + t == space + sign + prefix + digits;
  }

  /** A number is read back from each of the forms that C has for it. */
  lemma ConstantsAreRead(n: nat)
    requires n <= ULONG_MAX
    ensures Strtoul(Digits(n, 10), 0) == Converted(n, |Digits(n, 10)|, false)
    ensures Strtoul("0" + Digits(n, 8), 0) == Converted(n, |"0" + Digits(n, 8)|, false)
    ensures Strtoul("0x" + Digits(n, 16), 0) == Converted(n, |"0x" + Digits(n, 16)|, false)
    ensures Strtoul("0X" + Digits(n, 16), 0) == Converted(n, |"0X" + Digits(n, 16)|, false)
  {
    hide Spells, Digits, Strtoul;
    DigitsSpellThemselves(0, n, 10);
    DigitsSpellThemselves(0, n, 8);
    DigitsSpellThemselves(1, n, 8);
    DigitsSpellThemselves(0, n, 16);
    FirstDigit(n, 10);
    assert Zeros(0) + Digits(n, 10) == Digits(n, 10) && Zeros(0) + Digits(n, 8) == Digits(n, 8);
    assert Zeros(0) + Digits(n, 16) == Digits(n, 16) && Zeros(1) == "0";
    if n == 0 {
      ZeroIsWritten();
    }
    ConstantIsRead(Digits(n, 10), n);
    ConstantIsRead("0" + Digits(n, 8), n);
    ConstantIsRead("0x" + Digits(n, 16), n);
    ConstantIsRead("0X" + Digits(n, 16), n);
  }

  lemma ZeroIsWritten()
    ensures Digits(0, 10) == Digits(0, 8) == "0"
  {
  }

  lemma ConstantIsRead(t: string, n: nat)
    requires n <= ULONG_MAX && Constant(t, n)
    ensures Strtoul(t, 0) == Converted(n, |t|, false)
  {
    hide Constant, Numeral, ScanNumber;
    assert t == "" + "" + t;
    assert SignedConstant(t, "", "", t, n);
    var prefix, digits, b := ConstantIsNumeral(t, "", "", t, n);
    NumeralIsFullScan(t, "", "", prefix, digits, 0, b);
  }
}
