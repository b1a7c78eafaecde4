/**
Numbers as text: `itoa` prints with `showbase`, `atoi` reads with base detection. Printing follows
section 22.4.2.2.2 and reading section 22.4.2.1.2 of ISO C++11, in the classic locale.
 */
module Numbers {

  // ----- printing

  function DigitChar(d: nat): char
    requires d < 16
  {
    "0123456789abcdef"[d]
  }

  /** Positional notation, most significant digit first, without leading zeros. */
  function Digits(n: nat, base: nat): (s: string)
    requires 2 <= base <= 16
    ensures |s| >= 1
  {
    if n < base then [DigitChar(n)] else Digits(n / base, base) + [DigitChar(n % base)]
  }

  function ItoaDec(n: nat): string {
    Digits(n, 10)
  }

  /** `showbase` prefixes hexadecimal with 0x, except for zero. */
  function ItoaHex(n: nat): string {
    if n == 0 then "0" else "0x" + Digits(n, 16)
  }

  // ----- reading

  /** The value of a digit in any base up to 16, or 16 for every other character. */
  function DigitValue(c: char): nat {
    if '0' <= c <= '9' then (c - '0') as nat
    else if 'a' <= c <= 'f' then (c - 'a') as nat + 10
    else if 'A' <= c <= 'F' then (c - 'A') as nat + 10
    else 16
  }

  predicate AllDigits(s: string, base: nat) {
    forall i :: 0 <= i < |s| ==> DigitValue(s[i]) < base
  }

  /** The longest prefix that consists of digits. */
  function DigitPrefix(s: string, base: nat): string {
    if s != "" && DigitValue(s[0]) < base then [s[0]] + DigitPrefix(s[1..], base) else ""
  }

  function Value(s: string, base: nat): nat {
    if s == "" then 0 else Value(s[..|s| - 1], base) * base + DigitValue(s[|s| - 1])
  }

  predicate IsSpace(c: char) {
    c == ' ' || '\t' <= c <= '\r'
  }

  function SkipSpaces(s: string): string {
    if s != "" && IsSpace(s[0]) then SkipSpaces(s[1..]) else s
  }

  /** How the prefix selects the base: 0x or 0X hexadecimal, 0 octal, anything else decimal. */
  function DetectBase(s: string): (r: (nat, string))
    ensures r.0 in {8, 10, 16}
  {
    if |s| >= 2 && s[0] == '0' && (s[1] == 'x' || s[1] == 'X') then (16, s[2..])
    else if s != "" && s[0] == '0' then (8, s)
    else (10, s)
  }

  datatype Parsed = Number(n: nat) | NoDigits | Overflow

  /** Reading an unsigned integer type with values below `bound`; whatever follows the digits is left alone. */
  function Atoi(text: string, bound: nat): (r: Parsed)
    requires bound > 0
    ensures r.Number? ==> r.n < bound
  {
    var s := SkipSpaces(text);
    var negative := s != "" && s[0] == '-';
    var signed := negative || (s != "" && s[0] == '+');
    var (base, body) := DetectBase(if signed then s[1..] else s);
    var digits := DigitPrefix(body, base);
    var v := Value(digits, base);
    if digits == "" then NoDigits
    else if v >= bound then Overflow
    else Number(if negative then (bound - v) % bound else v)
  }

  // ----- printing then reading

  lemma {:induction false} DigitRoundTrip(d: nat)
    requires d < 16
    ensures DigitValue(DigitChar(d)) == d
  {
  }

  lemma {:induction false} ValueAppend(s: string, c: char, base: nat, q: nat, r: nat)
    requires Value(s, base) == q && DigitValue(c) == r
    ensures Value(s + [c], base) == q * base + r
  {
  }

  lemma {:induction false} SplitLastDigit(n: nat, base: nat)
    requires base > 0
    ensures n == n / base * base + n % base
    ensures n % base < base
    ensures n >= base >= 2 ==> 1 <= n / base < n
  {
  }

  lemma {:induction false} DigitsSplit(n: nat, base: nat)
    requires 2 <= base <= 16 && base <= n
    ensures Digits(n, base) == Digits(n / base, base) + [DigitChar(n % base)]
  {
  }

  lemma {:induction false} AllDigitsAppend(s: string, c: char, base: nat)
    requires AllDigits(s, base) && DigitValue(c) < base
    ensures AllDigits(s + [c], base)
  {
  }

  lemma {:induction false} DigitsAllDigits(n: nat, base: nat)
    requires 2 <= base <= 16
    ensures AllDigits(Digits(n, base), base)
  {
    if n < base {
      DigitRoundTrip(n);
    } else {
      var q, r := n / base, n % base;
      SplitLastDigit(n, base);
      DigitsSplit(n, base);
      DigitRoundTrip(r);
      DigitsAllDigits(q, base);
      AllDigitsAppend(Digits(q, base), DigitChar(r), base);
    }
  }

  lemma {:induction false} DigitsValue(n: nat, base: nat)
    requires 2 <= base <= 16
    ensures Value(Digits(n, base), base) == n
  {
    if n < base {
      DigitRoundTrip(n);
      ValueAppend("", DigitChar(n), base, 0, n);
      assert "" + [DigitChar(n)] == Digits(n, base);
    } else {
      var q, r := n / base, n % base;
      SplitLastDigit(n, base);
      DigitsSplit(n, base);
      DigitRoundTrip(r);
      DigitsValue(q, base);
      ValueAppend(Digits(q, base), DigitChar(r), base, q, r);
    }
  }

  /** The digits of a number are digits, and reading them gives the number. */
  lemma {:induction false} DigitsAreDigits(n: nat, base: nat)
    requires 2 <= base <= 16
    ensures AllDigits(Digits(n, base), base)
    ensures Value(Digits(n, base), base) == n
  {
    DigitsAllDigits(n, base);
    DigitsValue(n, base);
  }

  function Pow(base: nat, k: nat): nat {
    if k == 0 then 1 else base * Pow(base, k - 1)
  }

  /** The place of a character among 0 to 9 and lower-case a to f, the characters of a print-out. */
  function PlainDigit(c: char): (d: int) {
    if '0' <= c <= '9' then c as int - 0x30 else if 'a' <= c <= 'f' then c as int - 0x61 + 10 else -1
  }

  /** Each character times the power of the base that belongs to its place. */
  function WeightedSum(s: string, base: nat): int {
    if s == "" then 0 else PlainDigit(s[0]) * Pow(base, |s| - 1) + WeightedSum(s[1..], base)
  }

  /** `s` is `n` in positional notation with lower-case digits and without leading zeros. */
  ghost predicate Writes(s: string, n: nat, base: nat) {
    && s != "" && (s[0] == '0' ==> |s| == 1)
    && PlainDigits(s, base) && WeightedSum(s, base) == n
  }

  lemma {:induction false} PlainRoundTrip(d: nat)
    requires d < 16
    ensures PlainDigit(DigitChar(d)) == d
  {
  }

  lemma {:induction false} MoveFactor(a: int, b: int, c: int, d: int)
    ensures b * (a * c + d) == a * (b * c) + b * d
  {
  }

  lemma {:induction false} WeightedSnoc(s: string, c: char, base: nat)
    ensures WeightedSum(s + [c], base) == base * WeightedSum(s, base) + PlainDigit(c)
  {
    var s' := s + [c];
    if s == "" {
      assert s' == [c] && [c][1..] == "" && Pow(base, 0) == 1;
    } else {
      assert s'[0] == s[0] && s'[1..] == s[1..] + [c];
      WeightedSnoc(s[1..], c, base);
      MoveFactor(PlainDigit(s[0]), base, Pow(base, |s| - 1), WeightedSum(s[1..], base));
    }
  }

  lemma {:induction false} WeightedAppend(s: string, c: char, base: nat, q: int, r: int)
    requires WeightedSum(s, base) == q && PlainDigit(c) == r
    ensures WeightedSum(s + [c], base) == q * base + r
  {
    WeightedSnoc(s, c, base);
  }

  ghost predicate PlainDigits(s: string, base: nat) {
    forall i :: 0 <= i < |s| ==> 0 <= PlainDigit(s[i]) < base
  }

  lemma {:induction false} DigitsPlain(n: nat, base: nat)
    requires 2 <= base <= 16
    ensures PlainDigits(Digits(n, base), base)
  {
    PlainRoundTrip(n % base);
    SplitLastDigit(n, base);
    if n >= base {
      DigitsSplit(n, base);
      DigitsPlain(n / base, base);
    }
  }

  lemma {:induction false} DigitsWeigh(n: nat, base: nat)
    requires 2 <= base <= 16
    ensures WeightedSum(Digits(n, base), base) == n
  {
    var q, r := n / base, n % base;
    PlainRoundTrip(r);
    SplitLastDigit(n, base);
    if n < base {
      WeightedAppend("", DigitChar(n), base, 0, n);
      assert "" + [DigitChar(n)] == Digits(n, base);
    } else {
      DigitsSplit(n, base);
      DigitsWeigh(q, base);
      WeightedAppend(Digits(q, base), DigitChar(r), base, q, r);
    }
  }

  lemma {:induction false} DigitsWrite(n: nat, base: nat)
    requires 2 <= base <= 16
    ensures Writes(Digits(n, base), n, base)
  {
    LeadingDigit(n, base);
    DigitsPlain(n, base);
    DigitsWeigh(n, base);
  }

  /** Decimal print-outs are plain positional notation, hexadecimal ones carry 0x unless they are a single zero. */
  lemma {:induction false} PrintedForm(n: nat)
    ensures Writes(ItoaDec(n), n, 10)
    ensures ItoaHex(0) == "0"
    ensures n > 0 ==> ItoaHex(n)[..2] == "0x" && Writes(ItoaHex(n)[2..], n, 16)
  {
    DigitsWrite(n, 10);
    DigitsWrite(n, 16);
  }

  /** Only zero is printed with a leading zero. */
  lemma {:induction false} LeadingDigit(n: nat, base: nat)
    requires 2 <= base <= 16
    ensures Digits(n, base)[0] == '0' <==> n == 0
    ensures n == 0 ==> Digits(n, base) == "0"
  {
    if n < base {
      DigitRoundTrip(n);
    } else {
      LeadingDigit(n / base, base);
      assert n / base >= 1;
    }
  }

  lemma {:induction false} PrefixOfDigits(s: string, base: nat)
    requires AllDigits(s, base)
    ensures DigitPrefix(s, base) == s
  {
    if s != "" {
      PrefixOfDigits(s[1..], base);
    }
  }

  lemma {:induction false} StartsPlain(s: string, base: nat)
    requires s != "" && AllDigits(s, base) && base <= 16
    ensures !IsSpace(s[0]) && s[0] != '-' && s[0] != '+'
    ensures SkipSpaces(s) == s
  {
  }

  /** A decimal print-out reads back as the same number exactly when the type can hold it. */
  lemma {:induction false} DecRoundTrip(n: nat, bound: nat)
    requires bound > 0
    ensures Atoi(ItoaDec(n), bound) == if n < bound then Number(n) else Overflow
  {
    var s := ItoaDec(n);
    DigitsAreDigits(n, 10);
    StartsPlain(s, 10);
    LeadingDigit(n, 10);
    if n == 0 {
      assert s == "0" && DetectBase(s) == (8, s);
      assert AllDigits(s, 8);
      PrefixOfDigits(s, 8);
      assert s[..0] == "" && Value(s, 8) == 0;
    } else {
      assert DetectBase(s) == (10, s);
      PrefixOfDigits(s, 10);
    }
  }

  /** The same for the hexadecimal print-out, whose zero carries no 0x. */
  lemma {:induction false} HexRoundTrip(n: nat, bound: nat)
    requires bound > 0
    ensures Atoi(ItoaHex(n), bound) == if n < bound then Number(n) else Overflow
  {
    if n == 0 {
      LeadingDigit(0, 10);
      DecRoundTrip(0, bound);
    } else {
      var s := ItoaHex(n);
      DigitsAreDigits(n, 16);
      assert s[0] == '0' && s[1] == 'x' && s[2..] == Digits(n, 16);
      assert SkipSpaces(s) == s;
      PrefixOfDigits(s[2..], 16);
    }
  }

  /** The base really is taken from the prefix: decimal digits behind a zero are read as octal. */
  lemma {:induction false} LeadingZeroIsOctal(n: nat, bound: nat)
    requires bound > 0
    ensures Atoi("0" + Digits(n, 8), bound) == if n < bound then Number(n) else Overflow
  {
    var d := Digits(n, 8);
    var s := "0" + d;
    DigitsAreDigits(n, 8);
    assert AllDigits(s, 8);
    StartsPlain(s, 8);
    assert DigitValue(d[0]) < 8 && s[1] == d[0];
    assert DetectBase(s) == (8, s);
    PrefixOfDigits(s, 8);
    LeadingZeroKeepsValue(d, 8);
  }

  lemma {:induction false} LeadingZeroKeepsValue(d: string, base: nat)
    ensures Value("0" + d, base) == Value(d, base)
  {
    var s := "0" + d;
    if d == "" {
      assert s[..0] == "";
      assert Value("", base) * base == 0;
    } else {
      assert s[..|s| - 1] == "0" + d[..|d| - 1];
      LeadingZeroKeepsValue(d[..|d| - 1], base);
    }
  }

  // ----- reading any text

  /** What the characters count for in a number that is read: letters may be of either case. */
  lemma {:induction false} DigitMeaning(c: char)
    ensures DigitValue(c) < 16 <==> '0' <= c <= '9' || 'a' <= c <= 'f' || 'A' <= c <= 'F'
    ensures forall i :: 0 <= i < 16 ==> DigitValue("0123456789abcdef"[i]) == i
    ensures forall i :: 0 <= i < 16 ==> DigitValue("0123456789ABCDEF"[i]) == i
  {
  }

  /** Blanks, tabs, line ends and the like. */
  predicate Blank(s: string) {
    forall i :: 0 <= i < |s| ==> s[i] as int == 32 || 9 <= s[i] as int <= 13
  }

  predicate Signed(sign: string) {
    sign == "" || sign == "+" || sign == "-"
  }

  /** The spellings of each base; `digits` is what comes behind the prefix. */
  predicate Spells(prefix: string, base: nat, digits: string) {
    match base
    case 16 => prefix == "0x" || prefix == "0X"
    case 8 => prefix == "" && digits != "" && digits[0] == '0'
    case 10 => prefix == "" && (digits == "" || digits[0] != '0')
    case _ => false
  }

  /** Something that ends a number in this base. */
  predicate EndsNumber(tail: string, base: nat) {
    tail == "" || DigitValue(tail[0]) >= base
  }

  lemma {:induction false} SkipBlanks(spaces: string, text: string)
    requires Blank(spaces) && (text == "" || !IsSpace(text[0]))
    ensures SkipSpaces(spaces + text) == text
  {
    if spaces == "" {
      assert spaces + text == text;
    } else {
      assert (spaces + text)[1..] == spaces[1..] + text;
      SkipBlanks(spaces[1..], text);
    }
  }

  lemma {:induction false} PrefixBefore(digits: string, tail: string, base: nat)
    requires AllDigits(digits, base) && EndsNumber(tail, base)
    ensures DigitPrefix(digits + tail, base) == digits
  {
    if digits == "" {
      assert digits + tail == tail;
    } else {
      assert (digits + tail)[1..] == digits[1..] + tail;
      PrefixBefore(digits[1..], tail, base);
    }
  }

  lemma {:induction false} BaseOf(prefix: string, base: nat, digits: string, tail: string)
    requires Spells(prefix, base, digits) && AllDigits(digits, base) && EndsNumber(tail, base)
    requires digits != ""
    requires base == 8 && |digits| == 1 ==> tail == "" || (tail[0] != 'x' && tail[0] != 'X')
    ensures DetectBase(prefix + digits + tail) == (base, digits + tail)
  {
    var s := prefix + digits + tail;
    if base == 16 {
      assert s[0] == '0' && s[1] == prefix[1] && s[2..] == digits + tail;
    } else {
      assert s == digits + tail && s[0] == digits[0];
      assert |s| >= 2 ==> s[1] == if |digits| > 1 then digits[1] else tail[0];
    }
  }

  lemma {:induction false} WrapNegative(v: nat, bound: nat)
    requires v < bound
    ensures (bound - v) % bound == if v == 0 then 0 else bound - v
  {
  }

  /** What is left to do behind the blanks. */
  lemma {:induction false} AtoiSigned(
    text: string, sign: string, body: string, base: nat, rest: string, digits: string, bound: nat)
    requires bound > 0 && Signed(sign) && SkipSpaces(text) == sign + body
    requires body != "" && body[0] != '-' && body[0] != '+'
    requires DetectBase(body) == (base, rest) && DigitPrefix(rest, base) == digits && digits != ""
    ensures var v := Value(digits, base);
            Atoi(text, bound) ==
            if v >= bound then Overflow else if sign == "-" && v != 0 then Number(bound - v) else Number(v)
  {
    var s, v := SkipSpaces(text), Value(digits, base);
    if sign == "" {
      assert s == body;
    } else {
      assert s[0] == sign[0] && s[1..] == body;
    }
    if v < bound {
      WrapNegative(v, bound);
    }
  }

  /**
  Reading skips blanks, takes a sign and a prefix that selects the base, and stops behind the last
  digit of that base. A minus sign wraps around within the type, as for `strtoull`.
   */
  lemma {:induction false} AtoiReads(
    spaces: string, sign: string, prefix: string, base: nat, digits: string, tail: string, bound: nat)
    requires bound > 0 && Blank(spaces) && Signed(sign) && digits != ""
    requires Spells(prefix, base, digits) && AllDigits(digits, base) && EndsNumber(tail, base)
    requires base == 8 && |digits| == 1 ==> tail == "" || (tail[0] != 'x' && tail[0] != 'X')
    ensures var v := Value(digits, base);
            Atoi(spaces + (sign + (prefix + digits + tail)), bound) ==
            if v >= bound then Overflow else if sign == "-" && v != 0 then Number(bound - v) else Number(v)
  {
    var body := prefix + digits + tail;
    PlainStart(prefix, base, digits, tail);
    SkipBlanks(spaces, sign + body);
    BaseOf(prefix, base, digits, tail);
    PrefixBefore(digits, tail, base);
    AtoiSigned(spaces + (sign + body), sign, body, base, digits + tail, digits, bound);
  }

  lemma {:induction false} PlainStart(prefix: string, base: nat, digits: string, tail: string)
    requires Spells(prefix, base, digits) && AllDigits(digits, base) && digits != ""
    ensures var body := prefix + digits + tail;
            body != "" && !IsSpace(body[0]) && body[0] != '-' && body[0] != '+'
    ensures forall sign :: Signed(sign) ==> !IsSpace((sign + (prefix + digits + tail))[0])
  {
    var body := prefix + digits + tail;
    assert body[0] == if prefix == "" then digits[0] else prefix[0];
    assert DigitValue(digits[0]) < 16;
    forall sign | Signed(sign)
      ensures !IsSpace((sign + body)[0])
    {
      assert (sign + body)[0] == if sign == "" then body[0] else sign[0];
    }
  }

  /** Text that does not go on with a digit behind blanks and a sign is no number. */
  lemma {:induction false} AtoiRejects(spaces: string, sign: string, rest: string, bound: nat)
    requires bound > 0 && Blank(spaces) && Signed(sign)
    requires rest == "" || (DigitValue(rest[0]) >= 10 && (sign == "" ==> !IsSpace(rest[0]) && rest[0] !in "+-"))
    ensures Atoi(spaces + (sign + rest), bound) == NoDigits
  {
    SkipBlanks(spaces, sign + rest);
    assert sign == "" ==> sign + rest == rest;
    assert sign != "" ==> (sign + rest)[1..] == rest;
    assert "+-"[0] == '+' && "+-"[1] == '-';
    assert DetectBase(rest) == (10, rest);
    PrefixBefore("", rest, 10);
    assert "" + rest == rest;
  }

  /** Nor is a hexadecimal prefix without a digit behind it. */
  lemma {:induction false} AtoiRejectsBarePrefix(spaces: string, sign: string, prefix: string, rest: string, bound: nat)
    requires bound > 0 && Blank(spaces) && Signed(sign) && Spells(prefix, 16, "") && EndsNumber(rest, 16)
    ensures Atoi(spaces + (sign + (prefix + rest)), bound) == NoDigits
  {
    var body := prefix + rest;
    assert body[0] == '0' && body[1] == prefix[1] && body[2..] == rest;
    SkipBlanks(spaces, sign + body);
    assert sign == "" ==> sign + body == body;
    assert sign != "" ==> (sign + body)[1..] == body;
    PrefixBefore("", rest, 16);
    assert "" + rest == rest;
  }

  // ----- instance names

  /** The remote name of an instance: id and generation in decimal, joined by an underscore. */
  function InstanceName(id: nat, gn: nat): string {
    ItoaDec(id) + "_" + ItoaDec(gn)
  }

  lemma {:induction false} DecInjective(m: nat, n: nat)
    requires ItoaDec(m) == ItoaDec(n)
    ensures m == n
  {
    DigitsAreDigits(m, 10);
    DigitsAreDigits(n, 10);
  }

  lemma {:induction false} NoUnderscore(digits: string, rest: string, i: nat)
    requires AllDigits(digits, 10) && i < |digits|
    ensures (digits + rest)[i] != '_'
  {
  }

  lemma {:induction false} SplitAtUnderscore(a: string, b: string, c: string, d: string)
    requires AllDigits(a, 10) && AllDigits(c, 10)
    requires a + "_" + b == c + "_" + d
    ensures a == c && b == d
  {
    var s := a + "_" + b;
    assert s == a + ("_" + b) && s == c + ("_" + d);
    assert s[|a|] == '_' && s[|c|] == '_';
    if |a| < |c| {
      NoUnderscore(c, "_" + d, |a|);
    } else if |c| < |a| {
      NoUnderscore(a, "_" + b, |c|);
    }
    assert a == s[..|a|] && c == s[..|c|];
    assert b == s[|a| + 1..] && d == s[|c| + 1..];
  }

  /** One underscore, with the decimal id before it and the decimal generation behind it. */
  ghost predicate Names(name: string, id: nat, gn: nat) {
    exists i ::
      && 0 <= i < |name| && name[i] == '_'
      && Writes(name[..i], id, 10) && Writes(name[i + 1..], gn, 10)
      && AllDigits(name[..i], 10) && Value(name[..i], 10) == id
      && AllDigits(name[i + 1..], 10) && Value(name[i + 1..], 10) == gn
      && forall j :: 0 <= j < |name| && j != i ==> '0' <= name[j] <= '9'
  }

  lemma {:induction false} DecimalChars(s: string)
    requires AllDigits(s, 10)
    ensures forall j :: 0 <= j < |s| ==> '0' <= s[j] <= '9'
  {
  }

  lemma {:induction false} JoinedNames(a: string, b: string, id: nat, gn: nat)
    requires Writes(a, id, 10) && AllDigits(a, 10) && Value(a, 10) == id
    requires Writes(b, gn, 10) && AllDigits(b, 10) && Value(b, 10) == gn
    ensures Names(a + "_" + b, id, gn)
  {
    var name, i := a + "_" + b, |a|;
    assert name[..i] == a && name[i] == '_' && name[i + 1..] == b;
    DecimalChars(a);
    DecimalChars(b);
    assert forall j :: i < j < |name| ==> name[j] == b[j - i - 1];
  }

  lemma {:induction false} InstanceNameReads(id: nat, gn: nat)
    ensures Names(InstanceName(id, gn), id, gn)
  {
    PrintedForm(id);
    PrintedForm(gn);
    DigitsAreDigits(id, 10);
    DigitsAreDigits(gn, 10);
    JoinedNames(ItoaDec(id), ItoaDec(gn), id, gn);
  }

  /** Different instances have different names. */
  lemma {:induction false} InstanceNameInjective(id: nat, gn: nat, id': nat, gn': nat)
    ensures InstanceName(id, gn) == InstanceName(id', gn') <==> id == id' && gn == gn'
  {
    if InstanceName(id, gn) == InstanceName(id', gn') {
      DigitsAreDigits(id, 10);
      DigitsAreDigits(id', 10);
      SplitAtUnderscore(ItoaDec(id), ItoaDec(gn), ItoaDec(id'), ItoaDec(gn'));
      DecInjective(id, id');
      DecInjective(gn, gn');
    }
  }
}
