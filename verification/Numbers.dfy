/** Number printing and parsing: `strtol`, `ltostr` and `printnum`. Strings end at the first
    character 0; reading past the end of a sequence reads that character. */
module Numbers {
  import opened Seqs

  /** A C `long` has 32 bits here. */
  const HALF: int := 0x8000_0000
  const FULL: int := 0x1_0000_0000

  predicate IsLong(v: int) { -HALF <= v < HALF }

  /** The 32-bit value with the same low bits. */
  function Wrap(x: int): (r: int)
    ensures IsLong(r)
    ensures IsLong(x) ==> r == x
  {
    (x + HALF) % FULL - HALF
  }

  lemma WrapPeriod(x: int, k: int)
    ensures Wrap(x + k * FULL) == Wrap(x)
  {
    var y := x + HALF;
    assert x + k * FULL + HALF == y + k * FULL;
    ModPeriod(y, k);
  }

  lemma ModPeriod(y: int, k: int)
    ensures (y + k * FULL) % FULL == y % FULL
  {
    var q, r := y / FULL, y % FULL;
    assert y + k * FULL == (q + k) * FULL + r;
  }

  lemma WrapOff(x: int) returns (k: int)
    ensures Wrap(x) == x + k * FULL
  {
    k := -((x + HALF) / FULL);
  }

  /** Wrapping every step is wrapping the result. */
  lemma WrapStep(x: int, b: int, d: int)
    ensures Wrap(Wrap(x) * b + d) == Wrap(x * b + d)
  {
    var k := WrapOff(x);
    assert (x + k * FULL) * b + d == (x * b + d) + (k * b) * FULL by { Distribute(x, k, b); }
    WrapPeriod(x * b + d, k * b);
  }

  lemma Distribute(x: int, k: int, b: int)
    ensures (x + k * FULL) * b == x * b + (k * b) * FULL
  {
  }

  lemma WrapNegated(x: int)
    ensures Wrap(-Wrap(x)) == Wrap(-x)
  {
    var k := WrapOff(x);
    assert -Wrap(x) == -x + (-k) * FULL;
    WrapPeriod(-x, -k);
  }

  // ----- characters and digits

  function At(s: string, i: nat): (c: char) { if i < |s| then s[i] else '\0' }

  predicate IsBlank(c: char) { c == ' ' || c == '\t' }

  /** The digit a character stands for; 36 for none. */
  function DigitOf(c: char): (r: nat)
    ensures r <= 36
  {
    if '0' <= c <= '9' then (c as int) - ('0' as int)
    else if 'a' <= c <= 'z' then (c as int) - ('a' as int) + 10
    else if 'A' <= c <= 'Z' then (c as int) - ('A' as int) + 10
    else 36
  }

  predicate IsDigit(c: char, base: int) { DigitOf(c) < 36 && DigitOf(c) < base }

  ghost predicate AllDigits(s: string, base: int) { forall i :: 0 <= i < |s| ==> IsDigit(s[i], base) }

  /** The number a digit string denotes. */
  function Value(s: string, base: int): (r: int)
    decreases |s|
  {
    if s == [] then 0 else Value(s[..|s| - 1], base) * base + DigitOf(s[|s| - 1])
  }

  // ----- strtol

  /** The end of the blanks from `i` on. */
  function BlanksEnd(s: string, i: nat): (r: nat)
    decreases |s| - i
  {
    if IsBlank(At(s, i)) then BlanksEnd(s, i + 1) else i
  }

  function SignEnd(s: string, i: nat): (r: nat) { if At(s, i) == '+' || At(s, i) == '-' then i + 1 else i }

  /** The prefix rule: where the digits start, and their base. */
  function Prefix(s: string, i: nat, base: int): (r: (nat, int)) {
    if (base == 0 || base == 16) && At(s, i) == '0' && At(s, i + 1) == 'x' then (i + 2, 16)
    else if base == 0 && At(s, i) == '0' then (i + 1, 8)
    else if base == 0 then (i, 10)
    else (i, base)
  }

  /** The end of the digits from `i` on. */
  function DigitsEnd(s: string, i: nat, base: int): (r: nat)
    ensures r >= i && (r > i ==> r <= |s|)
    decreases |s| - i
  {
    if IsDigit(At(s, i), base) then DigitsEnd(s, i + 1, base) else i
  }

  /** The part of `s` from `i` to `j`, clipped to the string. */
  function Slice(s: string, i: nat, j: nat): (r: string) { if i <= j <= |s| then s[i..j] else [] }

  /** The parts of a text that matter: sign, digits, their base, and the position of the
      first character not read. */
  datatype Parsed = Parsed(negative: bool, digits: string, base: int, end: nat)

  function Parse(s: string, base: int): (p: Parsed) {
    var start := BlanksEnd(s, 0);
    var (i, b) := Prefix(s, SignEnd(s, start), base);
    var j := DigitsEnd(s, i, b);
    Parsed(At(s, start) == '-', Slice(s, i, j), b, j)
  }

  /** The number a parsed text stands for, wrapped to 32 bits. */
  function Meaning(p: Parsed): (v: int) {
    Wrap(if p.negative then -Value(p.digits, p.base) else Value(p.digits, p.base))
  }

  /** The value and the end position that `strtol` returns. */
  function Strtol(s: string, base: int): (r: (int, nat)) {
    (Meaning(Parse(s, base)), Parse(s, base).end)
  }

  /** `strtol`, loop by loop. */
  method StrtolCode(s: string, base: int) returns (value: int, end: nat)
    ensures (value, end) == Strtol(s, base)
  {
    var start := SkipBlanks(s);
    var i, neg := start, false;
    if At(s, i) == '+' {
      i := i + 1;
    } else if At(s, i) == '-' {
      i := i + 1;
      neg := true;
    }
    var first, b := ReadPrefix(s, i, base);
    var val;
    val, end := DigitsCode(s, first, b);
    WrapNegated(Value(Slice(s, first, end), b));
    value := if neg then Wrap(-val) else val;
  }

  method SkipBlanks(s: string) returns (i: nat)
    ensures i == BlanksEnd(s, 0)
  {
    i := 0;
    while At(s, i) == ' ' || At(s, i) == '\t'
      invariant BlanksEnd(s, i) == BlanksEnd(s, 0)
      decreases |s| - i
    {
      i := i + 1;
    }
  }

  method ReadPrefix(s: string, i: nat, base: int) returns (j: nat, b: int)
    ensures (j, b) == Prefix(s, i, base)
  {
    j, b := i, base;
    if (b == 0 || b == 16) && At(s, i) == '0' && At(s, i + 1) == 'x' {
      j, b := i + 2, 16;
    } else if b == 0 && At(s, i) == '0' {
      j, b := i + 1, 8;
    } else if b == 0 {
      b := 10;
    }
  }

  /** The digit loop. */
  method DigitsCode(s: string, start: nat, b: int) returns (val: int, end: nat)
    ensures end == DigitsEnd(s, start, b) && val == Wrap(Value(Slice(s, start, end), b))
  {
    val, end := 0, start;
    while true
      invariant start <= end && (end > start ==> end <= |s|)
      invariant DigitsEnd(s, end, b) == DigitsEnd(s, start, b)
      invariant val == Wrap(Value(Slice(s, start, end), b))
      decreases |s| - end
    {
      var c := At(s, end);
      var dig := ReadDigit(c);
      if dig == 36 || dig >= b { break; }
      DigitStep(s, start, end, b);
      val, end := Wrap(val * b + dig), end + 1;
    }
  }

  lemma DigitStep(s: string, i: nat, j: nat, b: int)
    requires i <= j < |s|
    ensures Wrap(Wrap(Value(Slice(s, i, j), b)) * b + DigitOf(s[j])) == Wrap(Value(Slice(s, i, j + 1), b))
  {
    SliceStep(s, i, j, b);
    WrapStep(Value(Slice(s, i, j), b), b, DigitOf(s[j]));
  }

  /** The digit a character stands for; 36 if it is none, where the loop stops. */
  method ReadDigit(c: char) returns (dig: nat)
    ensures dig == DigitOf(c)
  {
    if '0' <= c <= '9' {
      dig := (c as int) - ('0' as int);
    } else if 'a' <= c <= 'z' {
      dig := (c as int) - ('a' as int) + 10;
    } else if 'A' <= c <= 'Z' {
      dig := (c as int) - ('A' as int) + 10;
    } else {
      dig := 36;
    }
  }

  lemma SliceStep(s: string, i: nat, j: nat, b: int)
    requires i <= j < |s|
    ensures Value(Slice(s, i, j + 1), b) == Value(Slice(s, i, j), b) * b + DigitOf(s[j])
  {
    assert s[i..j + 1][..j - i] == s[i..j];
  }

  // ----- what strtol reads

  lemma {:induction false} BlanksEndIs(s: string, i: nat, j: nat)
    requires i <= j <= |s| && (forall k :: i <= k < j ==> IsBlank(s[k])) && !IsBlank(At(s, j))
    ensures BlanksEnd(s, i) == j
    decreases j - i
  {
    if i < j { BlanksEndIs(s, i + 1, j); }
  }

  lemma {:induction false} DigitsEndIs(s: string, i: nat, j: nat, b: int)
    requires i <= j <= |s| && (forall k :: i <= k < j ==> IsDigit(s[k], b)) && !IsDigit(At(s, j), b)
    ensures DigitsEnd(s, i, b) == j
    decreases j - i
  {
    if i < j { DigitsEndIs(s, i + 1, j, b); }
  }

  /** `strtol` of a text whose parts end at `i` (blanks), `j` (sign), `k` (prefix) and
      `e` (digits). */
  lemma ParseAt(s: string, i: nat, j: nat, k: nat, e: nat, base: int, b: int)
    requires k <= e <= |s| && i <= |s|
    requires (forall x :: 0 <= x < i ==> IsBlank(s[x])) && !IsBlank(At(s, i))
    requires SignEnd(s, i) == j && Prefix(s, j, base) == (k, b)
    requires (forall x :: k <= x < e ==> IsDigit(s[x], b)) && !IsDigit(At(s, e), b)
    ensures Parse(s, base) == Parsed(At(s, i) == '-', s[k..e], b, e)
  {
    BlanksEndIs(s, 0, i);
    DigitsEndIs(s, k, e, b);
  }

  /** A text of blanks and digits only. */
  lemma PlainNumber(s: string, i: nat, base: nat)
    requires i < |s| && 2 <= base && (forall x :: 0 <= x < i ==> IsBlank(s[x]))
    requires forall x :: i <= x < |s| ==> IsDigit(s[x], base) && s[x] != 'x'
    ensures Parse(s, base) == Parsed(false, s[i..], base, |s|)
  {
    assert IsDigit(s[i], base) && At(s, i) == s[i];
    assert At(s, i + 1) != 'x';
    assert s[i..|s|] == s[i..];
    ParseAt(s, i, i, i, |s|, base, base);
  }

  /** A minus sign, decimal digits, and something that is no digit at `e`. */
  lemma NegativeNumber(s: string, e: nat)
    requires 0 < e <= |s| && s[0] == '-' && (forall x :: 1 <= x < e ==> IsDigit(s[x], 10))
    requires !IsDigit(At(s, e), 10)
    ensures Parse(s, 10) == Parsed(true, s[1..e], 10, e)
  {
    ParseAt(s, 0, 1, 1, e, 10, 10);
  }

  /** Hexadecimal digits behind "0x", read in base 16 or in base 0. */
  lemma PrefixedNumber(s: string, base: int)
    requires |s| >= 2 && s[0] == '0' && s[1] == 'x' && base in {0, 16}
    requires forall x :: 2 <= x < |s| ==> IsDigit(s[x], 16)
    ensures Parse(s, base) == Parsed(false, s[2..], 16, |s|)
  {
    assert s[2..|s|] == s[2..];
    ParseAt(s, 0, 0, 2, |s|, base, 16);
  }

  /** `c` stands for the digit `d`: a decimal digit, or a letter of either case. */
  predicate Denotes(c: char, d: nat) {
    if d < 10 then c as int == '0' as int + d
    else d < 36 && (c as int == 'a' as int + d - 10 || c as int == 'A' as int + d - 10)
  }

  /** The number with the digits `ds`, most significant first. */
  function Number(ds: seq<nat>, b: int): (r: int) {
    if ds == [] then 0 else Number(ds[..|ds| - 1], b) * b + ds[|ds| - 1]
  }

  /** How the digits may start: "0x" in base 16 or with the base left open, a leading 0 for
      octal or no prefix for decimal with the base left open, and no prefix otherwise. */
  ghost predicate PrefixRule(base: int, prefix: string, tail: string, b: int) {
    || (prefix == ['0', 'x'] && base in {0, 16} && b == 16)
    || (prefix == ['0'] && base == 0 && b == 8 && At(tail, 0) != 'x')
    || (prefix == [] && base == 0 && b == 10 && At(tail, 0) != '0')
    || (prefix == [] && base == b && b != 0 && !(b == 16 && At(tail, 0) == '0' && At(tail, 1) == 'x'))
  }

  ghost predicate Spells(digits: string, ds: seq<nat>, b: int) {
    |digits| == |ds| && forall i :: 0 <= i < |ds| ==> ds[i] < b && Denotes(digits[i], ds[i])
  }

  /** A text split into its parts, each as long as it can be. */
  ghost predicate Splits(blanks: string, sign: string, prefix: string, digits: string, rest: string, base: int, b: int) {
    && (forall i :: 0 <= i < |blanks| ==> blanks[i] in {' ', '\t'})
    && sign in {[], ['+'], ['-']}
    && (sign == [] ==> At(prefix + digits + rest, 0) !in {' ', '\t', '+', '-'})
    && PrefixRule(base, prefix, digits + rest, b)
    && (forall d: nat :: d < b ==> !Denotes(At(rest, 0), d))
  }

  lemma DenotesIs(c: char, d: nat)
    ensures Denotes(c, d) <==> d < 36 && DigitOf(c) == d
  {
  }

  lemma {:induction false} SpelledValue(digits: string, ds: seq<nat>, b: int)
    requires Spells(digits, ds, b)
    ensures Value(digits, b) == Number(ds, b) && AllDigits(digits, b)
    decreases |ds|
  {
    forall i | 0 <= i < |digits| ensures DigitOf(digits[i]) == ds[i] && IsDigit(digits[i], b) { DenotesIs(digits[i], ds[i]); }
    if ds != [] { SpelledValue(digits[..|digits| - 1], ds[..|ds| - 1], b); }
  }

  lemma NoDigit(c: char, b: int)
    requires forall d: nat :: d < b ==> !Denotes(c, d)
    ensures !IsDigit(c, b)
  {
    DenotesIs(c, DigitOf(c));
  }

  lemma AtJoined(front: string, tail: string, i: nat)
    ensures At(front + tail, |front| + i) == At(tail, i)
  {
  }

  /** What stands at the borders of the parts of a joined text. */
  lemma Borders(blanks: string, sign: string, prefix: string, tail: string)
    ensures var s := blanks + (sign + (prefix + tail)); var j := |blanks| + |sign|;
      && (forall i :: 0 <= i < |blanks| ==> s[i] == blanks[i])
      && At(s, |blanks|) == (if sign == [] then At(prefix + tail, 0) else sign[0])
      && At(s, j) == At(prefix + tail, 0) && At(s, j + 1) == At(prefix + tail, 1)
      && (forall i: nat :: At(s, j + |prefix| + i) == At(tail, i))
  {
    var t1 := sign + (prefix + tail);
    var s := blanks + t1;
    AtJoined(blanks, t1, 0);
    AtJoined(blanks, t1, |sign|);
    AtJoined(blanks, t1, |sign| + 1);
    AtJoined(sign, prefix + tail, 0);
    AtJoined(sign, prefix + tail, 1);
    FirstOf(sign, prefix + tail);
    forall i: nat ensures At(s, |blanks| + |sign| + |prefix| + i) == At(tail, i) {
      AtJoined(blanks, t1, |sign| + |prefix| + i);
      AtJoined(sign, prefix + tail, |prefix| + i);
      AtJoined(prefix, tail, i);
    }
  }

  /** The digits stand between `k` and `e`. */
  lemma DigitsBetween(s: string, k: nat, digits: string, rest: string, b: int)
    requires (forall i: nat :: At(s, k + i) == At(digits + rest, i)) && |s| == k + |digits| + |rest|
    requires AllDigits(digits, b) && !IsDigit(At(rest, 0), b)
    ensures var e := k + |digits|;
      (forall x :: k <= x < e ==> IsDigit(s[x], b)) && !IsDigit(At(s, e), b) && s[k..e] == digits
  {
    forall i | 0 <= i < |digits| ensures s[k + i] == digits[i] { assert At(s, k + i) == At(digits + rest, i); }
    AtJoined(digits, rest, 0);
    assert At(s, k + |digits|) == At(rest, 0);
    forall x | k <= x < k + |digits| ensures IsDigit(s[x], b) { assert s[x] == digits[x - k]; }
  }

  lemma SignPart(s: string, i: nat, sign: string, c: char)
    requires sign in {[], ['+'], ['-']} && (sign == [] ==> c !in {' ', '\t', '+', '-'})
    requires At(s, i) == if sign == [] then c else sign[0]
    ensures !IsBlank(At(s, i)) && SignEnd(s, i) == i + |sign| && (At(s, i) == '-' <==> sign == ['-'])
  {
  }

  /** The positions of the parts in the joined text. */
  lemma SplitAt(blanks: string, sign: string, prefix: string, digits: string, rest: string, base: int, b: int)
    requires Splits(blanks, sign, prefix, digits, rest, base, b) && AllDigits(digits, b)
    ensures var s := blanks + (sign + (prefix + (digits + rest)));
      Parse(s, base) == Parsed(sign == ['-'], digits, b, |blanks| + |sign| + |prefix| + |digits|)
  {
    var tail := digits + rest;
    var s := blanks + (sign + (prefix + tail));
    assert prefix + digits + rest == prefix + tail;
    Borders(blanks, sign, prefix, tail);
    assert |s| == |blanks| + |sign| + |prefix| + |digits| + |rest|;
    JoinedParse(s, blanks, sign, prefix, digits, rest, base, b);
  }

  lemma JoinedParse(s: string, blanks: string, sign: string, prefix: string, digits: string, rest: string, base: int, b: int)
    requires Splits(blanks, sign, prefix, digits, rest, base, b) && AllDigits(digits, b)
    requires |s| == |blanks| + |sign| + |prefix| + |digits| + |rest|
    requires forall x :: 0 <= x < |blanks| ==> s[x] == blanks[x]
    requires At(s, |blanks|) == if sign == [] then At(prefix + digits + rest, 0) else sign[0]
    requires var j := |blanks| + |sign|;
      && At(s, j) == At(prefix + (digits + rest), 0) && At(s, j + 1) == At(prefix + (digits + rest), 1)
      && forall x: nat :: At(s, j + |prefix| + x) == At(digits + rest, x)
    ensures Parse(s, base) == Parsed(sign == ['-'], digits, b, |blanks| + |sign| + |prefix| + |digits|)
  {
    var i := |blanks|;
    var j := i + |sign|;
    var k := j + |prefix|;
    SignPart(s, i, sign, At(prefix + digits + rest, 0));
    PrefixIs(s, j, prefix, digits + rest, base, b);
    NoDigit(At(rest, 0), b);
    DigitsBetween(s, k, digits, rest, b);
    forall x | 0 <= x < i ensures IsBlank(s[x]) { assert s[x] == blanks[x]; }
    ParseAt(s, i, j, k, k + |digits|, base, b);
  }

  lemma FirstOf(sign: string, tail: string)
    ensures At(sign + tail, 0) == if sign == [] then At(tail, 0) else sign[0]
  {
  }

  lemma PrefixIs(s: string, j: nat, prefix: string, tail: string, base: int, b: int)
    requires PrefixRule(base, prefix, tail, b)
    requires At(s, j) == At(prefix + tail, 0) && At(s, j + 1) == At(prefix + tail, 1)
    ensures Prefix(s, j, base) == (j + |prefix|, b)
  {
    if prefix == [] { assert prefix + tail == tail; }
  }

  /** `strtol` of any text, by its parts: blanks, sign, prefix, digits of either case, and the
      rest, which it does not read. */
  lemma StrtolReads(blanks: string, sign: string, prefix: string, digits: string, ds: seq<nat>, rest: string, base: int, b: int)
    requires Splits(blanks, sign, prefix, digits, rest, base, b) && Spells(digits, ds, b)
    ensures var s := blanks + (sign + (prefix + (digits + rest)));
      && Strtol(s, base).0 == Wrap(if sign == ['-'] then -Number(ds, b) else Number(ds, b))
      && Strtol(s, base).1 == |blanks| + |sign| + |prefix| + |digits|
  {
    SpelledValue(digits, ds, b);
    SplitAt(blanks, sign, prefix, digits, rest, base, b);
  }

  // ----- printing

  /** The entry of "0123456789abcdef" at `d`. */
  function Digit(d: nat): (c: char)
    requires d < 16
    ensures DigitOf(c) == d && c != 'x'
  {
    if d < 10 then (('0' as int) + d) as char else (('a' as int) + d - 10) as char
  }

  /** The digits of a number, most significant first, without leading zeros. */
  function Digits(n: nat, base: nat): (s: string)
    requires 2 <= base <= 16
    ensures |s| > 0
  {
    if n < base then [Digit(n)] else Digits(n / base, base) + [Digit(n % base)]
  }

  lemma {:induction false} DigitsDenote(n: nat, base: nat)
    requires 2 <= base <= 16
    ensures AllDigits(Digits(n, base), base) && Value(Digits(n, base), base) == n
    ensures 'x' !in Digits(n, base)
  {
    if n < base {
      var s := [Digit(n)];
      assert s[..|s| - 1] == [];
    } else {
      DivMod(n, base);
      DigitsDenote(n / base, base);
      AppendDigit(Digits(n / base, base), n % base, base);
    }
  }

  /** The digits are lower-case, and the first is 0 only for 0 itself, which has one. */
  lemma {:induction false} DigitsAreShortest(n: nat, base: nat)
    requires 2 <= base <= 16
    ensures forall i :: 0 <= i < |Digits(n, base)| ==> Digits(n, base)[i] in "0123456789abcdef"
    ensures n > 0 ==> Digits(n, base)[0] != '0'
    ensures n == 0 ==> Digits(n, base) == ['0']
  {
    DigitIs(n % base);
    if n >= base {
      DivMod(n, base);
      QuotientPositive(n, base);
      DigitsAreShortest(n / base, base);
    }
  }

  lemma QuotientPositive(n: nat, base: nat)
    requires n >= base >= 2
    ensures n / base > 0
  {
  }

  lemma DigitIs(d: nat)
    requires d < 16
    ensures "0123456789abcdef"[d] == Digit(d) && Digit(d) in "0123456789abcdef"
  {
  }

  /** What is printed is at least as wide as asked for, with padding in front only, and no
      wider than that or the number. */
  lemma PrintedShape(num: nat, base: nat, width: int, pad: char)
    requires 2 <= base <= 16
    ensures var s := Printed(num, base, width, pad); var n := |Digits(num, base)|;
      && |s| == (if width > n then width else n)
      && s[|s| - n..] == Digits(num, base)
      && forall i :: 0 <= i < |s| - n ==> s[i] == pad
  {
    var fill := Repeat(pad, width - |Digits(num, base)|);
    assert (fill + Digits(num, base))[|fill|..] == Digits(num, base);
  }

  lemma DivMod(n: nat, base: nat)
    requires base >= 2
    ensures n / base * base + n % base == n && n % base < base
    ensures n > 0 ==> n / base < n
  {
    assert n / base * base >= n / base * 2;
  }

  lemma AppendDigit(front: string, d: nat, base: nat)
    requires 2 <= base <= 16 && d < base && AllDigits(front, base) && 'x' !in front
    ensures AllDigits(front + [Digit(d)], base) && 'x' !in front + [Digit(d)]
    ensures Value(front + [Digit(d)], base) == Value(front, base) * base + d
  {
    var s := front + [Digit(d)];
    assert s[..|s| - 1] == front;
  }

  function Repeat(c: char, n: int): (s: string)
    ensures |s| == if n > 0 then n else 0
    ensures forall i :: 0 <= i < |s| ==> s[i] == c
    decreases if n > 0 then n else 0
  {
    if n <= 0 then [] else [c] + Repeat(c, n - 1)
  }

  /** What `printnum` prints: the digits, padded on the left to the width. */
  function Printed(num: nat, base: nat, width: int, pad: char): (s: string)
    requires 2 <= base <= 16
  {
    Repeat(pad, width - |Digits(num, base)|) + Digits(num, base)
  }

  class Console {
    var text: string

    constructor ()
      ensures text == []
    {
      text := [];
    }

    method Putch(c: char)
      modifies this
      ensures text == old(text) + [c]
    {
      text := text + [c];
    }

    /** The padding loop of `printnum`. */
    method Pad(width: int, pad: char)
      modifies this
      ensures text == old(text) + Repeat(pad, width - 1)
    {
      var left := width - 1;
      ghost var done := 0;
      while left > 0
        invariant done >= 0 && left == width - 1 - done && (left >= 0 || done == 0)
        invariant text == old(text) + Repeat(pad, done)
      {
        RepeatMore(pad, done);
        Putch(pad);
        left, done := left - 1, done + 1;
      }
    }

    /** `printnum`. */
    method PrintNum(num: nat, base: nat, width: int, pad: char)
      requires 2 <= base <= 16
      modifies this
      ensures text == old(text) + Printed(num, base, width, pad)
      decreases num
    {
      ghost var before := Before(num, base, width, pad);
      DivMod(num, base);
      PrintedStep(num, base, width, pad);
      if num >= base {
        PrintNum(num / base, base, width - 1, pad);
      } else {
        Pad(width, pad);
      }
      assert text == old(text) + before;
      var c := Digit(num % base);
      AppendAssociative(old(text), before, [c]);
      Putch(c);
    }
  }

  /** What is printed in front of the last digit. */
  function Before(num: nat, base: nat, width: int, pad: char): (s: string)
    requires 2 <= base <= 16
  {
    if num >= base then Printed(num / base, base, width - 1, pad) else Repeat(pad, width - 1)
  }

  lemma PadFront(front: string, c: char, width: int, pad: char)
    ensures Repeat(pad, width - |front + [c]|) + (front + [c]) == Repeat(pad, width - 1 - |front|) + front + [c]
  {
    AppendAssociative(Repeat(pad, width - 1 - |front|), front, [c]);
  }

  lemma PrintedStep(num: nat, base: nat, width: int, pad: char)
    requires 2 <= base <= 16
    ensures Printed(num, base, width, pad) == Before(num, base, width, pad) + [Digit(num % base)]
  {
    if num >= base {
      var front, c := Digits(num / base, base), Digit(num % base);
      assert Digits(num, base) == front + [c];
      PadFront(front, c, width, pad);
      assert width - 1 - |front| == (width - 1) - |front|;
    } else {
      assert Digits(num, base) == [Digit(num % base)];
    }
  }

  lemma {:induction false} RepeatMore(c: char, n: int)
    requires n >= 0
    ensures Repeat(c, n + 1) == Repeat(c, n) + [c]
  {
    if n > 0 { RepeatMore(c, n - 1); }
  }

  /** Leading zeros do not change the value. */
  lemma {:induction false} LeadingZeros(n: int, s: string, base: int)
    ensures Value(Repeat('0', n) + s, base) == Value(s, base)
    decreases |s|
  {
    if s == [] {
      ZerosValue(n, base);
      assert Repeat('0', n) + s == Repeat('0', n);
    } else {
      var m := |s| - 1;
      var t := Repeat('0', n) + s;
      assert t[..|t| - 1] == Repeat('0', n) + s[..m];
      LeadingZeros(n, s[..m], base);
    }
  }

  lemma {:induction false} ZerosValue(n: int, base: int)
    ensures Value(Repeat('0', n), base) == 0
    decreases n
  {
    if n > 0 {
      var s := Repeat('0', n);
      RepeatMore('0', n - 1);
      assert s[..|s| - 1] == Repeat('0', n - 1);
      ZerosValue(n - 1, base);
    }
  }

  /** Parsing what was printed gives the number back, wrapped to 32 bits: exactly the number
      if and only if it is below 2^31. */
  lemma PrintThenParse(num: nat, base: nat, width: int, pad: char)
    requires 2 <= base <= 16 && pad in {' ', '0'}
    ensures Strtol(Printed(num, base, width, pad), base) == (Wrap(num), |Printed(num, base, width, pad)|)
    ensures Strtol(Printed(num, base, width, pad), base).0 == num <==> num < HALF
  {
    DigitsDenote(num, base);
    var digits := Digits(num, base);
    if pad == ' ' {
      SpacesParse(digits, width - |digits|, base);
    } else {
      LeadingZeros(width - |digits|, digits, base);
      ZerosParse(digits, width - |digits|, base);
    }
  }

  lemma SpacesParse(digits: string, n: int, base: nat)
    requires digits != [] && AllDigits(digits, base) && 'x' !in digits && 2 <= base
    ensures var s := Repeat(' ', n) + digits; Parse(s, base) == Parsed(false, digits, base, |s|)
  {
    var fill := Repeat(' ', n);
    var s := fill + digits;
    assert s[|fill|..] == digits;
    DigitsPlain(digits, base, s, |fill|);
    PlainNumber(s, |fill|, base);
  }

  lemma ZerosParse(digits: string, n: int, base: nat)
    requires digits != [] && AllDigits(digits, base) && 'x' !in digits && 2 <= base
    ensures var s := Repeat('0', n) + digits; Parse(s, base) == Parsed(false, s, base, |s|)
  {
    var s := Repeat('0', n) + digits;
    ZerosAreDigits(n, digits, base);
    assert s[0..] == s;
    DigitsPlain(s, base, s, 0);
    PlainNumber(s, 0, base);
  }

  lemma DigitsPlain(digits: string, base: nat, s: string, i: nat)
    requires i <= |s| && s[i..] == digits && AllDigits(digits, base) && 'x' !in digits
    ensures forall x :: i <= x < |s| ==> IsDigit(s[x], base) && s[x] != 'x'
  {
    forall x | i <= x < |s| ensures IsDigit(s[x], base) && s[x] != 'x' {
      assert s[x] == digits[x - i] && digits[x - i] in digits;
    }
  }

  lemma ZerosAreDigits(n: int, digits: string, base: nat)
    requires 2 <= base && AllDigits(digits, base) && 'x' !in digits
    ensures AllDigits(Repeat('0', n) + digits, base) && 'x' !in Repeat('0', n) + digits
  {
  }

  /** Likewise for the text of a pointer, "0x" and hexadecimal digits, in base 0 or 16. */
  lemma PointerThenParse(num: nat, base: int)
    requires base in {0, 16}
    ensures Strtol(['0', 'x'] + Digits(num, 16), base) == (Wrap(num), 2 + |Digits(num, 16)|)
  {
    DigitsDenote(num, 16);
    var s := ['0', 'x'] + Digits(num, 16);
    assert s[2..] == Digits(num, 16);
    DigitsPlain(Digits(num, 16), 16, s, 2);
    PrefixedNumber(s, base);
  }

  // ----- ltostr

  /** C division and remainder by ten, which round toward zero. */
  function Quotient(v: int): (r: int) { if v >= 0 then v / 10 else -((-v) / 10) }

  function Remainder(v: int): (r: int)
    ensures -9 <= r <= 9 && (v >= 0 ==> r >= 0) && (v <= 0 ==> r <= 0)
  {
    v - 10 * Quotient(v)
  }

  function ShiftedChar(d: int): (c: char)
    requires -9 <= d <= 9
  {
    (('0' as int) + d) as char
  }

  /** The characters the first loop writes, least significant first. */
  function Backwards(v: int): (s: string)
    ensures |s| > 0
    decreases if v >= 0 then v else -v
  {
    [ShiftedChar(Remainder(v))] + if Quotient(v) == 0 then [] else Backwards(Quotient(v))
  }

  /** The string `ltostr` leaves in its buffer. The minimum is its own negative. */
  function LongString(v: int): (s: string)
    requires IsLong(v)
  {
    if v >= 0 then Reverse(Backwards(v)) else ['-'] + Reverse(Backwards(Wrap(-v)))
  }

  /** The first loop of `ltostr`: write the characters from position `s0` on. */
  method WriteBackwards(v: int, str: array<char>, s0: nat) returns (s: nat)
    requires s0 + |Backwards(v)| <= str.Length
    modifies str
    ensures s == s0 + |Backwards(v)| && str[s0..s] == Backwards(v)
    ensures forall i :: 0 <= i < s0 ==> str[i] == old(str[i])
  {
    var value := v;
    s := s0;
    ghost var left := Backwards(v);
    while true
      invariant s0 <= s && left == Backwards(value) && s + |left| == s0 + |Backwards(v)|
      invariant str[s0..s] + left == Backwards(v)
      invariant forall i :: 0 <= i < s0 ==> str[i] == old(str[i])
      decreases |left|
    {
      var mod := Remainder(value);
      var c := ShiftedChar(mod);
      ghost var rest := left[1..];
      assert left == [c] + rest;
      str[s] := c;
      s := s + 1;
      AppendAssociative(str[s0..s - 1], [c], rest);
      assert str[s0..s] == str[s0..s - 1] + [c];
      value := Quotient(value);
      left := rest;
      if value == 0 { break; }
    }
    assert str[s0..s] + [] == str[s0..s];
  }

  /** The second loop of `ltostr`: reverse the characters from `from` up to `to`. */
  method ReverseInPlace(str: array<char>, from: nat, to: nat)
    requires from <= to <= str.Length
    modifies str
    ensures str[from..to] == Reverse(old(str[from..to]))
    ensures forall i :: 0 <= i < from || to <= i < str.Length ==> str[i] == old(str[i])
  {
    var start, end := from, to - 1;
    ghost var was := str[..];
    while start < end
      invariant from <= start <= end + 1 && start - from == to - 1 - end
      invariant forall i :: 0 <= i < from || to <= i < str.Length ==> str[i] == was[i]
      invariant forall i :: from <= i < start ==> str[i] == was[from + to - 1 - i]
      invariant forall i :: end < i < to ==> str[i] == was[from + to - 1 - i]
      invariant forall i :: start <= i <= end ==> str[i] == was[i]
    {
      str[start], str[end] := str[end], str[start];
      start, end := start + 1, end - 1;
    }
    assert was[from..to] == old(str[from..to]);
    ReversedIs(was, from, to, str[..]);
    assert str[..][from..to] == str[from..to];
  }

  lemma ReversedIs(was: string, from: nat, to: nat, now: string)
    requires from <= to <= |was| == |now|
    requires forall i :: from <= i < to ==> now[i] == was[from + to - 1 - i]
    ensures now[from..to] == Reverse(was[from..to])
  {
    var q := was[from..to];
    forall i | 0 <= i < |q| ensures now[from..to][i] == Reverse(q)[i] {
      assert now[from..to][i] == now[from + i];
      assert q[|q| - 1 - i] == was[from + (|q| - 1 - i)];
    }
  }

  lemma SignInFront(text: string, neg: bool, digits: string)
    requires text != [] && (neg ==> text[0] == '-') && text[if neg then 1 else 0..] == digits
    ensures text == if neg then ['-'] + digits else digits
  {
  }

  /** `ltostr`, into a buffer that has room for the text and its terminator. */
  method Ltostr(value: int, str: array<char>) returns (len: nat)
    requires IsLong(value) && |LongString(value)| < str.Length
    modifies str
    ensures len == |LongString(value)| && str[..len] == LongString(value) && str[len] == '\0'
  {
    var neg, v, s: nat := false, value, 0;
    if value < 0 {
      neg := true;
      str[0] := '-';
      v := Wrap(-value);
      s := 1;
    }
    len := WriteBackwards(v, str, s);
    var start: nat := if neg then 1 else 0;
    ReverseInPlace(str, start, len);
    str[len] := '\0';
    assert str[..len][start..] == str[start..len];
    SignInFront(str[..len], neg, Reverse(Backwards(v)));
  }

  /** For a non-negative number the reversed characters are its digits. */
  lemma {:induction false} BackwardsIsDigits(v: nat)
    ensures Reverse(Backwards(v)) == Digits(v, 10)
  {
    var rest: string := if Quotient(v) == 0 then [] else Backwards(Quotient(v));
    assert Backwards(v)[1..] == rest;
    assert ShiftedChar(Remainder(v)) == Digit(v % 10);
    if v >= 10 { BackwardsIsDigits(v / 10); }
  }

  /** The minimum keeps its sign: its last character is below '0'. */
  lemma {:induction false} BackwardsOfNegative(v: int)
    requires v < 0
    ensures var s := Backwards(v); s[|s| - 1] < '0'
    decreases -v
  {
    if Quotient(v) != 0 { BackwardsOfNegative(Quotient(v)); }
  }

  /** `strtol` undoes `ltostr` for every long but the minimum, for which it gives 0. */
  lemma LongRoundTrip(v: int)
    requires IsLong(v)
    ensures v != -HALF ==> Strtol(LongString(v), 10) == (v, |LongString(v)|)
    ensures v == -HALF ==> Strtol(LongString(v), 10).0 == 0
    ensures Strtol(LongString(v), 10).0 == v <==> v != -HALF
  {
    if v == -HALF { MinimumParsesToZero(); } else { OtherRoundTrip(v); }
  }

  lemma LongText(v: int)
    requires IsLong(v) && v != -HALF
    ensures LongString(v) == if v >= 0 then Digits(v, 10) else ['-'] + Digits(-v, 10)
  {
    if v >= 0 { BackwardsIsDigits(v); } else { BackwardsIsDigits(-v); }
  }

  lemma OtherRoundTrip(v: int)
    requires IsLong(v) && v != -HALF
    ensures Strtol(LongString(v), 10) == (v, |LongString(v)|)
  {
    LongText(v);
    if v >= 0 { DecimalParses(v); } else { MinusParses(-v); }
  }

  lemma DecimalParses(n: nat)
    ensures Strtol(Digits(n, 10), 10) == (Wrap(n), |Digits(n, 10)|)
  {
    var s := Digits(n, 10);
    DigitsDenote(n, 10);
    assert s[0..] == s;
    DigitsPlain(s, 10, s, 0);
    PlainNumber(s, 0, 10);
  }

  lemma MinusParses(n: nat)
    ensures Strtol(['-'] + Digits(n, 10), 10) == (Wrap(0 - n), 1 + |Digits(n, 10)|)
  {
    var digits := Digits(n, 10);
    var s := ['-'] + digits;
    DigitsDenote(n, 10);
    assert s[1..] == digits && s[1..|s|] == digits;
    DigitsPlain(digits, 10, s, 1);
    NegativeNumber(s, |s|);
  }

  lemma MinimumParsesToZero()
    ensures Strtol(LongString(-HALF), 10).0 == 0
  {
    BackwardsOfNegative(-HALF);
    assert Wrap(HALF) == -HALF;
    var s := LongString(-HALF);
    assert s[1] == Reverse(Backwards(-HALF))[0] < '0';
    NegativeNumber(s, 1);
  }
}
