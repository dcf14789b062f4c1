/** C strings: white space, fields, and the numbers the C library reads and prints. */
module CText {
  import opened Bytes

  const NUL: char := '\0'

  /** What reading the C string at `p` yields. */
  function CString(b: seq<char>, p: nat): string
    requires p <= |b|
    decreases |b| - p
  {
    if p == |b| || b[p] == NUL then [] else [b[p]] + CString(b, p + 1)
  }

  /** Reading goes through characters up to the first terminator. */
  lemma {:induction false} CStringRuns(b: seq<char>, p: nat, q: nat)
    requires p <= q <= |b| && forall k :: p <= k < q ==> b[k] != NUL
    ensures CString(b, p) == b[p..q] + CString(b, q)
    decreases q - p
  {
    if p < q {
      var rest := CString(b, q);
      CStringRuns(b, p + 1, q);
      assert [b[p]] + (b[p + 1..q] + rest) == b[p..q] + rest;
    }
  }

  // ---- White space and fields

  /** `isspace` in the C locale: the blank and the control characters 9 to 13. */
  predicate IsSpace(c: char) {
    c == ' ' || 9 <= c as int <= 13
  }

  /** These are the six characters `isspace` names. */
  lemma IsSpaceIff(c: char)
    ensures IsSpace(c) <==>
      c as int == 0x20 || c == '\t' || c == '\n' || c as int == 0x0B || c as int == 0x0C || c == '\r'
  {
  }

  function StripLeft(s: string): (r: string)
  {
    if s != [] && IsSpace(s[0]) then StripLeft(s[1..]) else s
  }

  function StripRight(s: string): (r: string)
  {
    if s != [] && IsSpace(s[|s| - 1]) then StripRight(s[..|s| - 1]) else s
  }

  function Strip(s: string): string {
    StripRight(StripLeft(s))
  }

  ghost predicate AllSpace(s: string) {
    forall i :: 0 <= i < |s| ==> IsSpace(s[i])
  }

  lemma {:induction false} StripLeftMeaning(s: string) returns (l: string)
    ensures s == l + StripLeft(s) && AllSpace(l)
    ensures StripLeft(s) != [] ==> !IsSpace(StripLeft(s)[0])
  {
    l := [];
    if s != [] && IsSpace(s[0]) {
      l := StripLeftMeaning(s[1..]);
      l := [s[0]] + l;
    }
  }

  lemma {:induction false} StripRightMeaning(s: string) returns (r: string)
    ensures s == StripRight(s) + r && AllSpace(r)
    ensures StripRight(s) != [] ==> !IsSpace(StripRight(s)[|StripRight(s)| - 1])
  {
    r := [];
    if s != [] && IsSpace(s[|s| - 1]) {
      r := StripRightMeaning(s[..|s| - 1]);
      r := r + [s[|s| - 1]];
    }
  }

  /** Stripping removes white space from both ends, all of it and nothing else. */
  lemma StripMeaning(s: string) returns (l: string, r: string)
    ensures s == l + Strip(s) + r && AllSpace(l) && AllSpace(r)
    ensures Strip(s) != [] ==> !IsSpace(Strip(s)[0]) && !IsSpace(Strip(s)[|Strip(s)| - 1])
  {
    l := StripLeftMeaning(s);
    r := StripRightMeaning(StripLeft(s));
    assert Strip(s) != [] ==> Strip(s)[0] == StripLeft(s)[0];
  }

  /** Characters before the first colon. */
  function FieldLength(s: string): (n: nat)
    ensures n <= |s|
  {
    if s == [] || s[0] == ':' then 0 else 1 + FieldLength(s[1..])
  }

  /** The fields between colons, empty ones skipped: what repeated `strtok` yields. */
  function Fields(s: string): seq<string> {
    if s == [] then []
    else if s[0] == ':' then Fields(s[1..])
    else
      var n := FieldLength(s);
      [s[..n]] + if n == |s| then [] else Fields(s[n + 1..])
  }

  /** All fields between colons, one more than there are colons. */
  function Split(s: string): (r: seq<string>)
    ensures r != []
  {
    if s == [] then [[]]
    else if s[0] == ':' then [[]] + Split(s[1..])
    else
      var rest := Split(s[1..]);
      [[s[0]] + rest[0]] + rest[1..]
  }

  function Join(fields: seq<string>): string {
    if fields == [] then []
    else if |fields| == 1 then fields[0]
    else fields[0] + ":" + Join(fields[1..])
  }

  function NonEmpty(fields: seq<string>): seq<string> {
    if fields == [] then []
    else (if fields[0] == [] then [] else [fields[0]]) + NonEmpty(fields[1..])
  }

  /** `Split` loses nothing: joining its fields gives the text back, and no field
      contains a colon. */
  lemma {:induction false} JoinSplit(s: string)
    ensures Join(Split(s)) == s
    ensures forall f :: f in Split(s) ==> ':' !in f
  {
    if s != [] {
      JoinSplit(s[1..]);
    }
  }

  lemma {:induction false} SplitAtField(s: string)
    requires s != [] && s[0] != ':'
    ensures var n := FieldLength(s);
      Split(s) == [s[..n]] + if n == |s| then [] else Split(s[n + 1..])
  {
    var n, tail := FieldLength(s), s[1..];
    assert s[..n] == [s[0]] + tail[..n - 1];
    if tail == [] {
    } else if tail[0] == ':' {
      assert tail[1..] == s[n + 1..];
      assert Split(tail)[1..] == Split(s[n + 1..]);
    } else {
      SplitAtField(tail);
      if n < |s| {
        assert tail[n..] == s[n + 1..];
      }
    }
  }

  lemma NonEmptyCons(f: string, rest: seq<string>)
    ensures NonEmpty([f] + rest) == (if f == [] then [] else [f]) + NonEmpty(rest)
  {
  }

  /** What `strtok` walks through is the plain split with its empty fields dropped. */
  lemma {:induction false} FieldsAreNonEmptySplit(s: string)
    ensures Fields(s) == NonEmpty(Split(s))
    decreases |s|
  {
    if s == [] {
    } else if s[0] == ':' {
      FieldsAreNonEmptySplit(s[1..]);
      NonEmptyCons([], Split(s[1..]));
    } else {
      var n := FieldLength(s);
      var more := if n == |s| then [] else Split(s[n + 1..]);
      SplitAtField(s);
      NonEmptyCons(s[..n], more);
      assert s[..n] != [];
      if n < |s| {
        FieldsAreNonEmptySplit(s[n + 1..]);
      }
    }
  }

  lemma {:induction false} FieldLengthOf(f: string, rest: string)
    requires ':' !in f && (rest == [] || rest[0] == ':')
    ensures FieldLength(f + rest) == |f|
  {
    if f == [] {
      assert f + rest == rest;
    } else {
      assert f[0] in f;
      FieldLengthOf(f[1..], rest);
      assert (f + rest)[1..] == f[1..] + rest;
    }
  }

  // ---- Reading numbers

  function DigitValue(c: char): int {
    if '0' <= c <= '9' then c as int - '0' as int
    else if 'a' <= c <= 'f' then c as int - 'a' as int + 10
    else if 'A' <= c <= 'F' then c as int - 'A' as int + 10
    else -1
  }

  /** The two number bases in use. */
  type Base = b: nat | b == 10 || b == 16 witness 10

  /** `acc` followed by digit `d`. */
  function Shift(acc: nat, d: nat, base: Base): nat {
    if base == 10 then 10 * acc + d else 16 * acc + d
  }

  /** A digit is a character of the alphabet, in either case, and its value its place. */
  lemma DigitValueIsPlace(c: char, v: int)
    requires 0 <= v < 16
    ensures DigitValue(c) == v <==> c == "0123456789abcdef"[v] || c == "0123456789ABCDEF"[v]
  {
    var lower, upper := "0123456789abcdef"[v], "0123456789ABCDEF"[v];
    if v < 10 {
      assert lower as int == '0' as int + v && upper == lower;
    } else {
      assert lower as int == 'a' as int + v - 10 && upper as int == 'A' as int + v - 10;
    }
  }

  predicate IsDigit(c: char, base: int) {
    0 <= DigitValue(c) < base
  }

  predicate AllDigits(s: string, base: Base) {
    forall i :: 0 <= i < |s| ==> IsDigit(s[i], base)
  }

  /** Digits are accumulated up to the first character that is none. */
  function Accumulate(s: string, base: Base, acc: nat): nat {
    if s == [] || !IsDigit(s[0], base) then acc
    else Accumulate(s[1..], base, Shift(acc, DigitValue(s[0]), base))
  }

  function Unsign(s: string): (bool, string) {
    if s != [] && s[0] == '-' then (true, s[1..])
    else if s != [] && s[0] == '+' then (false, s[1..])
    else (false, s)
  }

  function SkipHexPrefix(s: string): string {
    if |s| >= 2 && s[0] == '0' && (s[1] == 'x' || s[1] == 'X') then s[2..] else s
  }

  /** The number a string of digits stands for, by the place of each digit. */
  function NumberOf(s: string, base: Base): nat
    requires AllDigits(s, base)
  {
    if s == [] then 0 else base * NumberOf(s[..|s| - 1], base) + DigitValue(s[|s| - 1])
  }

  /** Accumulating goes through the digits up to the first character that is none. */
  lemma {:induction false} AccumulateIsNumber(s: string, rest: string, base: Base)
    requires AllDigits(s, base) && (rest == [] || !IsDigit(rest[0], base))
    ensures Accumulate(s + rest, base, 0) == NumberOf(s, base)
  {
    AccumulateAppend(s, rest, base, 0);
    AccumulateDigits(s, base);
  }

  lemma {:induction false} AccumulateDigits(s: string, base: Base)
    requires AllDigits(s, base)
    ensures Accumulate(s, base, 0) == NumberOf(s, base)
  {
    if s != [] {
      var front, last := s[..|s| - 1], s[|s| - 1..];
      AccumulateDigits(front, base);
      AccumulateAppend(front, last, base, 0);
      assert s == front + last && last[1..] == [];
    }
  }

  /** The text an optional sign stands for. */
  predicate IsSign(sign: string) {
    sign == "" || sign == "+" || sign == "-"
  }

  lemma {:induction false} StripLeftSpaces(spaces: string, s: string)
    requires AllSpace(spaces) && (s == [] || !IsSpace(s[0]))
    ensures StripLeft(spaces + s) == s
  {
    if spaces == [] {
      assert spaces + s == s;
    } else {
      assert (spaces + s)[1..] == spaces[1..] + s;
      StripLeftSpaces(spaces[1..], s);
    }
  }

  lemma UnsignForm(spaces: string, sign: string, s: string)
    requires AllSpace(spaces) && IsSign(sign) && s != [] && IsDigit(s[0], 16)
    ensures Unsign(StripLeft(spaces + sign + s)) == (sign == "-", s)
  {
    assert spaces + sign + s == spaces + (sign + s);
    StripLeftSpaces(spaces, sign + s);
    if sign != "" {
      assert (sign + s)[1..] == s;
    } else {
      assert sign + s == s;
    }
  }

  const ULONG_MAX := 0xFFFF_FFFF_FFFF_FFFF
  const LONG_MAX := 0x7FFF_FFFF_FFFF_FFFF

  /** `(uint32_t)strtoul(s, NULL, 16)` with a 64-bit `unsigned long`: white space, a
      sign, an optional 0x, hex digits; saturating on overflow, negating modulo 2^64. */
  function ParseHex(s: string): uint32 {
    var (negative, digits) := Unsign(StripLeft(s));
    var v := Accumulate(SkipHexPrefix(digits), 16, 0);
    if v > ULONG_MAX then ULONG_MAX % U32
    else if negative then (U32 - v % U32) % U32
    else v % U32
  }

  /** `atoi(s)` before the cast to the field's width: the decimal `strtol` value,
      saturating at the ends of a 64-bit `long`. */
  function Atoi(s: string): int {
    var (negative, digits) := Unsign(StripLeft(s));
    var v := Accumulate(digits, 10, 0);
    if negative then -Min(v, LONG_MAX + 1) else Min(v, LONG_MAX)
  }

  /** `parse_hex` of white space, a sign, an optional 0x and hexadecimal digits, with
      anything after them: the number, negated or not, in 32 bits; all ones when it does
      not fit 64 bits. */
  lemma HexForm(spaces: string, sign: string, prefix: string, digits: string, rest: string)
    requires AllSpace(spaces) && IsSign(sign) && (prefix == "" || prefix == "0x" || prefix == "0X")
    requires digits != [] && AllDigits(digits, 16)
    requires rest == [] || (!IsDigit(rest[0], 16) && rest[0] != 'x' && rest[0] != 'X')
    ensures var n: int := NumberOf(digits, 16);
      ParseHex(spaces + sign + (prefix + (digits + rest))) ==
        if n > 0xFFFF_FFFF_FFFF_FFFF then 0xFFFF_FFFF else (if sign == "-" then -n else n) % U32
  {
    var t := prefix + (digits + rest);
    UnsignForm(spaces, sign, t);
    PrefixForm(prefix, digits, rest);
    AccumulateIsNumber(digits, rest, 16);
    HexValue(spaces + sign + t, sign == "-", t, NumberOf(digits, 16));
  }

  lemma HexValue(s: string, negative: bool, t: string, n: int)
    requires Unsign(StripLeft(s)) == (negative, t) && Accumulate(SkipHexPrefix(t), 16, 0) == n
    ensures ParseHex(s) == if n > 0xFFFF_FFFF_FFFF_FFFF then 0xFFFF_FFFF else (if negative then -n else n) % U32
  {
  }

  lemma PrefixForm(prefix: string, digits: string, rest: string)
    requires prefix == "" || prefix == "0x" || prefix == "0X"
    requires digits != [] && AllDigits(digits, 16)
    requires rest == [] || (rest[0] != 'x' && rest[0] != 'X')
    ensures SkipHexPrefix(prefix + (digits + rest)) == digits + rest
  {
    if prefix == "" {
      assert prefix + (digits + rest) == digits + rest;
      assert |digits| > 1 ==> IsDigit(digits[1], 16);
    } else {
      assert (prefix + (digits + rest))[2..] == digits + rest;
    }
  }

  /** `atoi` of white space, a sign and decimal digits, with anything after them: the
      number, negated or not, held at the ends of a 64-bit `long`. */
  lemma DecimalForm(spaces: string, sign: string, digits: string, rest: string)
    requires AllSpace(spaces) && IsSign(sign)
    requires digits != [] && AllDigits(digits, 10) && (rest == [] || !IsDigit(rest[0], 10))
    ensures var n: int := NumberOf(digits, 10);
      Atoi(spaces + sign + (digits + rest)) ==
        if sign == "-" then Max(-n, -0x8000_0000_0000_0000) else Min(n, 0x7FFF_FFFF_FFFF_FFFF)
  {
    UnsignForm(spaces, sign, digits + rest);
    AccumulateIsNumber(digits, rest, 10);
  }

  // ---- Printing numbers

  function DigitChar(d: nat): char
    requires d < 16
  {
    if d < 10 then '0' + d as char else 'A' + (d - 10) as char
  }

  function Quotient(v: nat, base: Base): nat {
    if base == 10 then v / 10 else v / 16
  }

  function LastDigit(v: nat, base: Base): nat {
    if base == 10 then v % 10 else v % 16
  }

  /** `%d` (base 10) and `%X` (base 16) of a non-negative number. */
  function Print(v: nat, base: Base): (s: string)
    ensures s != []
  {
    (if v < base then [] else Print(Quotient(v, base), base)) + [DigitChar(LastDigit(v, base))]
  }

  /** `%04X`: at least four digits. */
  function PrintHex4(v: nat): (s: string)
    ensures s != []
  {
    var s := Print(v, 16);
    if |s| < 4 then seq(4 - |s|, i => '0') + s else s
  }

  lemma {:induction false} PrintIsDigits(v: nat, base: Base)
    ensures AllDigits(Print(v, base), base)
  {
    if v >= base {
      PrintIsDigits(Quotient(v, base), base);
    }
  }

  lemma PrintHex4IsDigits(v: nat)
    ensures AllDigits(PrintHex4(v), 16)
  {
    PrintIsDigits(v, 16);
  }

  /** A printed number is upper-case digits, without leading zeros, that stand for it. */
  lemma {:induction false} PrintIsCanonical(v: nat, base: Base)
    ensures AllDigits(Print(v, base), base) && NumberOf(Print(v, base), base) == v
    ensures forall i :: 0 <= i < |Print(v, base)| ==> !('a' <= Print(v, base)[i] <= 'z')
    ensures 1 < |Print(v, base)| ==> Print(v, base)[0] != '0'
  {
    if v >= base {
      PrintIsCanonical(Quotient(v, base), base);
    }
  }

  /** `%04X`: upper-case digits that stand for the number, at least four of them, and
      more only without leading zeros. */
  lemma PrintHex4IsCanonical(v: nat)
    ensures AllDigits(PrintHex4(v), 16) && NumberOf(PrintHex4(v), 16) == v
    ensures forall i :: 0 <= i < |PrintHex4(v)| ==> !('a' <= PrintHex4(v)[i] <= 'z')
    ensures 4 <= |PrintHex4(v)| && (4 < |PrintHex4(v)| ==> PrintHex4(v)[0] != '0')
  {
    PrintIsCanonical(v, 16);
    PrintHex4IsDigits(v);
    AccumulateHex4(v);
    AccumulateDigits(PrintHex4(v), 16);
  }

  lemma {:induction false} AccumulateAppend(s: string, t: string, base: Base, acc: nat)
    requires AllDigits(s, base)
    ensures Accumulate(s + t, base, acc) == Accumulate(t, base, Accumulate(s, base, acc))
    decreases |s|
  {
    if s == [] {
      assert s + t == t;
    } else {
      assert (s + t)[1..] == s[1..] + t;
      AccumulateAppend(s[1..], t, base, Shift(acc, DigitValue(s[0]), base));
    }
  }

  lemma {:induction false} AccumulatePrint(v: nat, base: Base)
    ensures Accumulate(Print(v, base), base, 0) == v
  {
    var q, d := Quotient(v, base), [DigitChar(LastDigit(v, base))];
    assert Accumulate(d[1..], base, v) == v;
    assert Accumulate(d, base, q) == v;
    if v >= base {
      AccumulatePrint(q, base);
      PrintIsDigits(q, base);
      AccumulateAppend(Print(q, base), d, base, 0);
    }
  }

  lemma {:induction false} LeadingZeros(n: nat, s: string)
    ensures Accumulate(seq(n, i => '0') + s, 16, 0) == Accumulate(s, 16, 0)
  {
    var z := seq(n, i => '0');
    if n == 0 {
      assert z + s == s;
    } else {
      assert (z + s)[1..] == seq(n - 1, i => '0') + s;
      LeadingZeros(n - 1, s);
    }
  }

  lemma DigitsAreNotSpecial(s: string, base: Base)
    requires s != [] && AllDigits(s, base)
    ensures StripLeft(s) == s && Unsign(s) == (false, s)
  {
  }

  lemma AccumulateHex4(v: nat)
    ensures Accumulate(PrintHex4(v), 16, 0) == v
  {
    AccumulatePrint(v, 16);
    if |Print(v, 16)| < 4 {
      LeadingZeros(4 - |Print(v, 16)|, Print(v, 16));
    }
  }

  lemma ParsePrefixed(digits: string, v: uint32)
    requires Accumulate(digits, 16, 0) == v
    ensures ParseHex("0x" + digits) == v
  {
  }

  /** Reading back a printed address. */
  lemma HexRoundTrip(v: uint32)
    ensures ParseHex("0x" + PrintHex4(v)) == v
  {
    AccumulateHex4(v);
    ParsePrefixed(PrintHex4(v), v);
  }

  /** Reading back a printed decimal field. */
  lemma DecimalRoundTrip(v: nat)
    requires v <= LONG_MAX
    ensures Atoi(Print(v, 10)) == v
  {
    PrintIsDigits(v, 10);
    DigitsAreNotSpecial(Print(v, 10), 10);
    AccumulatePrint(v, 10);
  }
}
