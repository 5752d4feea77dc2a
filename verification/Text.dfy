/** Canonical text forms used by the publish journal and the commit receipt: CRLF lines, decimal
    numbers, lowercase hexadecimal. Text is a sequence of Unicode scalar values. */
module Text {
  import opened Wrappers
  import opened MachineIntegers

  // ---------------------------------------------------------------------------------------------
  // Prefixes, suffixes and substring search
  // ---------------------------------------------------------------------------------------------

  function AsciiUpper(c: char): char {
    if 'a' <= c <= 'z' then (c as int - 32) as char else c
  }

  /** Equal, or the two cases of one ASCII letter. */
  predicate SameButCase(a: char, b: char) {
    || a == b
    || ('a' <= a <= 'z' && 'A' <= b <= 'Z' && a as int == b as int + 32)
    || ('A' <= a <= 'Z' && 'a' <= b <= 'z' && b as int == a as int + 32)
  }

  /** Equal in length, and character by character up to ASCII case. */
  predicate EqualButCase(s: string, t: string) {
    |s| == |t| && forall i :: 0 <= i < |s| ==> SameButCase(s[i], t[i])
  }

  predicate StartsWith(s: string, prefix: string) {
    |prefix| <= |s| && s[..|prefix|] == prefix
  }

  predicate EndsWith(s: string, suffix: string) {
    |suffix| <= |s| && s[|s| - |suffix|..] == suffix
  }

  function StripPrefix(s: string, prefix: string): (r: Option<string>)
    ensures r.Some? <==> StartsWith(s, prefix)
    ensures r.Some? ==> s == prefix + r.value
  {
    if StartsWith(s, prefix) then Some(s[|prefix|..]) else None
  }

  function StripSuffix(s: string, suffix: string): (r: Option<string>)
    ensures r.Some? <==> EndsWith(s, suffix)
    ensures r.Some? ==> s == r.value + suffix
  {
    if EndsWith(s, suffix) then Some(s[..|s| - |suffix|]) else None
  }

  predicate OccursAt(s: string, pattern: string, i: nat) {
    i + |pattern| <= |s| && s[i..i + |pattern|] == pattern
  }

  /** The start of the last occurrence of `pattern` that starts below `bound`. */
  function LastOccurrence(s: string, pattern: string, bound: nat): (r: Option<nat>)
    ensures r.None? ==> forall i: nat :: i < bound ==> !OccursAt(s, pattern, i)
    ensures r.Some? ==>
      && r.value < bound
      && OccursAt(s, pattern, r.value)
      && forall i: nat :: r.value < i < bound ==> !OccursAt(s, pattern, i)
  {
    if bound == 0 then None
    else if OccursAt(s, pattern, bound - 1) then Some(bound - 1)
    else LastOccurrence(s, pattern, bound - 1)
  }

  // ---------------------------------------------------------------------------------------------
  // Line framing
  // ---------------------------------------------------------------------------------------------

  const CRLF := "\r\n"

  /** Leftmost non-overlapping split at every CRLF. */
  function SplitLines(s: string): (lines: seq<string>)
    ensures |lines| >= 1
  {
    if |s| == 0 then [""]
    else if StartsWith(s, CRLF) then [""] + SplitLines(s[2..])
    else
      var rest := SplitLines(s[1..]);
      [[s[0]] + rest[0]] + rest[1..]
  }

  /** Every line followed by CRLF. */
  function Terminated(lines: seq<string>): string {
    if lines == [] then "" else lines[0] + CRLF + Terminated(lines[1..])
  }

  predicate OneLine(s: string) {
    forall i :: 0 <= i < |s| ==> s[i] != '\r' && s[i] != '\n'
  }

  predicate OneLineEach(lines: seq<string>) {
    forall i :: 0 <= i < |lines| ==> OneLine(lines[i])
  }

  lemma {:induction false} TerminatedOfSplit(s: string)
    ensures Terminated(SplitLines(s)) == s + CRLF
  {
    if |s| == 0 {
      assert Terminated([""]) == "" + CRLF + Terminated([]);
    } else if StartsWith(s, CRLF) {
      TerminatedOfSplit(s[2..]);
      assert ([""] + SplitLines(s[2..]))[1..] == SplitLines(s[2..]);
      assert s == CRLF + s[2..];
    } else {
      TerminatedOfSplit(s[1..]);
      var rest := SplitLines(s[1..]);
      GrowFirstLine(s[0], rest);
      assert s + CRLF == [s[0]] + (s[1..] + CRLF);
    }
  }

  /** Putting a character before the first line puts it before the joined text. */
  lemma GrowFirstLine(c: char, lines: seq<string>)
    requires lines != []
    ensures Terminated([[c] + lines[0]] + lines[1..]) == [c] + Terminated(lines)
  {
    var grown := [[c] + lines[0]] + lines[1..];
    assert grown[1..] == lines[1..];
    var rest := Terminated(lines[1..]);
    assert ([c] + lines[0]) + CRLF + rest == [c] + (lines[0] + CRLF + rest);
  }

  /** Cutting off the first line. */
  lemma {:induction false} SplitFirstLine(line: string, rest: string)
    requires OneLine(line)
    ensures SplitLines(line) == [line]
    ensures SplitLines(line + CRLF + rest) == [line] + SplitLines(rest)
  {
    var s := line + CRLF + rest;
    if |line| == 0 {
      assert s[..2] == CRLF && s[2..] == rest;
    } else {
      SplitFirstLine(line[1..], rest);
      assert s[1..] == line[1..] + CRLF + rest;
      assert s[0] == line[0];
      assert line == [line[0]] + line[1..];
    }
  }

  /** Splitting undoes joining when no line holds a framing character. */
  lemma {:induction false} SplitOfTerminated(lines: seq<string>, s: string)
    requires lines != [] && OneLineEach(lines)
    requires Terminated(lines) == s + CRLF
    ensures SplitLines(s) == lines
    decreases |lines|
  {
    var first, rest := lines[0], Terminated(lines[1..]);
    assert OneLine(first);
    if |lines| == 1 {
      assert rest == "";
      assert s == (s + CRLF)[..|s|] == first;
      SplitFirstLine(first, "");
    } else {
      forall i | 0 <= i < |lines[1..]| ensures OneLine(lines[1..][i]) {
        assert lines[1..][i] == lines[i + 1];
      }
      EndsInCrLf(lines[1..]);
      var t := rest[..|rest| - 2];
      SplitOfTerminated(lines[1..], t);
      SplitFirstLine(first, t);
      assert rest == t + CRLF;
      WithoutLastCrLf(s, first, t);
    }
  }

  lemma WithoutLastCrLf(s: string, first: string, t: string)
    requires s + CRLF == first + CRLF + (t + CRLF)
    ensures s == first + CRLF + t
  {
    assert s == (s + CRLF)[..|s|];
    assert first + CRLF + t == (first + CRLF + (t + CRLF))[..|s|];
  }

  lemma EndsInCrLf(lines: seq<string>)
    requires lines != []
    ensures |Terminated(lines)| >= 2 && EndsWith(Terminated(lines), CRLF)
  {
    var t := Terminated(lines);
    if |lines| == 1 {
      assert Terminated(lines[1..]) == "";
      assert t == lines[0] + CRLF;
    } else {
      EndsInCrLf(lines[1..]);
      var rest := Terminated(lines[1..]);
      assert t == (lines[0] + CRLF) + rest;
      assert t[|t| - 2..] == rest[|rest| - 2..];
    }
  }

  /** Every line feed is preceded by a carriage return. */
  predicate OnlyCrLf(s: string) {
    forall i :: 0 <= i < |s| && s[i] == '\n' ==> i > 0 && s[i - 1] == '\r'
  }

  predicate HasDoubleLineFeed(s: string) {
    exists i :: 0 <= i && i + 1 < |s| && s[i] == '\n' && s[i + 1] == '\n'
  }

  lemma {:induction false} TerminatedIsOnlyCrLf(lines: seq<string>)
    requires OneLineEach(lines)
    ensures OnlyCrLf(Terminated(lines))
  {
    if lines != [] {
      forall i | 0 <= i < |lines[1..]| ensures OneLine(lines[1..][i]) {
        assert lines[1..][i] == lines[i + 1];
      }
      TerminatedIsOnlyCrLf(lines[1..]);
      var head := lines[0] + CRLF;
      var rest := Terminated(lines[1..]);
      assert OneLine(lines[0]);
      forall i | 0 <= i < |head + rest| && (head + rest)[i] == '\n'
        ensures i > 0 && (head + rest)[i - 1] == '\r'
      {
        if i >= |head| { assert rest[i - |head|] == '\n'; }
      }
    }
  }

  // ---------------------------------------------------------------------------------------------
  // Splitting at one character
  // ---------------------------------------------------------------------------------------------

  function SplitAt(s: string, c: char): (parts: seq<string>)
    ensures |parts| >= 1
  {
    if |s| == 0 then [""]
    else if s[0] == c then [""] + SplitAt(s[1..], c)
    else
      var rest := SplitAt(s[1..], c);
      [[s[0]] + rest[0]] + rest[1..]
  }

  function Separated(parts: seq<string>, c: char): string
    requires parts != []
  {
    if |parts| == 1 then parts[0] else parts[0] + [c] + Separated(parts[1..], c)
  }

  lemma {:induction false} SeparatedOfSplit(s: string, c: char)
    ensures Separated(SplitAt(s, c), c) == s
  {
    if |s| == 0 {
    } else {
      SeparatedOfSplit(s[1..], c);
      var rest := SplitAt(s[1..], c);
      assert s == [s[0]] + s[1..];
      if s[0] == c {
        assert ([""] + rest)[1..] == rest;
      } else {
        var parts := [[s[0]] + rest[0]] + rest[1..];
        assert parts[1..] == rest[1..];
        assert Separated(parts, c) == [s[0]] + Separated(rest, c);
      }
    }
  }

  /** Cutting off the first part. */
  lemma {:induction false} SplitFirst(part: string, rest: string, c: char)
    requires c !in part
    ensures SplitAt(part, c) == [part]
    ensures SplitAt(part + [c] + rest, c) == [part] + SplitAt(rest, c)
  {
    var s := part + [c] + rest;
    if |part| == 0 {
      assert s[1..] == rest;
    } else {
      SplitFirst(part[1..], rest, c);
      assert s[1..] == part[1..] + [c] + rest;
      assert part == [part[0]] + part[1..];
    }
  }

  // ---------------------------------------------------------------------------------------------
  // Decimal numbers
  // ---------------------------------------------------------------------------------------------

  predicate IsDigit(c: char) {
    '0' <= c <= '9'
  }

  predicate AllDigits(s: string) {
    forall i :: 0 <= i < |s| ==> IsDigit(s[i])
  }

  function DigitChar(d: int): (c: char)
    requires 0 <= d < 10
    ensures IsDigit(c)
  {
    '0' + (d as char)
  }

  function DigitValue(c: char): (d: int)
    requires IsDigit(c)
    ensures 0 <= d < 10
  {
    (c as int) - ('0' as int)
  }

  function Decimal(n: nat): (s: string)
    ensures |s| >= 1 && AllDigits(s)
    ensures n > 0 ==> s[0] != '0'
    ensures n == 0 ==> s == "0"
  {
    if n < 10 then [DigitChar(n)] else Decimal(n / 10) + [DigitChar(n % 10)]
  }

  function DecimalValue(s: string): nat
    requires AllDigits(s)
  {
    if s == "" then 0
    else 10 * DecimalValue(s[..|s| - 1]) + DigitValue(s[|s| - 1])
  }

  predicate CanonicalDecimal(s: string) {
    s != "" && AllDigits(s) && (|s| > 1 ==> s[0] != '0')
  }

  function ParseCanonicalU64(s: string): (r: Option<u64>) {
    if CanonicalDecimal(s) && DecimalValue(s) <= U64_MAX then Some(DecimalValue(s)) else None
  }

  lemma {:induction false} ValueOfDecimal(n: nat)
    ensures DecimalValue(Decimal(n)) == n
  {
    if n >= 10 {
      ValueOfDecimal(n / 10);
      var s := Decimal(n);
      assert s[..|s| - 1] == Decimal(n / 10);
    } else {
      var s := Decimal(n);
      assert s[..0] == "";
    }
  }

  lemma {:induction false} DecimalOfValue(s: string)
    requires CanonicalDecimal(s)
    ensures Decimal(DecimalValue(s)) == s
    ensures |s| > 1 ==> DecimalValue(s) >= 10
  {
    var init := s[..|s| - 1];
    var last := s[|s| - 1];
    assert s == init + [last];
    if |s| == 1 {
      assert init == "";
    } else {
      DecimalOfValue(init);
      if |init| == 1 {
        assert DecimalValue(init) == 10 * DecimalValue(init[..0]) + DigitValue(init[0]);
      }
      assert DecimalValue(init) >= 1;
      assert DecimalValue(s) / 10 == DecimalValue(init);
      assert DecimalValue(s) % 10 == DigitValue(last);
    }
  }

  function Power10(exponent: nat): (p: nat)
    ensures p >= 1
  {
    if exponent == 0 then 1 else 10 * Power10(exponent - 1)
  }

  /** Every digit of a decimal by its place, counted from the right. */
  lemma {:induction false} DecimalAt(n: nat, place: nat)
    requires place < |Decimal(n)|
    ensures Decimal(n)[|Decimal(n)| - 1 - place] == "0123456789"[n / Power10(place) % 10]
  {
    if n >= 10 {
      if place > 0 {
        DecimalAt(n / 10, place - 1);
        DivideTwice(n, 10, Power10(place - 1));
      } else {
        assert Power10(0) == 1;
      }
    } else {
      assert place == 0 && Power10(0) == 1;
    }
  }

  /** A decimal has as many digits as the number needs. */
  lemma {:induction false} DecimalLength(n: nat, digits: nat)
    ensures |Decimal(n)| <= digits <==> digits >= 1 && n < Power10(digits)
  {
    if digits == 0 {
    } else if n < 10 {
      assert Power10(digits) == 10 * Power10(digits - 1);
    } else {
      DecimalLength(n / 10, digits - 1);
      assert Power10(1) == 10 * Power10(0);
      assert Power10(digits) == 10 * Power10(digits - 1);
    }
  }

  /** Canonical decimal parsing and formatting are inverse to each other. */
  lemma DecimalRoundTrip(n: u64)
    ensures ParseCanonicalU64(Decimal(n)) == Some(n)
  {
    ValueOfDecimal(n);
  }

  lemma CanonicalU64IsDecimal(s: string)
    requires ParseCanonicalU64(s).Some?
    ensures s == Decimal(ParseCanonicalU64(s).value)
  {
    DecimalOfValue(s);
  }

  // ---------------------------------------------------------------------------------------------
  // Lowercase hexadecimal
  // ---------------------------------------------------------------------------------------------

  predicate IsHex(c: char) {
    IsDigit(c) || 'a' <= c <= 'f'
  }

  predicate AllHex(s: string) {
    forall i :: 0 <= i < |s| ==> IsHex(s[i])
  }

  lemma IsHexExactly(c: char)
    ensures IsHex(c) <==> c in "0123456789abcdef"
  {
    var digits := "0123456789abcdef";
    if IsDigit(c) { assert digits[c as int - '0' as int] == c; }
    if 'a' <= c <= 'f' { assert digits[c as int - 'a' as int + 10] == c; }
  }

  function HexDigit(d: int): (c: char)
    requires 0 <= d < 16
    ensures IsHex(c) && HexNibble(c) == d
  {
    if d < 10 then '0' + (d as char) else 'a' + ((d - 10) as char)
  }

  function HexNibble(c: char): (d: int)
    requires IsHex(c)
    ensures 0 <= d < 16
  {
    if IsDigit(c) then (c as int) - ('0' as int) else (c as int) - ('a' as int) + 10
  }

  lemma HexDigitOfNibble(c: char)
    requires IsHex(c)
    ensures HexDigit(HexNibble(c)) == c
  {
  }

  function EncodeHex(bytes: seq<byte>): (s: string)
    ensures |s| == 2 * |bytes| && AllHex(s)
  {
    if bytes == [] then ""
    else [HexDigit(bytes[0] / 16), HexDigit(bytes[0] % 16)] + EncodeHex(bytes[1..])
  }

  function DecodeHex(s: string): (bytes: seq<byte>)
    requires |s| % 2 == 0 && AllHex(s)
    ensures 2 * |bytes| == |s|
  {
    if s == "" then []
    else [16 * HexNibble(s[0]) + HexNibble(s[1])] + DecodeHex(s[2..])
  }

  /** The high nibble of every byte first, then the low one. */
  lemma {:induction false} EncodeHexAt(bytes: seq<byte>, i: nat)
    requires i < |bytes|
    ensures EncodeHex(bytes)[2 * i] == "0123456789abcdef"[bytes[i] / 16]
    ensures EncodeHex(bytes)[2 * i + 1] == "0123456789abcdef"[bytes[i] % 16]
  {
    if i > 0 {
      EncodeHexAt(bytes[1..], i - 1);
      var rest := EncodeHex(bytes[1..]);
      assert EncodeHex(bytes)[2 * i] == rest[2 * (i - 1)];
      assert EncodeHex(bytes)[2 * i + 1] == rest[2 * (i - 1) + 1];
    }
  }

  lemma DivideBy16(high: nat, low: nat)
    requires low < 16
    ensures (16 * high + low) / 16 == high && (16 * high + low) % 16 == low
  {
  }

  lemma {:induction false} DecodeOfEncodeHex(bytes: seq<byte>)
    ensures DecodeHex(EncodeHex(bytes)) == bytes
  {
    if bytes != [] {
      DecodeOfEncodeHex(bytes[1..]);
      assert EncodeHex(bytes)[2..] == EncodeHex(bytes[1..]);
    }
  }

  lemma {:induction false} EncodeOfDecodeHex(s: string)
    requires |s| % 2 == 0 && AllHex(s)
    ensures EncodeHex(DecodeHex(s)) == s
  {
    if s != "" {
      EncodeOfDecodeHex(s[2..]);
      var bytes := DecodeHex(s);
      HexDigitOfNibble(s[0]);
      HexDigitOfNibble(s[1]);
      DivideBy16(HexNibble(s[0]), HexNibble(s[1]));
      assert bytes[0] == 16 * HexNibble(s[0]) + HexNibble(s[1]);
      assert bytes[1..] == DecodeHex(s[2..]);
      assert [HexDigit(bytes[0] / 16), HexDigit(bytes[0] % 16)] == [s[0], s[1]];
      assert s == [s[0], s[1]] + s[2..];
    }
  }

  function Power16(width: nat): (p: nat)
    ensures p >= 1
  {
    if width == 0 then 1 else 16 * Power16(width - 1)
  }

  /** Zero-padded hexadecimal of exactly `width` digits. */
  function FixedHex(n: nat, width: nat): (s: string)
    ensures |s| == width && AllHex(s)
  {
    if width == 0 then "" else FixedHex(n / 16, width - 1) + [HexDigit(n % 16)]
  }

  function HexNumber(s: string): (n: nat)
    requires AllHex(s)
    ensures n < Power16(|s|)
  {
    if s == "" then 0 else 16 * HexNumber(s[..|s| - 1]) + HexNibble(s[|s| - 1])
  }

  /** Every digit of a padded hexadecimal by its place, counted from the right. */
  lemma {:induction false} FixedHexAt(n: nat, width: nat, place: nat)
    requires place < width
    ensures FixedHex(n, width)[width - 1 - place] == "0123456789abcdef"[n / Power16(place) % 16]
  {
    if place > 0 {
      FixedHexAt(n / 16, width - 1, place - 1);
      DivideTwice(n, 16, Power16(place - 1));
    } else {
      assert Power16(0) == 1;
    }
  }

  lemma {:induction false} NumberOfFixedHex(n: nat, width: nat)
    requires n < Power16(width)
    ensures HexNumber(FixedHex(n, width)) == n
  {
    if width > 0 {
      NumberOfFixedHex(n / 16, width - 1);
      assert FixedHex(n, width)[..width - 1] == FixedHex(n / 16, width - 1);
    }
  }

  lemma {:induction false} FixedHexOfNumber(s: string)
    requires AllHex(s)
    ensures FixedHex(HexNumber(s), |s|) == s
  {
    if s != "" {
      var init := s[..|s| - 1];
      var last := HexNibble(s[|s| - 1]);
      FixedHexOfNumber(init);
      HexDigitOfNibble(s[|s| - 1]);
      DivideBy16(HexNumber(init), last);
      assert HexNumber(s) == 16 * HexNumber(init) + last;
      assert FixedHex(HexNumber(s), |s|) == FixedHex(HexNumber(init), |s| - 1) + [HexDigit(last)];
      assert s == init + [s[|s| - 1]];
    }
  }

  lemma Power16Widths()
    ensures Power16(8) == U32_MAX + 1
    ensures Power16(16) == U64_MAX + 1
  {
    assert Power16(4) == 0x1_0000;
    assert Power16(8) == 0x1_0000 * Power16(4);
    assert Power16(12) == 0x1_0000 * Power16(8);
    assert Power16(16) == 0x1_0000 * Power16(12);
  }
}
