/**
 * Text helpers shared by the store, the utilities and the handlers: decimal and
 * hexadecimal numerals (strconv.FormatInt, strconv.Atoi, the %d and %x verbs),
 * substring search and MySQL's LIKE, Go's two notions of white space, and the
 * UTF-8 byte length that Go's `len` reports for a string.
 */
module Strings {
  import opened Wrappers

  // ---------------------------------------------------------------- numerals

  predicate IsDigit(c: char) { '0' <= c <= '9' }

  predicate IsLowerHexLetter(c: char) { 'a' <= c <= 'f' }

  /** c is a digit of the given base (at most 16), written the way Go writes lower-case numerals. */
  predicate IsBaseDigit(c: char, base: nat) {
    (IsDigit(c) && c as int - '0' as int < base) || (IsLowerHexLetter(c) && c as int - 'a' as int + 10 < base)
  }

  predicate AllBaseDigits(s: string, base: nat) {
    forall i :: 0 <= i < |s| ==> IsBaseDigit(s[i], base)
  }

  predicate AllDigits(s: string) { AllBaseDigits(s, 10) }

  function DigitChar(d: nat): (c: char)
    requires d < 16
  {
    if d < 10 then ('0' as int + d) as char else ('a' as int + (d - 10)) as char
  }

  function DigitValue(c: char): nat
    requires IsDigit(c) || IsLowerHexLetter(c)
  {
    if IsDigit(c) then c as int - '0' as int else c as int - 'a' as int + 10
  }

  lemma DigitCharValue(d: nat, base: nat)
    requires d < base <= 16
    ensures IsBaseDigit(DigitChar(d), base) && DigitValue(DigitChar(d)) == d
    ensures DigitChar(d) == '0' <==> d == 0
  {
  }

  /** The two bases Go writes here: decimal (%d, FormatInt) and hexadecimal (%x). */
  predicate IsBase(base: nat) { base == 10 || base == 16 }

  /** The numeral of n in the given base, most significant digit first, without leading zeros. */
  function Numeral(n: nat, base: nat): (s: string)
    requires IsBase(base)
    ensures |s| >= 1 && AllBaseDigits(s, base)
    ensures s[0] == '0' <==> n == 0
    decreases n
  {
    DigitCharValue(n % base, base);
    if n < base then
      DigitCharValue(n, base);
      [DigitChar(n)]
    else
      Numeral(n / base, base) + [DigitChar(n % base)]
  }

  /** The value of a string of digits of the given base (leading zeros allowed, "" is 0). */
  function NumeralValue(s: string, base: nat): nat
    requires base <= 16 && AllBaseDigits(s, base)
  {
    if s == [] then 0
    else
      var init := s[..|s| - 1];
      assert AllBaseDigits(init, base) by {
        forall i | 0 <= i < |init| ensures IsBaseDigit(init[i], base) {
          assert init[i] == s[i];
        }
      }
      NumeralValue(init, base) * base + DigitValue(s[|s| - 1])
  }

  lemma {:induction false} NumeralValueOfNumeral(n: nat, base: nat)
    requires IsBase(base)
    ensures NumeralValue(Numeral(n, base), base) == n
    decreases n
  {
    if n < base {
      NumeralOneDigit(n, base);
    } else {
      NumeralLastDigit(n, base);
      NumeralValueOfNumeral(n / base, base);
      assert n / base * base + n % base == n;
    }
  }

  lemma NumeralOneDigit(n: nat, base: nat)
    requires IsBase(base) && n < base
    ensures NumeralValue(Numeral(n, base), base) == n
  {
    var s := Numeral(n, base);
    DigitCharValue(n, base);
    assert s[..|s| - 1] == [];
    assert NumeralValue(s, base) == DigitValue(DigitChar(n));
  }

  lemma NumeralLastDigit(n: nat, base: nat)
    requires IsBase(base) && n >= base
    ensures NumeralValue(Numeral(n, base), base) == NumeralValue(Numeral(n / base, base), base) * base + n % base
  {
    var s := Numeral(n, base);
    var prefix := Numeral(n / base, base);
    var last := DigitChar(n % base);
    DigitCharValue(n % base, base);
    assert s == prefix + [last];
    assert s[..|s| - 1] == prefix && s[|s| - 1] == last;
  }

  /** strconv.FormatInt(n, 10): also what the %d verb and json.Marshal write for an integer. */
  function FormatInt(n: int): (s: string)
    ensures |s| >= 1
    ensures n >= 0 ==> AllDigits(s) && NumeralValue(s, 10) == n
    ensures n < 0 ==> s[0] == '-' && AllDigits(s[1..]) && NumeralValue(s[1..], 10) == -n
  {
    if n < 0 then
      NumeralValueOfNumeral(-n, 10);
      "-" + Numeral(-n, 10)
    else
      NumeralValueOfNumeral(n, 10);
      Numeral(n, 10)
  }

  /** Distinct integers have distinct numerals, so `privilege_<id>` keys never collide. */
  lemma FormatIntInjective(a: int, b: int)
    requires FormatInt(a) == FormatInt(b)
    ensures a == b
  {
  }

  const MinInt64: int := -0x8000_0000_0000_0000
  const MaxInt64: int := 0x7FFF_FFFF_FFFF_FFFF

  predicate InInt64(n: int) { MinInt64 <= n <= MaxInt64 }

  /** Go's int64 arithmetic: the mathematical value wrapped into int64 (two's complement). */
  function WrapInt64(n: int): (r: int)
    ensures InInt64(r)
    ensures InInt64(n) ==> r == n
    ensures (r - n) % 0x1_0000_0000_0000_0000 == 0
  {
    var m := (n - MinInt64) % 0x1_0000_0000_0000_0000;
    m + MinInt64
  }

  /**
   * strconv.Atoi on a 64-bit platform: an optional `+` or `-`, then at least one
   * decimal digit and nothing else, with a value that fits in an int64.
   */
  function Atoi(s: string): (r: Option<int>)
    ensures r.Some? ==> InInt64(r.value)
  {
    var digits := if |s| > 0 && (s[0] == '+' || s[0] == '-') then s[1..] else s;
    if digits == [] || !AllDigits(digits) then None
    else
      var magnitude: int := NumeralValue(digits, 10);
      var v := if s[0] == '-' then -magnitude else magnitude;
      if InInt64(v) then Some(v) else None
  }

  lemma AtoiOfFormatInt(n: int)
    requires InInt64(n)
    ensures Atoi(FormatInt(n)) == Some(n)
  {
    var s := FormatInt(n);
    if n >= 0 {
      assert s[0] != '+' && s[0] != '-' by { assert IsBaseDigit(s[0], 10); }
    }
  }

  /** A string holding a character that is neither a digit nor a leading sign is not a number. */
  lemma AtoiRejectsNonDigit(s: string, i: nat)
    requires 0 < i < |s| || (i == 0 < |s| && s[0] != '+' && s[0] != '-')
    requires !IsDigit(s[i])
    ensures Atoi(s) == None
  {
    var digits := if |s| > 0 && (s[0] == '+' || s[0] == '-') then s[1..] else s;
    if digits != s {
      assert digits[i - 1] == s[i];
    }
  }

  function Repeat(c: char, n: nat): (s: string)
    ensures |s| == n && forall i :: 0 <= i < n ==> s[i] == c
  {
    if n == 0 then [] else [c] + Repeat(c, n - 1)
  }

  /** The `0` flag with a width, as in %06d and %010x: zeros on the left up to the width. */
  function ZeroPad(s: string, width: nat): (r: string)
    ensures |r| == if |s| >= width then |s| else width
    ensures r[|r| - |s|..] == s
    ensures forall i :: 0 <= i < |r| - |s| ==> r[i] == '0'
  {
    if |s| >= width then s else Repeat('0', width - |s|) + s
  }

  function Pow16(k: nat): nat {
    if k == 0 then 1 else 16 * Pow16(k - 1)
  }

  /** A value below 16^k has at most k hexadecimal digits. */
  lemma {:induction false} NumeralLength(n: nat, k: nat)
    requires 1 <= k && n < Pow16(k)
    ensures |Numeral(n, 16)| <= k
    decreases k
  {
    if n >= 16 {
      assert k >= 2;
      NumeralLength(n / 16, k - 1);
    }
  }

  lemma ZeroPadValue(s: string, width: nat)
    requires AllBaseDigits(s, 16)
    ensures AllBaseDigits(ZeroPad(s, width), 16)
    ensures NumeralValue(ZeroPad(s, width), 16) == NumeralValue(s, 16)
  {
    var r := ZeroPad(s, width);
    forall i | 0 <= i < |r| ensures IsBaseDigit(r[i], 16) {
      if i >= |r| - |s| {
        assert r[i] == r[|r| - |s|..][i - (|r| - |s|)];
      }
    }
    if |s| < width {
      LeadingZeros(Repeat('0', width - |s|), s);
    }
  }

  lemma {:induction false} LeadingZeros(z: string, s: string)
    requires forall i :: 0 <= i < |z| ==> z[i] == '0'
    requires AllBaseDigits(s, 16)
    ensures AllBaseDigits(z + s, 16)
    ensures NumeralValue(z + s, 16) == NumeralValue(s, 16)
    decreases |s|
  {
    ZerosValue(z);
    if s != [] {
      var t := z + s;
      assert t[..|t| - 1] == z + s[..|s| - 1];
      LeadingZeros(z, s[..|s| - 1]);
    } else {
      assert z + s == z;
    }
  }

  lemma {:induction false} ZerosValue(z: string)
    requires forall i :: 0 <= i < |z| ==> z[i] == '0'
    ensures AllBaseDigits(z, 16) && NumeralValue(z, 16) == 0
    decreases |z|
  {
    if z != [] {
      ZerosValue(z[..|z| - 1]);
    }
  }

  // ------------------------------------------------------ substrings and LIKE

  /** q occurs somewhere in s. */
  predicate ContainsSub(s: string, q: string) {
    exists i | 0 <= i <= |s| :: q <= s[i..]
  }

  predicate IsLikeSpecial(c: char) { c == '%' || c == '_' || c == '\\' }

  /** A LIKE pattern without wildcards or escapes: it matches only its own text. */
  predicate IsLiteral(q: string) {
    forall i :: 0 <= i < |q| ==> !IsLikeSpecial(q[i])
  }

  /**
   * MySQL `s LIKE p` with the default escape character `\`: `%` matches any run of
   * characters, `_` exactly one, `\x` the character x, any other character itself.
   */
  predicate Like(s: string, p: string)
    decreases |s| + |p|
  {
    if p == [] then s == []
    else if p[0] == '%' then Like(s, p[1..]) || (s != [] && Like(s[1..], p))
    else if p[0] == '_' then s != [] && Like(s[1..], p[1..])
    else if p[0] == '\\' && |p| >= 2 then s != [] && s[0] == p[1] && Like(s[1..], p[2..])
    else s != [] && s[0] == p[0] && Like(s[1..], p[1..])
  }

  lemma {:induction false} LikePercent(s: string)
    ensures Like(s, "%")
    decreases |s|
  {
    if s != [] {
      LikePercent(s[1..]);
    }
  }

  lemma {:induction false} LikePrefix(t: string, q: string)
    requires IsLiteral(q)
    ensures Like(t, q + "%") <==> q <= t
    decreases |q|
  {
    var p := q + "%";
    if q == [] {
      assert p == "%";
      LikePercent(t);
    } else {
      assert p[0] == q[0] && p[1..] == q[1..] + "%";
      if t != [] {
        LikePrefix(t[1..], q[1..]);
      }
    }
  }

  /** `s LIKE '%q%'` for a literal q is exactly "q occurs in s". */
  lemma {:induction false} LikeContains(s: string, q: string)
    requires IsLiteral(q)
    ensures Like(s, "%" + q + "%") <==> ContainsSub(s, q)
    decreases |s|
  {
    var p := "%" + q + "%";
    assert p[0] == '%' && p[1..] == q + "%";
    LikePrefix(s, q);
    if s == [] {
      assert s[0..] == s;
    } else {
      LikeContains(s[1..], q);
      if ContainsSub(s[1..], q) {
        var i :| 0 <= i <= |s[1..]| && q <= s[1..][i..];
        assert s[1..][i..] == s[i + 1..];
      }
      if ContainsSub(s, q) {
        var i :| 0 <= i <= |s| && q <= s[i..];
        if i > 0 {
          assert s[1..][i - 1..] == s[i..];
        } else {
          assert s[0..] == s;
        }
      }
    }
  }

  /** A substring of the left part is a substring of the whole. */
  lemma ContainsInLeft(a: string, b: string, q: string)
    requires ContainsSub(a, q)
    ensures ContainsSub(a + b, q)
  {
    var i :| 0 <= i <= |a| && q <= a[i..];
    assert (a + b)[i..][..|q|] == a[i..][..|q|];
  }

  /** A substring of the right part is a substring of the whole. */
  lemma ContainsInRight(a: string, b: string, q: string)
    requires ContainsSub(b, q)
    ensures ContainsSub(a + b, q)
  {
    var i :| 0 <= i <= |b| && q <= b[i..];
    assert (a + b)[|a| + i..] == b[i..];
  }

  // ------------------------------------------------------------- white space

  /** unicode.IsSpace, the test behind strings.TrimSpace. */
  predicate IsSpace(c: char) {
    var n := c as int;
    (9 <= n <= 13) || n == 0x20 || n == 0x85 || n == 0xA0 || n == 0x1680 || (0x2000 <= n <= 0x200A)
    || n == 0x2028 || n == 0x2029 || n == 0x202F || n == 0x205F || n == 0x3000
  }

  /** `\s` in Go's regexp syntax: tab, newline, form feed, carriage return and space. */
  predicate IsRegexpSpace(c: char) {
    c == ' ' || c == '\t' || c == '\n' || c == '\r' || c as int == 12
  }

  /** The number of white-space characters at the start of s. */
  function LeadingSpace(s: string): (n: nat)
    ensures n <= |s|
  {
    if s != [] && IsSpace(s[0]) then 1 + LeadingSpace(s[1..]) else 0
  }

  /** The number of white-space characters at the end of s. */
  function TrailingSpace(s: string): (n: nat)
    ensures n <= |s|
  {
    if s != [] && IsSpace(s[|s| - 1]) then 1 + TrailingSpace(s[..|s| - 1]) else 0
  }

  lemma {:induction false} LeadingSpaceRun(s: string)
    ensures forall i :: 0 <= i < LeadingSpace(s) ==> IsSpace(s[i])
    ensures LeadingSpace(s) == |s| || !IsSpace(s[LeadingSpace(s)])
    decreases |s|
  {
    if s != [] && IsSpace(s[0]) {
      LeadingSpaceRun(s[1..]);
      forall i | 1 <= i < LeadingSpace(s) ensures IsSpace(s[i]) {
        assert s[i] == s[1..][i - 1];
      }
    }
  }

  lemma {:induction false} TrailingSpaceRun(s: string)
    ensures forall i :: |s| - TrailingSpace(s) <= i < |s| ==> IsSpace(s[i])
    ensures TrailingSpace(s) == |s| || !IsSpace(s[|s| - 1 - TrailingSpace(s)])
    decreases |s|
  {
    if s != [] && IsSpace(s[|s| - 1]) {
      var init := s[..|s| - 1];
      TrailingSpaceRun(init);
      forall i | |s| - TrailingSpace(s) <= i < |s| - 1 ensures IsSpace(s[i]) {
        assert s[i] == init[i];
      }
      if TrailingSpace(s) < |s| {
        assert s[|s| - 1 - TrailingSpace(s)] == init[|init| - 1 - TrailingSpace(init)];
      }
    }
  }

  /** strings.TrimSpace: drops leading and trailing Unicode white space. */
  function TrimSpace(s: string): string {
    var lo := LeadingSpace(s);
    s[lo..|s| - TrailingSpace(s[lo..])]
  }

  /** TrimSpace returns a contiguous piece of its input and drops only white space around it. */
  lemma TrimSpaceSlice(s: string) returns (lo: nat, hi: nat)
    ensures lo <= hi <= |s| && TrimSpace(s) == s[lo..hi]
    ensures forall i :: 0 <= i < lo || hi <= i < |s| ==> IsSpace(s[i])
  {
    lo := LeadingSpace(s);
    var rest := s[lo..];
    hi := |s| - TrailingSpace(rest);
    LeadingSpaceRun(s);
    TrailingSpaceRun(rest);
    forall i | hi <= i < |s| ensures IsSpace(s[i]) {
      assert s[i] == rest[i - lo];
    }
  }

  /** What TrimSpace returns neither starts nor ends with white space. */
  lemma TrimSpaceEnds(s: string)
    ensures var r := TrimSpace(s); r == [] || (!IsSpace(r[0]) && !IsSpace(r[|r| - 1]))
  {
    var lo := LeadingSpace(s);
    var rest := s[lo..];
    LeadingSpaceRun(s);
    TrailingSpaceRun(rest);
    var r := TrimSpace(s);
    if r != [] {
      assert r[0] == s[lo];
      assert r[|r| - 1] == rest[|rest| - 1 - TrailingSpace(rest)];
    }
  }

  /** Trimming a string that does not start or end with white space changes nothing. */
  lemma TrimSpaceTrimmed(s: string)
    requires s == [] || (!IsSpace(s[0]) && !IsSpace(s[|s| - 1]))
    ensures TrimSpace(s) == s
  {
    if s != [] {
      assert LeadingSpace(s) == 0;
      assert s[0..] == s;
    }
  }

  // ------------------------------------------------------------------ filters

  function Filter<T>(f: T -> bool, s: seq<T>): (r: seq<T>)
    ensures |r| <= |s|
    ensures forall i :: 0 <= i < |r| ==> f(r[i]) && r[i] in s
  {
    if s == [] then [] else (if f(s[0]) then [s[0]] else []) + Filter(f, s[1..])
  }

  lemma {:induction false} FilterConcat<T>(f: T -> bool, a: seq<T>, b: seq<T>)
    ensures Filter(f, a + b) == Filter(f, a) + Filter(f, b)
    decreases |a|
  {
    if a == [] {
      assert a + b == b;
    } else {
      assert (a + b)[1..] == a[1..] + b;
      FilterConcat(f, a[1..], b);
    }
  }

  /** A filter that keeps no element of s yields nothing. */
  lemma {:induction false} FilterNone<T>(f: T -> bool, s: seq<T>)
    requires forall i :: 0 <= i < |s| ==> !f(s[i])
    ensures Filter(f, s) == []
    decreases |s|
  {
    if s != [] {
      FilterNone(f, s[1..]);
    }
  }

  /** The characters of s that are not white space, in order. */
  function NonSpace(s: string): string {
    Filter((c: char) => !IsSpace(c), s)
  }

  lemma NonSpaceConcat(a: string, b: string)
    ensures NonSpace(a + b) == NonSpace(a) + NonSpace(b)
  {
    FilterConcat((c: char) => !IsSpace(c), a, b);
  }

  lemma NonSpaceOfSpaces(s: string)
    requires forall i :: 0 <= i < |s| ==> IsSpace(s[i])
    ensures NonSpace(s) == []
  {
    FilterNone((c: char) => !IsSpace(c), s);
  }

  /** Trimming never loses a character that is not white space. */
  lemma NonSpaceTrim(s: string)
    ensures NonSpace(TrimSpace(s)) == NonSpace(s)
  {
    var lo, hi := TrimSpaceSlice(s);
    assert s == s[..lo] + s[lo..hi] + s[hi..];
    NonSpaceConcat(s[..lo] + s[lo..hi], s[hi..]);
    NonSpaceConcat(s[..lo], s[lo..hi]);
    NonSpaceOfSpaces(s[..lo]);
    NonSpaceOfSpaces(s[hi..]);
  }

  // ---------------------------------------------------------------- UTF-8

  /** Bytes in the UTF-8 encoding of one character. */
  function CharUtf8Len(c: char): nat {
    var n := c as int;
    if n < 0x80 then 1 else if n < 0x800 then 2 else if n < 0x10000 then 3 else 4
  }

  /** Go's len(s) for the UTF-8 encoding of s. */
  function Utf8Len(s: string): nat {
    if s == [] then 0 else CharUtf8Len(s[0]) + Utf8Len(s[1..])
  }

  lemma {:induction false} Utf8LenConcat(a: string, b: string)
    ensures Utf8Len(a + b) == Utf8Len(a) + Utf8Len(b)
    decreases |a|
  {
    if a == [] {
      assert a + b == b;
    } else {
      assert (a + b)[1..] == a[1..] + b;
      Utf8LenConcat(a[1..], b);
    }
  }

  lemma Utf8LenSlice(s: string, lo: nat, hi: nat)
    requires lo <= hi <= |s|
    ensures Utf8Len(s[lo..hi]) <= Utf8Len(s)
  {
    assert s == s[..lo] + s[lo..hi] + s[hi..];
    Utf8LenConcat(s[..lo] + s[lo..hi], s[hi..]);
    Utf8LenConcat(s[..lo], s[lo..hi]);
  }
}
