/** Address conversions: hexadecimal and dotted-decimal text to integers and
    back, and the separator split the loaders use. */
module Numeric {
  import opened Records

  /** The value of `c` as a digit of `base`, either letter case. */
  function DigitValue(c: char, base: nat): (v: Option<nat>)
    ensures v.Some? ==> v.value < base
  {
    var d: int :=
      if '0' <= c <= '9' then c as int - '0' as int
      else if 'a' <= c <= 'f' then c as int - 'a' as int + 10
      else if 'A' <= c <= 'F' then c as int - 'A' as int + 10
      else -1;
    if 0 <= d < base then Some(d as nat) else None
  }

  /** The lower-case digit character for `d`. */
  function DigitChar(d: nat): (c: char)
    requires d < 16
  {
    if d < 10 then ('0' as int + d) as char else ('a' as int + d - 10) as char
  }

  lemma DigitRoundTrip(d: nat, base: nat)
    requires d < base <= 16
    ensures DigitValue(DigitChar(d), base) == Some(d)
  {
  }

  /** Digits of `base` read most significant first; None unless `s` is a
      non-empty string of such digits. */
  function ParseDigits(s: string, base: nat): (r: Option<nat>)
    requires 2 <= base <= 16
    decreases |s|
  {
    if s == [] then None
    else
      var d := DigitValue(s[|s| - 1], base);
      if d.None? then None
      else if |s| == 1 then d
      else
        var high := ParseDigits(s[..|s| - 1], base);
        if high.None? then None
        else
          NatMulAdd(high.value, base, d.value);
          var v: nat := high.value * base + d.value;
          Some(v)
  }

  lemma NatMulAdd(a: nat, b: nat, c: nat)
    ensures a * b + c >= 0
  {
  }

  /** `n` written in `base` without leading zeros, lower case; "0" for zero. */
  function Digits(n: nat, base: nat): (s: string)
    requires 2 <= base <= 16
    ensures s != []
    decreases n
  {
    if n < base then [DigitChar(n)] else Digits(n / base, base) + [DigitChar(n % base)]
  }

  /** Reading back what Digits writes gives the number. */
  lemma {:induction false} ParseDigitsOfDigits(n: nat, base: nat)
    requires 2 <= base <= 16
    ensures ParseDigits(Digits(n, base), base) == Some(n)
    decreases n
  {
    if n < base {
      DigitRoundTrip(n, base);
    } else {
      var s := Digits(n, base);
      var q, r := n / base, n % base;
      assert s == Digits(q, base) + [DigitChar(r)];
      assert s[..|s| - 1] == Digits(q, base);
      DigitRoundTrip(r, base);
      QuotientSmaller(n, base);
      ParseDigitsOfDigits(q, base);
      DivMod(n, base);
      assert ParseDigits(s, base) == Some(q * base + r);
    }
  }

  lemma QuotientSmaller(n: nat, base: nat)
    requires base >= 2 && n >= 1
    ensures n / base < n
  {
    DivMod(n, base);
    var q := n / base;
    if q >= n {
      assert q * base >= q * 2 by { MulMonoRight(q, 2, base); }
    }
  }

  lemma MulMonoRight(q: nat, a: nat, b: nat)
    requires a <= b
    ensures q * a <= q * b
  {
  }

  lemma DivMod(n: nat, base: nat)
    requires base > 0
    ensures (n / base) * base + n % base == n
  {
  }

  /** A string Digits can produce: lower-case digits, no leading zero. */
  predicate Canonical(s: string, base: nat)
    requires 2 <= base <= 16
  {
    s != [] &&
    (forall i :: 0 <= i < |s| ==> exists d: nat :: d < base && s[i] == DigitChar(d)) &&
    (|s| > 1 ==> s[0] != '0')
  }

  /** Writing back a canonical string that was read gives the string. */
  lemma {:induction false} DigitsOfParseDigits(s: string, base: nat)
    requires 2 <= base <= 16 && Canonical(s, base)
    ensures ParseDigits(s, base).Some? && Digits(ParseDigits(s, base).value, base) == s
    decreases |s|
  {
    var last: nat :| last < base && s[|s| - 1] == DigitChar(last);
    DigitRoundTrip(last, base);
    if |s| == 1 {
      assert ParseDigits(s, base) == Some(last);
      assert s == [DigitChar(last)];
    } else {
      var high := s[..|s| - 1];
      CanonicalPrefix(s, base);
      DigitsOfParseDigits(high, base);
      var h := ParseDigits(high, base).value;
      var first: nat :| first < base && s[0] == DigitChar(first);
      ParseDigitsPositive(high, base, first);
      ParseSnoc(s, base, h, last);
      var n := h * base + last;
      assert ParseDigits(s, base).value == n;
      DigitsSnoc(n, h, base, last);
      calc {
        Digits(n, base);
        Digits(h, base) + [DigitChar(last)];
        { assert Digits(h, base) == high; assert DigitChar(last) == s[|s| - 1]; }
        high + [s[|s| - 1]];
        { LastSplit(s); }
        s;
      }
    }
  }

  /** Dropping the last character of a canonical string of two or more keeps it canonical. */
  lemma CanonicalPrefix(s: string, base: nat)
    requires 2 <= base <= 16 && Canonical(s, base) && |s| > 1
    ensures Canonical(s[..|s| - 1], base)
  {
    var high := s[..|s| - 1];
    forall i | 0 <= i < |high| ensures exists d: nat :: d < base && high[i] == DigitChar(d) {
      assert high[i] == s[i];
    }
  }

  /** Reading a string of two or more digits: the prefix's value times the
      base, plus the last digit. */
  lemma ParseSnoc(s: string, base: nat, h: nat, last: nat)
    requires 2 <= base <= 16 && |s| > 1
    requires ParseDigits(s[..|s| - 1], base) == Some(h) && DigitValue(s[|s| - 1], base) == Some(last)
    ensures ParseDigits(s, base) == Some(h * base + last)
  {
  }

  lemma LastSplit(s: string)
    requires s != []
    ensures s[..|s| - 1] + [s[|s| - 1]] == s
  {
  }

  /** Appending a digit to a positive number's digits. */
  lemma DigitsSnoc(n: nat, h: nat, base: nat, last: nat)
    requires 2 <= base <= 16 && h >= 1 && last < base && n == h * base + last
    ensures Digits(n, base) == Digits(h, base) + [DigitChar(last)]
  {
    HighLow(h, base, last);
    MulMono(h, base);
  }

  lemma HighLow(h: nat, base: nat, d: nat)
    requires d < base
    ensures (h * base + d) / base == h && (h * base + d) % base == d
  {
    var n := h * base + d;
    var q, r := n / base, n % base;
    DivMod(n, base);
    if h > q {
      MulMono(h - q, base);
    } else if q > h {
      MulMono(q - h, base);
    }
  }

  /** A digit string not starting with zero reads as a positive number. */
  lemma {:induction false} ParseDigitsPositive(s: string, base: nat, first: nat)
    requires 2 <= base <= 16 && s != [] && first < base && s[0] == DigitChar(first) && s[0] != '0'
    requires ParseDigits(s, base).Some?
    ensures ParseDigits(s, base).value >= 1
    decreases |s|
  {
    if |s| == 1 {
      DigitRoundTrip(first, base);
    } else {
      var high := s[..|s| - 1];
      assert high[0] == s[0];
      ParseDigitsPositive(high, base, first);
      var h := ParseDigits(high, base).value;
      assert h >= 1;
      assert h * base >= base by { MulMono(h, base); }
    }
  }

  lemma MulMono(h: nat, base: nat)
    requires h >= 1
    ensures h * base >= base
  {
  }

  /** `int(h, 16)` on a string of hexadecimal digits. */
  function HexToInt(h: string): Option<nat>
  {
    ParseDigits(h, 16)
  }

  /** `f"{n:x}"` for a non-negative integer. */
  function IntToHex(n: nat): string
  {
    Digits(n, 16)
  }

  lemma HexRoundTrip(n: nat)
    ensures HexToInt(IntToHex(n)) == Some(n)
  {
    ParseDigitsOfDigits(n, 16);
  }

  /** `s.split(sep)`: the pieces between separators, empty pieces included. */
  function Split(s: string, sep: char): (parts: seq<string>)
    ensures |parts| >= 1
  {
    if s == [] then [""]
    else
      var rest := Split(s[1..], sep);
      if s[0] == sep then [""] + rest else [[s[0]] + rest[0]] + rest[1..]
  }

  /** Splitting a separator-free piece followed by a separator and more text. */
  lemma {:induction false} SplitPiece(x: string, sep: char, y: string)
    requires sep !in x
    ensures Split(x + [sep] + y, sep) == [x] + Split(y, sep)
  {
    if x != [] {
      assert (x + [sep] + y)[1..] == x[1..] + [sep] + y;
      SplitPiece(x[1..], sep, y);
      assert x == [x[0]] + x[1..];
    } else {
      assert ([sep] + y)[1..] == y;
    }
  }

  lemma {:induction false} SplitWhole(x: string, sep: char)
    requires sep !in x
    ensures Split(x, sep) == [x]
  {
    if x != [] {
      SplitWhole(x[1..], sep);
      assert x == [x[0]] + x[1..];
    }
  }

  /** `ip_to_int`: the first four dot-separated decimal parts as one number,
      shifted by 24, 16, 8 and 0 bits; parts after the fourth are ignored and
      the parts are not range-checked. */
  function IpToInt(ip: string): Option<nat>
  {
    var parts := Split(ip, '.');
    if |parts| < 4 then None
    else
      var a, b, c, d := ParseDigits(parts[0], 10), ParseDigits(parts[1], 10),
                        ParseDigits(parts[2], 10), ParseDigits(parts[3], 10);
      if a.None? || b.None? || c.None? || d.None? then None
      else Some(a.value * 0x100_0000 + b.value * 0x1_0000 + c.value * 0x100 + d.value)
  }

  function Dotted(a: nat, b: nat, c: nat, d: nat): string
  {
    Digits(a, 10) + "." + Digits(b, 10) + "." + Digits(c, 10) + "." + Digits(d, 10)
  }

  lemma {:induction false} DecimalHasNoDot(n: nat)
    ensures '.' !in Digits(n, 10)
    decreases n
  {
    if n >= 10 {
      DecimalHasNoDot(n / 10);
    }
  }

  /** A dotted quad with octets below 256 reads as the 32-bit address whose
      bytes are the octets, most significant first. */
  lemma IpToIntOfDotted(a: nat, b: nat, c: nat, d: nat)
    requires a < 256 && b < 256 && c < 256 && d < 256
    ensures IpToInt(Dotted(a, b, c, d)).Some?
    ensures var v := IpToInt(Dotted(a, b, c, d)).value;
      v < 0x1_0000_0000 &&
      v / 0x100_0000 == a && v / 0x1_0000 % 0x100 == b && v / 0x100 % 0x100 == c && v % 0x100 == d
  {
    SplitDotted(a, b, c, d);
    ParseDigitsOfDigits(a, 10); ParseDigitsOfDigits(b, 10);
    ParseDigitsOfDigits(c, 10); ParseDigitsOfDigits(d, 10);
    assert IpToInt(Dotted(a, b, c, d)) == Some(a * 0x100_0000 + b * 0x1_0000 + c * 0x100 + d);
    Octets(a, b, c, d);
  }

  /** A dotted quad splits into its four decimal parts. */
  lemma SplitDotted(a: nat, b: nat, c: nat, d: nat)
    ensures Split(Dotted(a, b, c, d), '.') == [Digits(a, 10), Digits(b, 10), Digits(c, 10), Digits(d, 10)]
  {
    var sa, sb, sc, sd := Digits(a, 10), Digits(b, 10), Digits(c, 10), Digits(d, 10);
    DecimalHasNoDot(a); DecimalHasNoDot(b); DecimalHasNoDot(c); DecimalHasNoDot(d);
    assert Dotted(a, b, c, d) == sa + ['.'] + (sb + ['.'] + (sc + ['.'] + sd));
    SplitPiece(sa, '.', sb + ['.'] + (sc + ['.'] + sd));
    SplitPiece(sb, '.', sc + ['.'] + sd);
    SplitPiece(sc, '.', sd);
    SplitWhole(sd, '.');
  }

  lemma Octets(a: nat, b: nat, c: nat, d: nat)
    requires a < 256 && b < 256 && c < 256 && d < 256
    ensures var v := a * 0x100_0000 + b * 0x1_0000 + c * 0x100 + d;
      v < 0x1_0000_0000 &&
      v / 0x100_0000 == a && v / 0x1_0000 % 0x100 == b && v / 0x100 % 0x100 == c && v % 0x100 == d
  {
    var low := c * 0x100 + d;
    var mid := b * 0x1_0000 + low;
    var v := a * 0x100_0000 + mid;
    ShiftAdd(c, d, 0x100);
    ShiftAdd(b, low, 0x1_0000);
    ShiftAdd(a, mid, 0x100_0000);
    ShiftAdd(a * 0x100 + b, c * 0x100 + d, 0x1_0000);
    assert v == (a * 0x100 + b) * 0x1_0000 + low;
    ShiftAdd(a * 0x1_0000 + b * 0x100 + c, d, 0x100);
    assert v == (a * 0x1_0000 + b * 0x100 + c) * 0x100 + d;
    ShiftAdd(a, b, 0x100);
    ShiftAdd(a * 0x100 + b, c, 0x100);
  }

  /** Placing `lo` below `hi` shifted by `m`. */
  lemma ShiftAdd(hi: nat, lo: nat, m: nat)
    requires lo < m
    ensures (hi * m + lo) / m == hi && (hi * m + lo) % m == lo
  {
    HighLow(hi, m, lo);
  }
}
