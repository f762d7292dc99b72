/** The few pieces of Python string handling the codec relies on:
    `str.split` on one separator character, the `in` substring test,
    `f"{n}"` and `f"{n:04x}"` formatting, and `str.islower` on a byte. */
module Text {
  import opened Bytes
  import opened Outcome

  /** `s.split(sep)`: the pieces between separators, empty ones included. */
  function Split(s: string, sep: char): (parts: seq<string>)
    ensures |parts| >= 1
    decreases |s|
  {
    if s == [] then [[]]
    else
      var rest := Split(s[1..], sep);
      if s[0] == sep then [[]] + rest
      else [[s[0]] + rest[0]] + rest[1..]
  }

  /** `sep.join(parts)`, the inverse of `Split`. */
  function Join(parts: seq<string>, sep: char): string
    requires |parts| >= 1
    decreases |parts|
  {
    if |parts| == 1 then parts[0] else parts[0] + [sep] + Join(parts[1..], sep)
  }

  function Count(s: string, c: char): nat
    decreases |s|
  {
    if s == [] then 0 else (if s[0] == c then 1 else 0) + Count(s[1..], c)
  }

  /** Splitting loses nothing: joining the pieces back gives the string,
      no piece contains the separator, and there is one more piece than
      separators. */
  lemma SplitJoin(s: string, sep: char)
    ensures Join(Split(s, sep), sep) == s
    ensures forall i :: 0 <= i < |Split(s, sep)| ==> sep !in Split(s, sep)[i]
    ensures |Split(s, sep)| == Count(s, sep) + 1
  {
    SplitRejoins(s, sep);
    SplitPieces(s, sep);
  }

  lemma {:induction false} SplitRejoins(s: string, sep: char)
    ensures Join(Split(s, sep), sep) == s
    decreases |s|
  {
    if s != [] {
      SplitRejoins(s[1..], sep);
      var rest := Split(s[1..], sep);
      if s[0] == sep {
        assert Split(s, sep)[1..] == rest;
      } else {
        var parts := Split(s, sep);
        assert parts[1..] == rest[1..];
        if |rest| == 1 {
          assert Join(parts, sep) == [s[0]] + rest[0];
        } else {
          assert Join(rest, sep) == rest[0] + [sep] + Join(rest[1..], sep);
          assert Join(parts, sep) == [s[0]] + rest[0] + [sep] + Join(rest[1..], sep);
        }
        assert s == [s[0]] + s[1..];
      }
    }
  }

  lemma {:induction false} SplitPieces(s: string, sep: char)
    ensures forall i :: 0 <= i < |Split(s, sep)| ==> sep !in Split(s, sep)[i]
    ensures |Split(s, sep)| == Count(s, sep) + 1
    decreases |s|
  {
    if s != [] {
      SplitPieces(s[1..], sep);
      var rest := Split(s[1..], sep);
      var parts := Split(s, sep);
      forall i | 0 <= i < |parts|
        ensures sep !in parts[i]
      {
        if s[0] == sep {
          if i > 0 { assert parts[i] == rest[i - 1]; }
        } else if i > 0 {
          assert parts[i] == rest[i];
        }
      }
    }
  }

  /** Python's `a, b = s.split(sep)`: defined exactly when `s` holds one
      separator. */
  function SplitPair(s: string, sep: char): (r: Option<(string, string)>)
    ensures r.Some? <==> Count(s, sep) == 1
    ensures r.Some? ==> r.value.0 + [sep] + r.value.1 == s
    ensures r.Some? ==> sep !in r.value.0 && sep !in r.value.1
  {
    SplitJoin(s, sep);
    var parts := Split(s, sep);
    if |parts| == 2 then
      assert Join(parts, sep) == parts[0] + [sep] + Join(parts[1..], sep);
      assert parts[1..] == [parts[1]];
      Some((parts[0], parts[1]))
    else None
  }

  /** Python's `sub in s`. */
  predicate Contains(s: string, sub: string)
    decreases |s|
  {
    |sub| <= |s| && (s[..|sub|] == sub || Contains(s[1..], sub))
  }

  /** `"0123456789abcdef"[d]` */
  function HexDigit(d: nat): (c: char)
    requires d < 16
  {
    if d < 10 then '0' + d as char else 'a' + (d - 10) as char
  }

  function HexDigitValue(c: char): nat
  {
    if '0' <= c <= '9' then c as nat - '0' as nat
    else if 'a' <= c <= 'f' then c as nat - 'a' as nat + 10
    else 0
  }

  lemma HexDigitRoundTrip(d: nat)
    requires d < 16
    ensures HexDigitValue(HexDigit(d)) == d
  {
  }

  /** `f"{x:04x}"`: four lower-case hex digits, most significant first. */
  function Hex4(x: u16): (s: string)
    ensures |s| == 4
  {
    [HexDigit(x / 0x1000), HexDigit((x / 0x100) % 0x10), HexDigit((x / 0x10) % 0x10), HexDigit(x % 0x10)]
  }

  /** The inverse of `Hex4`: the value of four hex digits. */
  function Hex4Value(s: string): nat
    requires |s| == 4
  {
    HexDigitValue(s[0]) * 0x1000 + HexDigitValue(s[1]) * 0x100 + HexDigitValue(s[2]) * 0x10 + HexDigitValue(s[3])
  }

  /** Formatting a checksum loses nothing, so two different checksums never
      produce the same dictionary key. */
  lemma Hex4RoundTrip(x: u16)
    ensures Hex4Value(Hex4(x)) == x
  {
    var a, b, c, d := x / 0x1000, (x / 0x100) % 0x10, (x / 0x10) % 0x10, x % 0x10;
    HexDigitRoundTrip(a);
    HexDigitRoundTrip(b);
    HexDigitRoundTrip(c);
    HexDigitRoundTrip(d);
    assert Hex4Value(Hex4(x)) == a * 0x1000 + b * 0x100 + c * 0x10 + d;
    HexPlaces(x);
  }

  /** A 16-bit value is the sum of its four hex digits at their places. */
  lemma HexPlaces(x: u16)
    ensures x == (x / 0x1000) * 0x1000 + ((x / 0x100) % 0x10) * 0x100 + ((x / 0x10) % 0x10) * 0x10 + x % 0x10
  {
    var x1, x2 := x / 0x10, x / 0x100;
    assert x == x1 * 0x10 + x % 0x10;
    assert x1 == x2 * 0x10 + x1 % 0x10;
    assert x2 == (x / 0x1000) * 0x10 + x2 % 0x10;
  }

  lemma Hex4Injective(x: u16, y: u16)
    ensures Hex4(x) == Hex4(y) ==> x == y
  {
    Hex4RoundTrip(x);
    Hex4RoundTrip(y);
  }

  function DigitChar(d: nat): char
    requires d < 10
  {
    '0' + d as char
  }

  /** `f"{n}"` for a natural number: decimal digits, no leading zero. */
  function Decimal(n: nat): (s: string)
    ensures |s| >= 1
    decreases n
  {
    if n < 10 then [DigitChar(n)] else Decimal(n / 10) + [DigitChar(n % 10)]
  }

  /** The value of a string of decimal digits. */
  function DecimalValue(s: string): int
    decreases |s|
  {
    if s == [] then 0 else DecimalValue(s[..|s| - 1]) * 10 + (s[|s| - 1] as int - '0' as int)
  }

  predicate AllDigits(s: string)
  {
    forall i :: 0 <= i < |s| ==> '0' <= s[i] <= '9'
  }

  /** Formatting a counter loses nothing: the digits read back as the number,
      and only zero is written with a leading '0'. */
  lemma {:induction false} DecimalRoundTrip(n: nat)
    ensures AllDigits(Decimal(n))
    ensures DecimalValue(Decimal(n)) == n
    ensures Decimal(n)[0] == '0' <==> n == 0
    decreases n
  {
    if n >= 10 {
      DecimalRoundTrip(n / 10);
      var s := Decimal(n);
      assert s[..|s| - 1] == Decimal(n / 10);
      assert s[0] == Decimal(n / 10)[0];
    }
  }

  lemma DecimalInjective(m: nat, n: nat)
    ensures Decimal(m) == Decimal(n) ==> m == n
  {
    DecimalRoundTrip(m);
    DecimalRoundTrip(n);
  }

  /** `chr(b).islower()` for a byte value: the Latin-1 characters that are
      lower-case letters, including ª, µ and º, and ÿ. */
  predicate IsLowerByte(b: byte)
  {
    ('a' as int <= b <= 'z' as int) || b == 0xAA || b == 0xB5 || b == 0xBA
    || (0xDF <= b <= 0xF6) || (0xF8 <= b <= 0xFF)
  }
}
