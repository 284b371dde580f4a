/**
 * The parts of java.lang that the token provider relies on: 64-bit `long`
 * arithmetic, `String.valueOf(long)`, `String.split` on a one-character
 * delimiter, `Collectors.joining`, `String.trim` and `String.getBytes(UTF_8)`.
 */
module JavaLang {

  const MinLong: int := -0x8000_0000_0000_0000
  const MaxLong: int := 0x7FFF_FFFF_FFFF_FFFF
  const TwoTo64: int := 0x1_0000_0000_0000_0000

  /** Java's `long`. */
  type Long = x: int | -0x8000_0000_0000_0000 <= x <= 0x7FFF_FFFF_FFFF_FFFF

  type byte = x: int | 0 <= x < 256

  /** Two's-complement wrap-around of a `long` result, as Java's `+` on `long` does. */
  function WrapLong(x: int): (r: Long)
    ensures (r - x) % TwoTo64 == 0
    ensures MinLong <= x <= MaxLong ==> r == x
  {
    var m := x % TwoTo64;
    if m <= MaxLong then m else m - TwoTo64
  }

  /** Java's `a / 1000` on `long`: the quotient truncated toward zero. */
  function DivThousand(a: Long): (q: Long)
    ensures a >= 0 ==> q * 1000 <= a < q * 1000 + 1000
    ensures a < 0 ==> q * 1000 - 1000 < a <= q * 1000
  {
    if a >= 0 then a / 1000 else -((-(a as int)) / 1000)
  }

  // ---------------------------------------------------------------------
  // String.valueOf(long)

  predicate IsDigit(c: char) { '0' <= c <= '9' }

  function DigitChar(d: int): (c: char)
    requires 0 <= d < 10
    ensures IsDigit(c) && c as int - '0' as int == d
  {
    ('0' as int + d) as char
  }

  /** The decimal numeral of `n`, most significant digit first, without leading zeros. */
  function NatToDecimal(n: nat): (s: string)
    ensures |s| >= 1
    ensures forall i | 0 <= i < |s| :: IsDigit(s[i])
  {
    if n < 10 then [DigitChar(n)] else NatToDecimal(n / 10) + [DigitChar(n % 10)]
  }

  /** `String.valueOf(long)`: a leading minus sign for negative values. */
  function LongToString(n: int): (s: string)
    ensures |s| >= 1
    ensures s[0] == '-' <==> n < 0
  {
    if n < 0 then "-" + NatToDecimal(-n) else NatToDecimal(n)
  }

  /** The value of a string of decimal digits (the inverse reading of NatToDecimal). */
  function DecimalValue(s: string): nat
    requires forall i | 0 <= i < |s| :: IsDigit(s[i])
  {
    if s == [] then 0
    else DecimalValue(s[..|s| - 1]) * 10 + DigitValue(s[|s| - 1])
  }

  function DigitValue(c: char): (d: nat)
    requires IsDigit(c)
    ensures d < 10
  {
    c as int - '0' as int
  }

  lemma {:induction false} DecimalRoundTrip(n: nat)
    ensures DecimalValue(NatToDecimal(n)) == n
  {
    if n >= 10 {
      var s := NatToDecimal(n / 10);
      var t := s + [DigitChar(n % 10)];
      assert t[..|t| - 1] == s;
      DecimalRoundTrip(n / 10);
    }
  }

  /** Distinct user ids give distinct subject and userId strings. */
  lemma LongToStringInjective(a: int, b: int)
    ensures LongToString(a) == LongToString(b) <==> a == b
  {
    if LongToString(a) == LongToString(b) {
      if a < 0 {
        assert b < 0;
        assert NatToDecimal(-a) == LongToString(a)[1..] == LongToString(b)[1..] == NatToDecimal(-b);
        DecimalRoundTrip(-a);
        DecimalRoundTrip(-b);
      } else {
        assert b >= 0;
        DecimalRoundTrip(a);
        DecimalRoundTrip(b);
      }
    }
  }

  // ---------------------------------------------------------------------
  // Collectors.joining and String.split

  /** The number of characters in all the parts together. */
  function TotalLength(parts: seq<string>): nat
  {
    if parts == [] then 0 else |parts[0]| + TotalLength(parts[1..])
  }

  /**
   * `Collectors.joining(sep)`: the parts with `sep` between neighbours, so
   * one separator fewer than there are parts.
   */
  function Join(parts: seq<string>, sep: char): (s: string)
    ensures |parts| >= 1 ==> |s| == TotalLength(parts) + |parts| - 1
  {
    if |parts| == 0 then ""
    else if |parts| == 1 then parts[0]
    else parts[0] + [sep] + Join(parts[1..], sep)
  }

  /**
   * A join starts with the first part, followed by the separator when there
   * is a second part, and ends with the last part; no parts join to "".
   */
  lemma {:induction false} JoinEnds(parts: seq<string>, sep: char)
    ensures |parts| == 0 ==> Join(parts, sep) == ""
    ensures |parts| >= 1 ==> parts[0] <= Join(parts, sep)
    ensures |parts| >= 2 ==> |parts[0]| < |Join(parts, sep)| && Join(parts, sep)[|parts[0]|] == sep
    ensures |parts| >= 1 ==> var j, l := Join(parts, sep), parts[|parts| - 1];
                             |l| <= |j| && j[|j| - |l|..] == l
  {
    if |parts| >= 2 {
      var rest := Join(parts[1..], sep);
      JoinEnds(parts[1..], sep);
      var j := parts[0] + [sep] + rest;
      assert Join(parts, sep) == j;
      var l := parts[|parts| - 1];
      assert parts[1..][|parts[1..]| - 1] == l;
      assert |l| <= |rest| && rest[|rest| - |l|..] == l;
      assert j[|j| - |l|..] == rest[|rest| - |l|..];
    }
  }

  /**
   * Every piece between delimiters, empty ones included; there is always one
   * more piece than there are delimiters.
   */
  function SplitAll(s: string, sep: char): (pieces: seq<string>)
    ensures |pieces| >= 1
    ensures forall i | 0 <= i < |pieces| :: sep !in pieces[i]
  {
    if s == [] then [""]
    else if s[0] == sep then [""] + SplitAll(s[1..], sep)
    else
      var rest := SplitAll(s[1..], sep);
      [[s[0]] + rest[0]] + rest[1..]
  }

  /** Java's `split` with limit 0 drops every trailing empty string. */
  function DropTrailingEmpty(pieces: seq<string>): (r: seq<string>)
    ensures |r| <= |pieces| && r == pieces[..|r|]
    ensures r == [] || r[|r| - 1] != ""
    ensures forall i | |r| <= i < |pieces| :: pieces[i] == ""
  {
    if pieces == [] then []
    else if pieces[|pieces| - 1] == "" then DropTrailingEmpty(pieces[..|pieces| - 1])
    else pieces
  }

  /**
   * `s.split(String.valueOf(sep))` for a delimiter that is not a regular
   * expression metacharacter: a string without the delimiter comes back as
   * the only element, otherwise the pieces without the trailing empty ones.
   */
  function Split(s: string, sep: char): (r: seq<string>)
    ensures forall i | 0 <= i < |r| :: sep !in r[i]
    ensures sep !in s ==> r == [s]
  {
    if sep !in s then [s] else DropTrailingEmpty(SplitAll(s, sep))
  }

  lemma {:induction false} SplitAllNoSep(a: string, sep: char)
    requires sep !in a
    ensures SplitAll(a, sep) == [a]
  {
    if a != [] {
      SplitAllNoSep(a[1..], sep);
      assert [a[0]] + a[1..] == a;
    }
  }

  lemma {:induction false} SplitAllFirst(a: string, sep: char, b: string)
    requires sep !in a
    ensures SplitAll(a + [sep] + b, sep) == [a] + SplitAll(b, sep)
  {
    if a == [] {
      assert a + [sep] + b == [sep] + b;
      assert ([sep] + b)[1..] == b;
    } else {
      assert (a + [sep] + b)[1..] == a[1..] + [sep] + b;
      SplitAllFirst(a[1..], sep, b);
      assert [a[0]] + a[1..] == a;
    }
  }

  /** A single trailing delimiter after a non-empty piece is dropped by `split`. */
  lemma SplitDropsTrailingSep(a: string, sep: char)
    requires a != [] && sep !in a
    ensures Split(a + [sep], sep) == [a]
  {
    SplitAllFirst(a, sep, "");
    assert a + [sep] + "" == a + [sep];
    assert (a + [sep])[|a|] == sep;
    assert SplitAll(a + [sep], sep) == [a, ""];
    assert [a, ""][..1] == [a];
    assert DropTrailingEmpty([a, ""]) == DropTrailingEmpty([a]) == [a];
  }

  /** A leading delimiter before a non-empty piece gives an empty first piece. */
  lemma SplitKeepsLeadingEmpty(a: string, sep: char)
    requires a != [] && sep !in a
    ensures Split([sep] + a, sep) == ["", a]
  {
    SplitAllFirst("", sep, a);
    SplitAllNoSep(a, sep);
    assert "" + [sep] + a == [sep] + a;
    assert ([sep] + a)[0] == sep;
  }

  /** Splitting a join of delimiter-free parts gives the parts back. */
  lemma {:induction false} SplitAllJoin(parts: seq<string>, sep: char)
    requires |parts| >= 1
    requires forall i | 0 <= i < |parts| :: sep !in parts[i]
    ensures SplitAll(Join(parts, sep), sep) == parts
  {
    if |parts| == 1 {
      SplitAllNoSep(parts[0], sep);
    } else {
      SplitAllJoin(parts[1..], sep);
      SplitAllFirst(parts[0], sep, Join(parts[1..], sep));
    }
  }

  /** Joining the pieces of a split puts the string back together. */
  lemma {:induction false} JoinSplitAll(s: string, sep: char)
    ensures Join(SplitAll(s, sep), sep) == s
  {
    if s != [] {
      JoinSplitAll(s[1..], sep);
      var rest := SplitAll(s[1..], sep);
      if s[0] != sep {
        if |rest| == 1 {
          assert Join(rest, sep) == rest[0];
        } else {
          assert Join(rest, sep) == rest[0] + [sep] + Join(rest[1..], sep);
        }
      }
    }
  }

  lemma {:induction false} JoinContainsSep(parts: seq<string>, sep: char)
    requires forall i | 0 <= i < |parts| :: sep !in parts[i]
    ensures sep in Join(parts, sep) <==> |parts| >= 2
  {
    if |parts| >= 2 {
      var j := parts[0] + [sep] + Join(parts[1..], sep);
      assert j[|parts[0]|] == sep;
    }
  }

  /** A trailing empty part is lost: the split of the join has fewer pieces than there were parts. */
  lemma SplitJoinDropsTrailing(parts: seq<string>, sep: char)
    requires |parts| >= 2 && parts[|parts| - 1] == ""
    requires forall i | 0 <= i < |parts| :: sep !in parts[i]
    ensures |Split(Join(parts, sep), sep)| < |parts|
  {
    JoinContainsSep(parts, sep);
    SplitAllJoin(parts, sep);
  }

  /**
   * The round trip through `Collectors.joining` and `split`: delimiter-free
   * parts come back exactly when there is one part or the last part is not
   * empty (Java drops trailing empty pieces).
   */
  lemma SplitJoin(parts: seq<string>, sep: char)
    requires |parts| >= 1
    requires forall i | 0 <= i < |parts| :: sep !in parts[i]
    ensures Split(Join(parts, sep), sep) == parts <==> |parts| == 1 || parts[|parts| - 1] != ""
  {
    JoinContainsSep(parts, sep);
    if |parts| >= 2 {
      SplitAllJoin(parts, sep);
    }
  }

  // ---------------------------------------------------------------------
  // String.trim

  /** `String.trim` removes every leading and trailing character up to U+0020. */
  predicate IsTrimmable(c: char) { c <= ' ' }

  function TrimStart(s: string): (r: string)
    ensures |r| <= |s| && r == s[|s| - |r|..]
    ensures forall i | 0 <= i < |s| - |r| :: IsTrimmable(s[i])
    ensures r == [] || !IsTrimmable(r[0])
  {
    if s != [] && IsTrimmable(s[0]) then TrimStart(s[1..]) else s
  }

  function TrimEnd(s: string): (r: string)
    ensures |r| <= |s| && r == s[..|r|]
    ensures forall i | |r| <= i < |s| :: IsTrimmable(s[i])
    ensures r == [] || !IsTrimmable(r[|r| - 1])
  {
    if s != [] && IsTrimmable(s[|s| - 1]) then TrimEnd(s[..|s| - 1]) else s
  }

  /** `String.trim`: no trimmable character is left at either edge. */
  function Trim(s: string): (r: string)
    ensures r == [] || (!IsTrimmable(r[0]) && !IsTrimmable(r[|r| - 1]))
  {
    TrimEnd(TrimStart(s))
  }

  /**
   * `String.trim` keeps the infix `s[k..m]`, where `k` counts the leading
   * trimmable characters, and removes only trimmable characters before and
   * after it.
   */
  lemma TrimIsInfix(s: string)
    ensures var k, m := |s| - |TrimStart(s)|, |s| - |TrimStart(s)| + |Trim(s)|;
            && m <= |s|
            && Trim(s) == s[k..m]
            && (forall i | 0 <= i < k :: IsTrimmable(s[i]))
            && (forall i | m <= i < |s| :: IsTrimmable(s[i]))
  {
    var t := TrimStart(s);
    var r := TrimEnd(t);
    assert Trim(s) == r;
    InfixOfSuffix(s, t, r);
  }

  /** A trimmable tail of a suffix is a trimmable tail of the whole string. */
  lemma InfixOfSuffix(s: string, t: string, r: string)
    requires |t| <= |s| && t == s[|s| - |t|..]
    requires |r| <= |t| && r == t[..|r|]
    requires forall j | |r| <= j < |t| :: IsTrimmable(t[j])
    ensures r == s[|s| - |t|..|s| - |t| + |r|]
    ensures forall i | |s| - |t| + |r| <= i < |s| :: IsTrimmable(s[i])
  {
    var k := |s| - |t|;
    forall i | k + |r| <= i < |s|
      ensures IsTrimmable(s[i])
    {
      assert s[i] == t[i - k];
    }
  }

  /** A string is its own trim exactly when it has no edge whitespace. */
  lemma TrimFixpoint(s: string)
    ensures Trim(s) == s <==> s == [] || (!IsTrimmable(s[0]) && !IsTrimmable(s[|s| - 1]))
  {
    if s != [] && !IsTrimmable(s[0]) && !IsTrimmable(s[|s| - 1]) {
      assert TrimStart(s) == s;
    }
  }

  /**
   * `Character.isWhitespace`: the Unicode space, line and paragraph
   * separators except the no-break spaces U+00A0, U+2007 and U+202F, plus
   * U+0009-U+000D and U+001C-U+001F.
   */
  predicate IsJavaWhitespace(c: char)
    ensures IsJavaWhitespace(c) ==> c as int != 0xA0 && c as int != 0x2007 && c as int != 0x202F
    ensures IsJavaWhitespace(c) && c as int < 0x80 ==> IsTrimmable(c)
  {
    var x := c as int;
    || (0x09 <= x <= 0x0D) || (0x1C <= x <= 0x20) || x == 0x1680
    || (0x2000 <= x <= 0x2006) || (0x2008 <= x <= 0x200A)
    || x == 0x2028 || x == 0x2029 || x == 0x205F || x == 0x3000
  }

  // ---------------------------------------------------------------------
  // String.getBytes(StandardCharsets.UTF_8)

  /** The UTF-8 encoding of one Unicode scalar value. */
  function Utf8Char(c: char): (b: seq<byte>)
    ensures 1 <= |b| <= 4
    ensures |b| == 1 <==> c as int < 0x80
  {
    var cp := c as int;
    if cp < 0x80 then [cp]
    else if cp < 0x800 then [0xC0 + cp / 0x40, 0x80 + cp % 0x40]
    else if cp < 0x1_0000 then [0xE0 + cp / 0x1000, 0x80 + (cp / 0x40) % 0x40, 0x80 + cp % 0x40]
    else [0xF0 + cp / 0x4_0000, 0x80 + (cp / 0x1000) % 0x40, 0x80 + (cp / 0x40) % 0x40, 0x80 + cp % 0x40]
  }

  function Utf8Encode(s: string): (b: seq<byte>)
    ensures |s| <= |b| <= 4 * |s|
  {
    if s == [] then [] else Utf8Char(s[0]) + Utf8Encode(s[1..])
  }

  predicate IsAscii(s: string) { forall i | 0 <= i < |s| :: s[i] as int < 0x80 }

  /** An ASCII string has exactly one byte per character. */
  lemma {:induction false} AsciiUtf8Length(s: string)
    ensures |Utf8Encode(s)| == |s| <==> IsAscii(s)
  {
    if s != [] {
      AsciiUtf8Length(s[1..]);
      assert IsAscii(s) <==> s[0] as int < 0x80 && IsAscii(s[1..]);
    }
  }
}
