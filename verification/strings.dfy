/**
 The JavaScript string primitives the pages rely on, restricted to what they
 use: `toLowerCase`/`toUpperCase` (ASCII letters only), `includes`, `trim`,
 `split(',')`, `join`, `parseInt` and the decimal `toString` of an integer.
 */
module Strings {

  import opened Common

  // ---------------------------------------------------------------------------
  // Case mapping (ASCII)
  // ---------------------------------------------------------------------------

  predicate IsAsciiUpper(c: char) { 'A' <= c <= 'Z' }

  predicate IsAsciiLower(c: char) { 'a' <= c <= 'z' }

  function LowerChar(c: char): (d: char)
    ensures !IsAsciiUpper(d)
    ensures !IsAsciiUpper(c) ==> d == c
    ensures IsAsciiUpper(c) ==> IsAsciiLower(d) && d as int - c as int == 32
  {
    if IsAsciiUpper(c) then (c as int + 32) as char else c
  }

  function UpperChar(c: char): (d: char)
    ensures !IsAsciiLower(d)
    ensures !IsAsciiLower(c) ==> d == c
    ensures IsAsciiLower(c) ==> IsAsciiUpper(d) && c as int - d as int == 32
  {
    if IsAsciiLower(c) then (c as int - 32) as char else c
  }

  /** `s.toLowerCase()` for ASCII letters; every other character is kept. */
  function Lower(s: string): (r: string)
    ensures |r| == |s|
    ensures forall i :: 0 <= i < |s| ==> r[i] == LowerChar(s[i])
  {
    if |s| == 0 then "" else [LowerChar(s[0])] + Lower(s[1..])
  }

  predicate HasNoUpper(s: string) {
    forall i :: 0 <= i < |s| ==> !IsAsciiUpper(s[i])
  }

  /** Lowering is idempotent, and is the identity on text without capitals. */
  lemma LowerIdempotent(s: string)
    ensures HasNoUpper(Lower(s))
    ensures Lower(Lower(s)) == Lower(s)
    ensures HasNoUpper(s) ==> Lower(s) == s
  {
  }

  /** `charAt(0).toUpperCase() + slice(1)`. */
  function Capitalize(s: string): (r: string)
    ensures |r| == |s|
    ensures |s| > 0 ==> r[0] == UpperChar(s[0]) && r[1..] == s[1..]
  {
    if |s| == 0 then "" else [UpperChar(s[0])] + s[1..]
  }

  /** Capitalising a lower-case word and lowering it again gives the word back. */
  lemma CapitalizeLowerRoundTrip(s: string)
    requires forall i :: 0 <= i < |s| ==> IsAsciiLower(s[i])
    ensures Lower(Capitalize(s)) == s
  {
    var c := Capitalize(s);
    forall i | 0 <= i < |s|
      ensures Lower(c)[i] == s[i]
    {
    }
  }

  // ---------------------------------------------------------------------------
  // Substrings
  // ---------------------------------------------------------------------------

  /** `needle` occurs in `hay` starting at index `i`. */
  predicate OccursAt(hay: string, needle: string, i: int) {
    0 <= i && i + |needle| <= |hay| && hay[i..i + |needle|] == needle
  }

  /** `hay.includes(needle)`. */
  function Contains(hay: string, needle: string): (r: bool)
    ensures r <==> exists i :: OccursAt(hay, needle, i)
    decreases |hay|
  {
    if |needle| > |hay| then false
    else if hay[..|needle|] == needle then
      assert OccursAt(hay, needle, 0);
      true
    else
      var r := Contains(hay[1..], needle);
      assert forall i :: OccursAt(hay[1..], needle, i) <==> OccursAt(hay, needle, i + 1) by {
        forall i ensures OccursAt(hay[1..], needle, i) <==> OccursAt(hay, needle, i + 1) {
          if 0 <= i && i + |needle| <= |hay[1..]| {
            assert hay[1..][i..i + |needle|] == hay[i + 1..i + 1 + |needle|];
          }
        }
      }
      assert !OccursAt(hay, needle, 0);
      assert (exists i :: OccursAt(hay, needle, i)) ==> exists i :: OccursAt(hay[1..], needle, i) by {
        if exists i :: OccursAt(hay, needle, i) {
          var i :| OccursAt(hay, needle, i);
          assert i != 0;
          assert OccursAt(hay[1..], needle, i - 1);
        }
      }
      r
  }

  /** The empty string occurs in every string. */
  lemma ContainsEmpty(hay: string)
    ensures Contains(hay, "")
  {
    assert OccursAt(hay, "", 0);
  }

  /** `hay.toLowerCase().includes(query.toLowerCase())`. */
  predicate ContainsCI(hay: string, query: string) {
    Contains(Lower(hay), Lower(query))
  }

  /** A case-insensitive match ignores the capitalisation of both sides. */
  lemma ContainsCIIgnoresCase(hay: string, query: string)
    ensures ContainsCI(Lower(hay), Lower(query)) == ContainsCI(hay, query)
    ensures ContainsCI(hay, "")
  {
    LowerIdempotent(hay);
    LowerIdempotent(query);
    ContainsEmpty(Lower(hay));
  }

  // ---------------------------------------------------------------------------
  // Whitespace and trim (ECMAScript WhiteSpace and LineTerminator code points)
  // ---------------------------------------------------------------------------

  predicate IsSpace(c: char) {
    || c == '\t' || c == '\n' || c == '\U{000B}' || c == '\U{000C}' || c == '\r'
    || c == ' ' || c == '\U{00A0}' || c == '\U{1680}'
    || ('\U{2000}' <= c <= '\U{200A}')
    || c == '\U{2028}' || c == '\U{2029}' || c == '\U{202F}' || c == '\U{205F}'
    || c == '\U{3000}' || c == '\U{FEFF}'
  }

  /** No whitespace at either end. */
  predicate IsTrimmed(s: string) {
    |s| == 0 || (!IsSpace(s[0]) && !IsSpace(s[|s| - 1]))
  }

  /** Drops the leading whitespace: the result is the suffix after it. */
  function TrimStart(s: string): (r: string)
    ensures |r| <= |s| && r == s[|s| - |r|..]
    ensures forall k :: 0 <= k < |s| - |r| ==> IsSpace(s[k])
    ensures |r| > 0 ==> !IsSpace(r[0])
  {
    if |s| > 0 && IsSpace(s[0]) then
      var r := TrimStart(s[1..]);
      assert forall k :: 1 <= k < |s| ==> s[k] == s[1..][k - 1];
      r
    else s
  }

  /** Drops the trailing whitespace: the result is the prefix before it. */
  function TrimEnd(s: string): (r: string)
    ensures |r| <= |s| && r == s[..|r|]
    ensures forall k :: |r| <= k < |s| ==> IsSpace(s[k])
    ensures |r| > 0 ==> !IsSpace(r[|r| - 1])
  {
    if |s| > 0 && IsSpace(s[|s| - 1]) then TrimEnd(s[..|s| - 1]) else s
  }

  /** How many leading whitespace characters `TrimStart` drops from `s`. */
  function LeadingSpace(s: string): (n: nat)
    ensures n <= |s|
  {
    |s| - |TrimStart(s)|
  }

  /**
   `s.trim()`: the slice of `s` left after dropping the leading whitespace
   (the first `LeadingSpace(s)` characters) and the trailing whitespace.
   */
  function Trim(s: string): (r: string)
    ensures IsTrimmed(r)
    ensures |r| <= |s|
    ensures LeadingSpace(s) + |r| <= |s| && r == s[LeadingSpace(s)..LeadingSpace(s) + |r|]
    ensures forall k :: 0 <= k < LeadingSpace(s) ==> IsSpace(s[k])
    ensures forall k :: LeadingSpace(s) + |r| <= k < |s| ==> IsSpace(s[k])
  {
    var t := TrimStart(s);
    var r := TrimEnd(t);
    PrefixOfSuffix(s, t, r, |s| - |t|);
    TrimmedEnds(t, r);
    r
  }

  /** A prefix of `t` that does not end in whitespace, cut from a `t` that does not start with it, is trimmed. */
  lemma TrimmedEnds(t: string, r: string)
    requires |r| <= |t| && r == t[..|r|]
    requires |t| > 0 ==> !IsSpace(t[0])
    requires |r| > 0 ==> !IsSpace(r[|r| - 1])
    ensures IsTrimmed(r)
  {
    if |r| > 0 {
      assert r[0] == t[0];
    }
  }

  /** A prefix `r` of the suffix `t == s[i..]`, followed in `t` only by whitespace, is a slice of `s` followed only by whitespace. */
  lemma PrefixOfSuffix(s: string, t: string, r: string, i: nat)
    requires i <= |s| && t == s[i..] && |r| <= |t| && r == t[..|r|]
    requires forall k :: |r| <= k < |t| ==> IsSpace(t[k])
    ensures i + |r| <= |s| && r == s[i..i + |r|]
    ensures forall k :: i + |r| <= k < |s| ==> IsSpace(s[k])
  {
    forall k | i + |r| <= k < |s|
      ensures IsSpace(s[k])
    {
      assert s[k] == t[k - i];
    }
  }

  /** Trim only removes characters: one absent from `s` is absent from `Trim(s)`. */
  lemma TrimKeepsAbsence(s: string, c: char)
    requires c !in s
    ensures c !in Trim(s)
  {
    var t := TrimStart(s);
    var r := TrimEnd(t);
    assert t == s[|s| - |t|..];
    assert r == t[..|r|];
    forall k | 0 <= k < |r|
      ensures r[k] != c
    {
      assert r[k] == s[|s| - |t| + k];
    }
  }

  /** Trimming text with no whitespace at its ends changes nothing. */
  lemma TrimOfTrimmed(s: string)
    requires IsTrimmed(s)
    ensures Trim(s) == s
  {
  }

  /** Leading whitespace in front of a trimmed string is all that trim removes. */
  lemma TrimLeadingSpace(s: string)
    requires IsTrimmed(s) && |s| > 0
    ensures Trim(" " + s) == s
  {
    assert (" " + s)[1..] == s;
  }

  // ---------------------------------------------------------------------------
  // split / join
  // ---------------------------------------------------------------------------

  /** Position of the first occurrence of `c` in `s`. */
  function IndexOf(s: string, c: char): (i: nat)
    requires c in s
    ensures i < |s| && s[i] == c && c !in s[..i]
  {
    if s[0] == c then 0 else 1 + IndexOf(s[1..], c)
  }

  /** `xs.join(sep)`. */
  function Join(xs: seq<string>, sep: string): (r: string)
    ensures |xs| == 0 ==> r == ""
    ensures |xs| == 1 ==> r == xs[0]
  {
    if |xs| == 0 then ""
    else if |xs| == 1 then xs[0]
    else xs[0] + sep + Join(xs[1..], sep)
  }

  /** `s.split(sep)`: the pieces between separators; joining them back gives `s`. */
  function Split(s: string, sep: char): (r: seq<string>)
    ensures |r| >= 1
    ensures forall k :: 0 <= k < |r| ==> sep !in r[k]
    ensures Join(r, [sep]) == s
    decreases |s|
  {
    if sep !in s then [s]
    else
      var i := IndexOf(s, sep);
      var rest := Split(s[i + 1..], sep);
      var r := [s[..i]] + rest;
      assert r[1..] == rest;
      assert s == s[..i] + [sep] + s[i + 1..];
      r
  }

  /** Splitting on a separator that follows a separator-free head peels off that head. */
  lemma SplitCons(a: string, sep: char, b: string)
    requires sep !in a
    ensures Split(a + [sep] + b, sep) == [a] + Split(b, sep)
  {
    var s := a + [sep] + b;
    assert s[|a|] == sep;
    var i := IndexOf(s, sep);
    assert s[..|a|] == a;
    assert i == |a|;
    assert s[i + 1..] == b;
  }

  /** Joining separator-free pieces and splitting again recovers them exactly. */
  lemma {:induction false} SplitJoin(xs: seq<string>, sep: char)
    requires |xs| >= 1
    requires forall k :: 0 <= k < |xs| ==> sep !in xs[k]
    ensures Split(Join(xs, [sep]), sep) == xs
  {
    if |xs| > 1 {
      SplitJoin(xs[1..], sep);
      SplitCons(xs[0], sep, Join(xs[1..], [sep]));
      assert xs == [xs[0]] + xs[1..];
    }
  }

  // ---------------------------------------------------------------------------
  // Integers: parseInt and toString
  // ---------------------------------------------------------------------------

  /** The value of `c` as a digit in base `radix` (10 or 16), if it is one. */
  function DigitValue(c: char, radix: nat): (d: Option<nat>)
    requires radix == 10 || radix == 16
    ensures d.Some? ==> d.value < radix
  {
    if '0' <= c <= '9' then Some(c as int - '0' as int)
    else if radix == 16 && 'a' <= c <= 'f' then Some(c as int - 'a' as int + 10)
    else if radix == 16 && 'A' <= c <= 'F' then Some(c as int - 'A' as int + 10)
    else None
  }

  /** Length of the longest prefix of `s` made of base-`radix` digits. */
  function DigitPrefixLength(s: string, radix: nat): (n: nat)
    requires radix == 10 || radix == 16
    ensures n <= |s|
    ensures forall k :: 0 <= k < n ==> DigitValue(s[k], radix).Some?
    ensures n < |s| ==> DigitValue(s[n], radix).None?
  {
    if |s| == 0 || DigitValue(s[0], radix).None? then 0
    else 1 + DigitPrefixLength(s[1..], radix)
  }

  /** The number written by the digit string `ds` in base `radix`. */
  function DigitsValue(ds: string, radix: nat): nat
    requires radix == 10 || radix == 16
    requires forall k :: 0 <= k < |ds| ==> DigitValue(ds[k], radix).Some?
  {
    if |ds| == 0 then 0
    else DigitsValue(ds[..|ds| - 1], radix) * radix + DigitValue(ds[|ds| - 1], radix).value
  }

  /** The longest run of base-`radix` digits at the front of `body`, read as a number; `None` when there is none. */
  function ParseDigits(body: string, radix: nat): Option<nat>
    requires radix == 10 || radix == 16
  {
    var n := DigitPrefixLength(body, radix);
    if n == 0 then None else Some(DigitsValue(body[..n], radix))
  }

  predicate HexPrefixed(u: string) {
    |u| >= 2 && u[0] == '0' && (u[1] == 'x' || u[1] == 'X')
  }

  /**
   The unsigned part of `parseInt`: a `0x`/`0X` prefix selects base 16, then
   the longest run of digits is read. `None` stands for `NaN` (no digit).
   */
  function ParseUnsigned(u: string): Option<nat> {
    if HexPrefixed(u) then ParseDigits(u[2..], 16) else ParseDigits(u, 10)
  }

  /**
   `parseInt(s)` with no radix argument, following the ECMAScript algorithm:
   skip leading whitespace, read an optional sign, then the unsigned part.
   A negative zero is reported as 0.
   */
  function ParseInt(s: string): (r: Option<int>)
    ensures |TrimStart(s)| == 0 ==> r.None?
    ensures r.Some? && r.value < 0 ==> TrimStart(s)[0] == '-'
  {
    ParseSigned(TrimStart(s))
  }

  /** Reads an optional sign and then the unsigned part of text without leading whitespace. */
  function ParseSigned(t: string): Option<int> {
    var negative := |t| > 0 && t[0] == '-';
    var u := if |t| > 0 && (t[0] == '-' || t[0] == '+') then t[1..] else t;
    match ParseUnsigned(u)
    case None => None
    case Some(m) => Some(if negative then 0 - m else m)
  }

  /** `parseInt` yields a number only when the text holds a decimal digit. */
  lemma ParseIntNeedsDigit(s: string)
    requires ParseInt(s).Some?
    ensures exists k :: 0 <= k < |s| && DigitValue(s[k], 10).Some?
  {
    var t := TrimStart(s);
    var u := if |t| > 0 && (t[0] == '-' || t[0] == '+') then t[1..] else t;
    assert ParseUnsigned(u).Some?;
    assert |u| > 0 && DigitValue(u[0], 10).Some? by {
      if !(|u| >= 2 && u[0] == '0' && (u[1] == 'x' || u[1] == 'X')) {
        assert DigitPrefixLength(u, 10) > 0;
      }
    }
    var k := |s| - |u|;
    assert t == s[|s| - |t|..];
    assert u == s[k..];
    assert u[0] == s[k];
    assert 0 <= k < |s| && DigitValue(s[k], 10).Some?;
  }

  function DigitChar(d: nat): (c: char)
    requires d < 10
    ensures DigitValue(c, 10) == Some(d)
  {
    ('0' as int + d) as char
  }

  /** The decimal digits of `n`, most significant first, without leading zeros. */
  function NatToString(n: nat): (s: string)
    ensures |s| >= 1
    ensures forall k :: 0 <= k < |s| ==> DigitValue(s[k], 10).Some?
    ensures |s| > 1 ==> s[0] != '0'
  {
    if n < 10 then [DigitChar(n)]
    else NatToString(n / 10) + [DigitChar(n % 10)]
  }

  /** `n.toString()` for an integer-valued number. */
  function IntToString(n: int): string {
    if n < 0 then "-" + NatToString(-n) else NatToString(n)
  }

  lemma {:induction false} DigitsValueOfNatToString(n: nat)
    ensures DigitsValue(NatToString(n), 10) == n
  {
    var s := NatToString(n);
    if n >= 10 {
      DigitsValueOfNatToString(n / 10);
      assert s[..|s| - 1] == NatToString(n / 10);
    }
  }

  /** A decimal numeral written without leading zeros reads back as its value. */
  lemma ParseUnsignedDecimal(n: nat)
    ensures ParseUnsigned(NatToString(n)) == Some(n)
  {
    var s := NatToString(n);
    // A second character is a digit, so there is no hexadecimal prefix.
    assert |s| >= 2 ==> DigitValue(s[1], 10).Some?;
    assert DigitPrefixLength(s, 10) == |s|;
    assert s[..|s|] == s;
    DigitsValueOfNatToString(n);
  }

  /** Text that starts with a non-space character is left alone by `TrimStart`. */
  lemma TrimStartKeeps(s: string)
    requires |s| > 0 && !IsSpace(s[0])
    ensures TrimStart(s) == s
  {
  }

  /** `parseInt` of a numeral with an optional leading minus sign. */
  lemma ParseSignedNumeral(s: string, m: nat)
    requires |s| > 0 && !IsSpace(s[0]) && s[0] != '+'
    requires s[0] == '-' ==> ParseUnsigned(s[1..]) == Some(m)
    requires s[0] != '-' ==> ParseUnsigned(s) == Some(m)
    ensures ParseInt(s) == Some(if s[0] == '-' then 0 - m else m)
  {
    TrimStartKeeps(s);
  }

  lemma ParseNegativeNumeral(m: nat)
    ensures ParseInt("-" + NatToString(m)) == Some(0 - m)
  {
    var d := NatToString(m);
    var s := "-" + d;
    assert s[0] == '-' && s[1..] == d;
    ParseUnsignedDecimal(m);
    ParseSignedNumeral(s, m);
  }

  /** `parseInt(String(n)) === n` for every integer. */
  lemma ParseIntToString(n: int)
    ensures ParseInt(IntToString(n)) == Some(n)
  {
    var s := IntToString(n);
    if n < 0 {
      var m: nat := -n;
      assert s == "-" + NatToString(m);
      ParseNegativeNumeral(m);
    } else {
      var d := NatToString(n);
      assert s == d;
      assert DigitValue(s[0], 10).Some?;
      ParseUnsignedDecimal(n);
      ParseSignedNumeral(s, n);
    }
  }

  // ---------------------------------------------------------------------------
  // What `parseInt` reads
  // ---------------------------------------------------------------------------

  /** Leading whitespace in front of text that does not start with it is exactly what `TrimStart` drops. */
  lemma {:induction false} TrimStartPastSpace(ws: string, x: string)
    requires forall k :: 0 <= k < |ws| ==> IsSpace(ws[k])
    requires |x| == 0 || !IsSpace(x[0])
    ensures TrimStart(ws + x) == x
    decreases |ws|
  {
    if |ws| > 0 {
      assert (ws + x)[1..] == ws[1..] + x;
      TrimStartPastSpace(ws[1..], x);
    } else {
      assert ws + x == x;
    }
  }

  /** A run of digits followed by a non-digit: the run is the whole digit prefix. */
  lemma {:induction false} DigitRun(d: string, rest: string, radix: nat)
    requires radix == 10 || radix == 16
    requires forall k :: 0 <= k < |d| ==> DigitValue(d[k], radix).Some?
    requires |rest| > 0 ==> DigitValue(rest[0], radix).None?
    ensures DigitPrefixLength(d + rest, radix) == |d|
    ensures (d + rest)[..|d|] == d
    decreases |d|
  {
    if |d| > 0 {
      assert (d + rest)[1..] == d[1..] + rest;
      DigitRun(d[1..], rest, radix);
    } else {
      assert d + rest == rest;
    }
  }

  /** A run of digits followed by a non-digit reads as the run's value. */
  lemma ParseDigitsRun(d: string, rest: string, radix: nat)
    requires radix == 10 || radix == 16
    requires |d| > 0 && forall k :: 0 <= k < |d| ==> DigitValue(d[k], radix).Some?
    requires |rest| > 0 ==> DigitValue(rest[0], radix).None?
    ensures ParseDigits(d + rest, radix) == Some(DigitsValue(d, radix))
  {
    DigitRun(d, rest, radix);
  }

  lemma ConcatRegroup(w: string, a: string, b: string, c: string)
    ensures w + a + b + c == w + (a + b + c)
    ensures w + a + b == w + (a + b)
  {
  }

  /** The sign `parseInt` accepts in front of the digits: none, `+` or `-`. */
  predicate IsSign(sign: string) {
    |sign| == 0 || (|sign| == 1 && (sign[0] == '+' || sign[0] == '-'))
  }

  function Signed(sign: string, m: nat): int {
    if |sign| == 1 && sign[0] == '-' then 0 - m else m
  }

  /** The sign applied to what the unsigned part yields. */
  function SignAll(sign: string, p: Option<nat>): Option<int> {
    match p
    case None => None
    case Some(m) => Some(Signed(sign, m))
  }

  /** After the sign, `parseInt` reads the unsigned part of what follows. */
  lemma ParseSignedSplit(sign: string, u: string)
    requires IsSign(sign)
    requires |u| == 0 || (u[0] != '+' && u[0] != '-')
    ensures ParseSigned(sign + u) == SignAll(sign, ParseUnsigned(u))
  {
    var t := sign + u;
    if |sign| == 1 {
      assert t[0] == sign[0] && t[1..] == u;
    } else {
      assert t == u;
    }
  }

  /** After whitespace and a sign, `parseInt` reads the unsigned part of what follows. */
  lemma ParseIntAfterSign(ws: string, sign: string, u: string)
    requires forall k :: 0 <= k < |ws| ==> IsSpace(ws[k])
    requires IsSign(sign)
    requires |u| == 0 || (!IsSpace(u[0]) && u[0] != '+' && u[0] != '-')
    ensures ParseInt(ws + sign + u) == SignAll(sign, ParseUnsigned(u))
  {
    var t := sign + u;
    assert ws + sign + u == ws + t;
    assert |t| == 0 || !IsSpace(t[0]) by {
      if |sign| == 1 {
        assert t[0] == sign[0];
      } else {
        assert t == u;
      }
    }
    TrimStartPastSpace(ws, t);
    ParseSignedSplit(sign, u);
  }

  /** Decimal digits, then no decimal digit, and no `0x` prefix: the unsigned part is the digits' value. */
  lemma ParseUnsignedDecimalRun(d: string, rest: string)
    requires |d| > 0 && forall k :: 0 <= k < |d| ==> DigitValue(d[k], 10).Some?
    requires |rest| > 0 ==> DigitValue(rest[0], 10).None?
    requires !HexPrefixed(d + rest)
    ensures ParseUnsigned(d + rest) == Some(DigitsValue(d, 10))
  {
    ParseDigitsRun(d, rest, 10);
  }

  /**
   Decimal reading: whitespace, an optional sign, a run of decimal digits and
   then anything that is not a digit give the signed value of the run, unless
   the text after the sign starts `0x` or `0X`.
   */
  lemma ParseIntDecimal(ws: string, sign: string, d: string, rest: string)
    requires forall k :: 0 <= k < |ws| ==> IsSpace(ws[k])
    requires IsSign(sign)
    requires |d| > 0 && forall k :: 0 <= k < |d| ==> DigitValue(d[k], 10).Some?
    requires |rest| > 0 ==> DigitValue(rest[0], 10).None?
    requires !HexPrefixed(d + rest)
    ensures ParseInt(ws + sign + d + rest) == Some(Signed(sign, DigitsValue(d, 10)))
  {
    var u := d + rest;
    ConcatRegroup(ws + sign, d, rest, []);
    assert u[0] == d[0];
    ParseUnsignedDecimalRun(d, rest);
    ParseIntAfterSign(ws, sign, u);
  }

  /** `0x` or `0X`, hexadecimal digits, then no hexadecimal digit: the unsigned part is the digits' value. */
  lemma ParseUnsignedHex(x: char, h: string, rest: string)
    requires x == 'x' || x == 'X'
    requires |h| > 0 && forall k :: 0 <= k < |h| ==> DigitValue(h[k], 16).Some?
    requires |rest| > 0 ==> DigitValue(rest[0], 16).None?
    ensures (['0', x] + h + rest)[0] == '0'
    ensures ParseUnsigned(['0', x] + h + rest) == Some(DigitsValue(h, 16))
  {
    var b := h + rest;
    var u := ['0', x] + b;
    assert ['0', x] + h + rest == u;
    assert u[0] == '0' && u[1] == x;
    assert u[2..] == b;
    ParseDigitsRun(h, rest, 16);
  }

  /** A bare decimal numeral with no `0x` prefix reads as its value. */
  lemma ParseIntNumeral(d: string)
    requires |d| > 0 && forall k :: 0 <= k < |d| ==> DigitValue(d[k], 10).Some?
    requires !HexPrefixed(d)
    ensures ParseInt(d) == Some(DigitsValue(d, 10))
  {
    assert [] + [] + d + [] == d;
    ParseIntDecimal([], [], d, []);
  }

  /**
   Hexadecimal reading: whitespace, an optional sign, `0x` or `0X`, a run of
   hexadecimal digits and then anything that is not one give the signed value
   of the run in base 16.
   */
  lemma ParseIntHexadecimal(ws: string, sign: string, x: char, h: string, rest: string)
    requires forall k :: 0 <= k < |ws| ==> IsSpace(ws[k])
    requires IsSign(sign)
    requires x == 'x' || x == 'X'
    requires |h| > 0 && forall k :: 0 <= k < |h| ==> DigitValue(h[k], 16).Some?
    requires |rest| > 0 ==> DigitValue(rest[0], 16).None?
    ensures ParseInt(ws + sign + ['0', x] + h + rest) == Some(Signed(sign, DigitsValue(h, 16)))
  {
    var u := ['0', x] + h + rest;
    ConcatRegroup(ws + sign, ['0', x], h, rest);
    ParseUnsignedHex(x, h, rest);
    ParseIntAfterSign(ws, sign, u);
  }

  /** No digit right after the whitespace and the sign: `parseInt` is `NaN`. */
  lemma ParseIntNoDigit(ws: string, sign: string, rest: string)
    requires forall k :: 0 <= k < |ws| ==> IsSpace(ws[k])
    requires IsSign(sign)
    requires |rest| == 0 || (DigitValue(rest[0], 10).None? && !IsSpace(rest[0]) && rest[0] != '+' && rest[0] != '-')
    ensures ParseInt(ws + sign + rest).None?
  {
    ParseIntAfterSign(ws, sign, rest);
  }

  /** The characters of `n.toString()` after its sign, with whatever follows, carry no `0x` prefix. */
  lemma WrittenNotHex(d: string, rest: string)
    requires |d| > 0 && forall k :: 0 <= k < |d| ==> DigitValue(d[k], 10).Some?
    requires |d| > 1 ==> d[0] != '0'
    requires |rest| > 0 ==> rest[0] != 'x' && rest[0] != 'X'
    ensures !HexPrefixed(d + rest)
  {
    if |d| >= 2 {
      assert (d + rest)[1] == d[1];
    } else if |rest| > 0 {
      assert (d + rest)[1] == rest[0];
    }
  }

  /** A written integer behind whitespace and before a non-digit reads back as itself. */
  lemma ParseIntWritten(ws: string, n: int, rest: string)
    requires forall k :: 0 <= k < |ws| ==> IsSpace(ws[k])
    requires |rest| > 0 ==> DigitValue(rest[0], 10).None? && rest[0] != 'x' && rest[0] != 'X'
    ensures ParseInt(ws + IntToString(n) + rest) == Some(n)
  {
    var m: nat := if n < 0 then -n else n;
    var d := NatToString(m);
    var sign := if n < 0 then ['-'] else [];
    assert IntToString(n) == sign + d;
    assert ws + IntToString(n) + rest == ws + sign + d + rest by {
      ConcatRegroup(ws, sign, d, rest);
      ConcatRegroup(ws, IntToString(n), [], rest);
    }
    WrittenNotHex(d, rest);
    DigitsValueOfNatToString(m);
    ParseIntDecimal(ws, sign, d, rest);
  }
}
