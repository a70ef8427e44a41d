/** The JavaScript string operations the application relies on: `split`, `trim`,
    `toLowerCase`, `includes`, `parseInt`, `Number.prototype.toString` and `padStart`.
    A JavaScript string is a sequence of UTF-16 code units; each is a `char` here. */
module Text {
  import opened Wrappers

  // ---------------------------------------------------------------------------
  // White space and trimming
  // ---------------------------------------------------------------------------

  /** ECMAScript WhiteSpace and LineTerminator code points: what `trim` strips and
      what `parseInt` skips before the number. */
  predicate IsSpace(c: char) {
    || c == ' ' || c == '\t' || c == '\n' || c == '\r'
    || c == '\U{000B}' || c == '\U{000C}' || c == '\U{00A0}' || c == '\U{1680}'
    || ('\U{2000}' <= c <= '\U{200A}')
    || c == '\U{2028}' || c == '\U{2029}' || c == '\U{202F}' || c == '\U{205F}'
    || c == '\U{3000}' || c == '\U{FEFF}'
  }

  /** The index of the first character at or after `i` that is not white space,
      or `|s|` when there is none. */
  function SpaceEnd(s: string, i: nat): (j: nat)
    requires i <= |s|
    ensures i <= j <= |s|
    ensures forall k :: i <= k < j ==> IsSpace(s[k])
    ensures j < |s| ==> !IsSpace(s[j])
    decreases |s| - i
  {
    if i < |s| && IsSpace(s[i]) then SpaceEnd(s, i + 1) else i
  }

  /** The end of `s[lo..hi]` once its trailing white space is dropped. */
  function ContentEnd(s: string, lo: nat, hi: nat): (e: nat)
    requires lo <= hi <= |s|
    ensures lo <= e <= hi
    ensures forall k :: e <= k < hi ==> IsSpace(s[k])
    ensures lo < e ==> !IsSpace(s[e - 1])
    decreases hi
  {
    if lo < hi && IsSpace(s[hi - 1]) then ContentEnd(s, lo, hi - 1) else hi
  }

  /** `String.prototype.trimStart`: the suffix of `s` that starts at its first
      character that is not white space. */
  function TrimStart(s: string): (r: string)
    ensures |r| <= |s| && r == s[|s| - |r|..]
    ensures forall k :: 0 <= k < |s| - |r| ==> IsSpace(s[k])
    ensures r != [] ==> !IsSpace(r[0])
  {
    s[SpaceEnd(s, 0)..]
  }

  /** `String.prototype.trim`: the contiguous part of `s` left once the white space at
      both ends is removed. What is removed is all white space, what is kept starts
      and ends with a character that is not, and nothing is kept exactly when `s` is
      all white space. */
  function Trim(s: string): (r: string)
    ensures var i := SpaceEnd(s, 0);
      var e := ContentEnd(s, i, |s|);
      && r == s[i..e]
      && (forall k :: 0 <= k < i ==> IsSpace(s[k]))
      && (forall k :: e <= k < |s| ==> IsSpace(s[k]))
    ensures r != [] ==> !IsSpace(r[0]) && !IsSpace(r[|r| - 1])
    ensures r == [] <==> forall k :: 0 <= k < |s| ==> IsSpace(s[k])
  {
    var i := SpaceEnd(s, 0);
    var e := ContentEnd(s, i, |s|);
    s[i..e]
  }

  /** Every piece with its surrounding white space removed, in order. */
  function TrimAll(parts: seq<string>): (r: seq<string>)
    ensures |r| == |parts|
    ensures forall i :: 0 <= i < |parts| ==> r[i] == Trim(parts[i])
    decreases |parts|
  {
    if parts == [] then [] else [Trim(parts[0])] + TrimAll(parts[1..])
  }

  /** Trimming twice is trimming once. */
  lemma TrimIdempotent(s: string)
    ensures Trim(Trim(s)) == Trim(s)
  {
    var r := Trim(s);
    if r != [] {
      assert SpaceEnd(r, 0) == 0;
      assert ContentEnd(r, 0, |r|) == |r|;
    }
  }

  // ---------------------------------------------------------------------------
  // Splitting on a separator
  // ---------------------------------------------------------------------------

  /** `s.split(sep)` for a one-character separator: the pieces between separators,
      empty pieces included, so that there is always at least one piece ("" gives [""]). */
  function Split(s: string, sep: char): (r: seq<string>)
    ensures |r| >= 1
    ensures forall i :: 0 <= i < |r| ==> sep !in r[i]
    ensures r[0] <= s && (|r[0]| < |s| ==> s[|r[0]|] == sep)
    decreases |s|
  {
    if s == [] then [[]]
    else
      var rest := Split(s[1..], sep);
      if s[0] == sep then [[]] + rest
      else [[s[0]] + rest[0]] + rest[1..]
  }

  /** `parts.join(sep)`. */
  function Join(parts: seq<string>, sep: char): string
    decreases |parts|
  {
    if |parts| == 0 then []
    else if |parts| == 1 then parts[0]
    else parts[0] + [sep] + Join(parts[1..], sep)
  }

  /** Joining the pieces back with the separator gives the original string: `split`
      loses nothing but the separators. */
  lemma {:induction false} JoinSplit(s: string, sep: char)
    ensures Join(Split(s, sep), sep) == s
    decreases |s|
  {
    if s != [] {
      var rest := Split(s[1..], sep);
      JoinSplit(s[1..], sep);
      if s[0] == sep {
        assert Split(s, sep) == [[]] + rest;
        assert s == [sep] + s[1..];
      } else {
        var r := Split(s, sep);
        assert r == [[s[0]] + rest[0]] + rest[1..];
        if |rest| == 1 {
          assert s == [s[0]] + s[1..];
        } else {
          assert r[1..] == rest[1..];
          assert Join(rest, sep) == rest[0] + [sep] + Join(rest[1..], sep);
          assert s == [s[0]] + s[1..];
        }
      }
    }
  }

  /** A string that ends in the separator splits into at least two pieces, the last
      of them empty. */
  lemma {:induction false} SplitEndingInSeparator(s: string, sep: char)
    ensures var r := Split(s + [sep], sep);
      |r| >= 2 && r[|r| - 1] == []
    decreases |s|
  {
    var t := s + [sep];
    if s != [] {
      assert t[1..] == s[1..] + [sep];
      SplitEndingInSeparator(s[1..], sep);
    }
  }

  /** The number of occurrences of `c` in `s`. */
  function Count(s: string, c: char): nat
    decreases |s|
  {
    if s == [] then 0 else (if s[0] == c then 1 else 0) + Count(s[1..], c)
  }

  /** `split` yields one more piece than there are separators. */
  lemma {:induction false} SplitCount(s: string, sep: char)
    ensures |Split(s, sep)| == Count(s, sep) + 1
    decreases |s|
  {
    if s != [] {
      SplitCount(s[1..], sep);
    }
  }

  /** `s.split(sep)[0]`: the part of `s` before its first `sep`, or all of `s`. */
  function Before(s: string, sep: char): (r: string)
    ensures r <= s && sep !in r
    ensures |r| < |s| ==> s[|r|] == sep
    ensures sep !in s ==> r == s
  {
    Split(s, sep)[0]
  }

  // ---------------------------------------------------------------------------
  // Case folding
  // ---------------------------------------------------------------------------

  /** `toLowerCase` on one code unit, for the Basic Latin and Latin-1 capitals. */
  function LowerChar(c: char): (d: char)
  {
    if 'A' <= c <= 'Z' || ('\U{00C0}' <= c <= '\U{00DE}' && c != '\U{00D7}')
    then (c as int + 32) as char
    else c
  }

  /** `String.prototype.toLowerCase`, code unit by code unit. */
  function Lower(s: string): (r: string)
    ensures |r| == |s|
    ensures forall i :: 0 <= i < |s| ==> r[i] == LowerChar(s[i])
    decreases |s|
  {
    if s == [] then [] else [LowerChar(s[0])] + Lower(s[1..])
  }

  /** Lower-casing a lower-cased string changes nothing. */
  lemma LowerIdempotent(s: string)
    ensures Lower(Lower(s)) == Lower(s)
  {
    var l := Lower(s);
    forall i | 0 <= i < |s|
      ensures LowerChar(l[i]) == l[i]
    {
      var c := s[i];
      if 'A' <= c <= 'Z' || ('\U{00C0}' <= c <= '\U{00DE}' && c != '\U{00D7}') {
        assert l[i] as int == c as int + 32;
      }
    }
  }

  // ---------------------------------------------------------------------------
  // Substring search
  // ---------------------------------------------------------------------------

  /** `s.includes(part)`: `part` occurs in `s` starting at some position. */
  predicate Contains(s: string, part: string)
    decreases |s|
  {
    part <= s || (s != [] && Contains(s[1..], part))
  }

  /** `Contains` holds exactly when `part` starts at some index of `s`. */
  lemma {:induction false} ContainsAt(s: string, part: string)
    ensures Contains(s, part) <==> exists i :: 0 <= i <= |s| && part <= s[i..]
    decreases |s|
  {
    assert s[0..] == s;
    if s != [] {
      ContainsAt(s[1..], part);
      if Contains(s, part) && !(part <= s) {
        var i :| 0 <= i <= |s| - 1 && part <= s[1..][i..];
        assert s[1..][i..] == s[i + 1..];
      }
      if exists i :: 0 <= i <= |s| && part <= s[i..] {
        var i :| 0 <= i <= |s| && part <= s[i..];
        if i > 0 {
          assert s[1..][i - 1..] == s[i..];
          assert Contains(s[1..], part);
        }
      }
    }
  }

  /** A part found in `s` is still found once both are lower-cased, so a
      case-insensitive search finds at least what a case-sensitive one finds. */
  lemma {:induction false} ContainsLower(s: string, part: string)
    requires Contains(s, part)
    ensures Contains(Lower(s), Lower(part))
    decreases |s|
  {
    if part <= s {
      assert Lower(part) <= Lower(s);
    } else {
      ContainsLower(s[1..], part);
      assert Lower(s)[1..] == Lower(s[1..]);
    }
  }

  // ---------------------------------------------------------------------------
  // Numbers and their decimal text
  // ---------------------------------------------------------------------------

  predicate IsDigit(c: char) { '0' <= c <= '9' }

  predicate AllDigits(s: string) { forall i :: 0 <= i < |s| ==> IsDigit(s[i]) }

  /** The longest prefix of `s` made of decimal digits. */
  function DigitPrefix(s: string): (r: string)
    ensures r <= s && AllDigits(r)
    ensures |r| < |s| ==> !IsDigit(s[|r|])
    decreases |s|
  {
    if s != [] && IsDigit(s[0]) then [s[0]] + DigitPrefix(s[1..]) else []
  }

  /** The value of a string of decimal digits, most significant first. */
  function DigitsValue(ds: string): nat
    requires AllDigits(ds)
    decreases |ds|
  {
    if ds == [] then 0
    else DigitsValue(ds[..|ds| - 1]) * 10 + (ds[|ds| - 1] as int - '0' as int)
  }

  function DigitChar(d: nat): (c: char)
    requires d < 10
    ensures IsDigit(c) && c as int - '0' as int == d
  {
    ('0' as int + d) as char
  }

  /** `n.toString()` for a natural number below 2^53: its decimal digits, without
      leading zeros. Larger JavaScript numbers are rounded doubles, and from 10^21 on
      `toString` switches to exponent notation; the model writes exact digits for
      every natural number. */
  function NatToString(n: nat): (r: string)
    ensures r != [] && AllDigits(r)
    ensures |r| > 1 ==> r[0] != '0'
  {
    if n < 10 then [DigitChar(n)] else NatToString(n / 10) + [DigitChar(n % 10)]
  }

  /** `n.toString()` for an integer within ±(2^53 - 1): a minus sign before the digits
      of a negative number. */
  function IntToString(n: int): (r: string)
    ensures r != [] && !IsSpace(r[0])
  {
    if n < 0 then "-" + NatToString(-n) else NatToString(n)
  }

  /** Reading back the digits `NatToString` writes gives the number again. */
  lemma {:induction false} NatToStringValue(n: nat)
    ensures DigitsValue(NatToString(n)) == n
  {
    if n >= 10 {
      NatToStringValue(n / 10);
      var r := NatToString(n);
      assert r[..|r| - 1] == NatToString(n / 10);
    }
  }

  /** A leading zero does not change the value of a digit string. */
  lemma {:induction false} LeadingZeroValue(ds: string)
    requires AllDigits(ds)
    ensures AllDigits("0" + ds) && DigitsValue("0" + ds) == DigitsValue(ds)
    decreases |ds|
  {
    if ds != [] {
      LeadingZeroValue(ds[..|ds| - 1]);
      assert ("0" + ds)[..|ds|] == "0" + ds[..|ds| - 1];
    }
  }

  /** The radix `parseInt` is called with: none (JavaScript then also accepts a
      "0x" prefix for hexadecimal) or 10. */
  datatype Radix = Auto | Decimal

  predicate IsHexDigit(c: char) { IsDigit(c) || 'a' <= c <= 'f' || 'A' <= c <= 'F' }

  predicate AllHexDigits(s: string) { forall i :: 0 <= i < |s| ==> IsHexDigit(s[i]) }

  function HexDigitValue(c: char): nat
    requires IsHexDigit(c)
  {
    if IsDigit(c) then c as int - '0' as int
    else if 'a' <= c <= 'f' then c as int - 'a' as int + 10
    else c as int - 'A' as int + 10
  }

  /** The longest prefix of `s` made of hexadecimal digits. */
  function HexPrefix(s: string): (r: string)
    ensures r <= s && AllHexDigits(r)
    decreases |s|
  {
    if s != [] && IsHexDigit(s[0]) then [s[0]] + HexPrefix(s[1..]) else []
  }

  function HexValue(ds: string): nat
    requires AllHexDigits(ds)
    decreases |ds|
  {
    if ds == [] then 0 else HexValue(ds[..|ds| - 1]) * 16 + HexDigitValue(ds[|ds| - 1])
  }

  /** The magnitude `parseInt` reads after the sign: `None` is NaN (no digit at all). */
  function Magnitude(u: string, radix: Radix): Option<nat>
  {
    if radix == Auto && |u| >= 2 && u[0] == '0' && (u[1] == 'x' || u[1] == 'X') then
      var hs := HexPrefix(u[2..]);
      if hs == [] then None else Some(HexValue(hs))
    else
      var ds := DigitPrefix(u);
      if ds == [] then None else Some(DigitsValue(ds))
  }

  /** `parseInt(s)` / `parseInt(s, 10)` on a string: skip leading white space, read an
      optional sign, then the longest run of digits; `None` stands for NaN. Digits
      after the run (a decimal point, an exponent, letters) are ignored. */
  function ParseInt(s: string, radix: Radix): (r: Option<int>)
    ensures var t := TrimStart(s);
      (t == [] || (!IsDigit(t[0]) && t[0] != '-' && t[0] != '+')) ==> r.None?
  {
    var t := TrimStart(s);
    var signed := t != [] && (t[0] == '-' || t[0] == '+');
    var u := if signed then t[1..] else t;
    match Magnitude(u, radix)
    case None => None
    case Some(m) =>
      var v: int := if signed && t[0] == '-' then -(m as int) else m;
      Some(v)
  }

  /** Parsing the text `toString` writes for an integer gives the integer back, with
      or without a radix. */
  lemma ParseIntToString(n: int, radix: Radix)
    ensures ParseInt(IntToString(n), radix) == Some(n)
  {
    var m: nat := if n < 0 then -n else n;
    var ds := NatToString(m);
    NatToStringValue(m);
    MagnitudeOfDigits(ds, radix);
    if n < 0 {
      ParseNegative(ds, radix, m);
    } else {
      ParseDigits(ds, radix);
    }
  }

  /** A run of decimal digits parses to its value. */
  lemma ParseDigits(ds: string, radix: Radix)
    requires ds != [] && AllDigits(ds)
    ensures ParseInt(ds, radix) == Some(DigitsValue(ds))
  {
    MagnitudeOfDigits(ds, radix);
    TrimStartKeeps(ds);
  }

  /** A minus sign before a magnitude negates it. */
  lemma ParseNegative(u: string, radix: Radix, m: nat)
    requires Magnitude(u, radix) == Some(m)
    ensures ParseInt("-" + u, radix) == Some(-(m as int))
  {
    var s := "-" + u;
    assert !IsSpace(s[0]);
    TrimStartKeeps(s);
    assert TrimStart(s) == s;
    assert s[1..] == u;
    assert Magnitude(s[1..], radix) == Some(m);
  }

  /** `parseInt` reads a run of digits and ignores whatever follows it ("12px" is 12),
      unless, without a radix, a lone `0` is followed by `x` and so starts a
      hexadecimal number. */
  lemma ParseIntStopsAtNonDigit(ds: string, rest: string, radix: Radix)
    requires ds != [] && AllDigits(ds)
    requires rest == [] || !IsDigit(rest[0])
    requires radix == Decimal || !(ds == "0" && rest != [] && (rest[0] == 'x' || rest[0] == 'X'))
    ensures ParseInt(ds + rest, radix) == Some(DigitsValue(ds))
  {
    MagnitudeStops(ds, rest, radix);
    var s := ds + rest;
    assert !IsSpace(s[0]) && s[0] != '-' && s[0] != '+';
    ParseUnsigned(s, radix, DigitsValue(ds));
  }

  /** Text that starts with neither white space nor a sign parses to its magnitude. */
  lemma ParseUnsigned(s: string, radix: Radix, m: nat)
    requires s != [] && !IsSpace(s[0]) && s[0] != '-' && s[0] != '+'
    requires Magnitude(s, radix) == Some(m)
    ensures ParseInt(s, radix) == Some(m)
  {
    TrimStartKeeps(s);
    var t := TrimStart(s);
    assert t == s;
    assert !(t != [] && (t[0] == '-' || t[0] == '+'));
  }

  /** The magnitude of digits followed by a non-digit is the value of the digits. */
  lemma MagnitudeStops(ds: string, rest: string, radix: Radix)
    requires ds != [] && AllDigits(ds)
    requires rest == [] || !IsDigit(rest[0])
    requires radix == Decimal || !(ds == "0" && rest != [] && (rest[0] == 'x' || rest[0] == 'X'))
    ensures IsDigit((ds + rest)[0])
    ensures Magnitude(ds + rest, radix) == Some(DigitsValue(ds))
  {
    var s := ds + rest;
    assert s[0] == ds[0];
    DigitPrefixStops(ds, rest);
    if |ds| >= 2 {
      assert s[1] == ds[1] && IsDigit(s[1]);
    }
  }

  /** The digit prefix of digits followed by a non-digit is those digits. */
  lemma {:induction false} DigitPrefixStops(ds: string, rest: string)
    requires AllDigits(ds)
    requires rest == [] || !IsDigit(rest[0])
    ensures DigitPrefix(ds + rest) == ds
    decreases |ds|
  {
    if ds == [] {
      assert ds + rest == rest;
    } else {
      DigitPrefixStops(ds[1..], rest);
      assert (ds + rest)[1..] == ds[1..] + rest;
      assert ds == [ds[0]] + ds[1..];
    }
  }

  /** A string that starts with a character other than white space is its own
      `trimStart`. */
  lemma TrimStartKeeps(s: string)
    requires s != [] && !IsSpace(s[0])
    ensures TrimStart(s) == s
  {
    assert SpaceEnd(s, 0) == 0;
  }

  /** A run of decimal digits is read whole, in either radix mode: it cannot start
      with `0x`. */
  lemma MagnitudeOfDigits(ds: string, radix: Radix)
    requires ds != [] && AllDigits(ds)
    ensures Magnitude(ds, radix) == Some(DigitsValue(ds))
  {
    DigitPrefixOfDigits(ds);
    if |ds| >= 2 {
      assert IsDigit(ds[1]);
    }
  }

  /** The digit prefix of a digit string is the whole string. */
  lemma {:induction false} DigitPrefixOfDigits(ds: string)
    requires AllDigits(ds)
    ensures DigitPrefix(ds) == ds
    decreases |ds|
  {
    if ds != [] {
      DigitPrefixOfDigits(ds[1..]);
      assert ds == [ds[0]] + ds[1..];
    }
  }

  // ---------------------------------------------------------------------------
  // Padding
  // ---------------------------------------------------------------------------

  /** `n` copies of `c`. */
  function Repeat(c: char, n: nat): (r: string)
    ensures |r| == n && forall i :: 0 <= i < n ==> r[i] == c
  {
    if n == 0 then [] else [c] + Repeat(c, n - 1)
  }

  /** `s.padStart(width, fill)` for a one-character fill: `fill` is added on the left
      until `s` is `width` long; a string already that long is returned as it is. */
  function PadStart(s: string, width: nat, fill: char): (r: string)
    ensures |r| == if |s| >= width then |s| else width
    ensures s <= r[|r| - |s|..] && r[|r| - |s|..] == s
    ensures forall i :: 0 <= i < |r| - |s| ==> r[i] == fill
  {
    if |s| >= width then s else Repeat(fill, width - |s|) + s
  }
}
