/** The JavaScript string operations the media routes and the upload
    configuration rely on: `trim`, `split`, regular-expression literal
    matching (`includes`), `startsWith`, `toLowerCase`, `Number.parseInt`
    and the decimal rendering of a number in a template string. */
module Text {
  import opened Wrappers

  /** The ECMAScript WhiteSpace and LineTerminator code points, which
      `String.prototype.trim` removes and `parseInt` skips. */
  predicate IsWhiteSpace(c: char) {
    c == '\t' || c == '\n' || c == '\U{B}' || c == '\U{C}' || c == '\r' || c == ' '
    || c == '\U{A0}' || c == '\U{1680}' || ('\U{2000}' <= c <= '\U{200A}')
    || c == '\U{2028}' || c == '\U{2029}' || c == '\U{202F}' || c == '\U{205F}'
    || c == '\U{3000}' || c == '\U{FEFF}'
  }

  /** Every character of `s` is white space (the empty string included). */
  predicate IsBlank(s: string) {
    forall i :: 0 <= i < |s| ==> IsWhiteSpace(s[i])
  }

  /** `s` neither starts nor ends with white space. */
  predicate IsTrimmed(s: string) {
    s == [] || (!IsWhiteSpace(s[0]) && !IsWhiteSpace(s[|s| - 1]))
  }

  /** `s` with its leading white space removed. */
  function TrimStart(s: string): (r: string)
    ensures |r| <= |s| && r == s[|s| - |r|..]
    ensures r == [] || !IsWhiteSpace(r[0])
    ensures forall i :: 0 <= i < |s| - |r| ==> IsWhiteSpace(s[i])
  {
    if |s| > 0 && IsWhiteSpace(s[0]) then TrimStart(s[1..]) else s
  }

  /** `s` with its trailing white space removed. */
  function TrimEnd(s: string): (r: string)
    ensures |r| <= |s| && r == s[..|r|]
    ensures r == [] || !IsWhiteSpace(r[|r| - 1])
    ensures forall i :: |r| <= i < |s| ==> IsWhiteSpace(s[i])
  {
    if |s| > 0 && IsWhiteSpace(s[|s| - 1]) then TrimEnd(s[..|s| - 1]) else s
  }

  /** `String.prototype.trim`: the result has no surrounding white space,
      is empty exactly when `s` is blank, and leaves a trimmed string alone. */
  function Trim(s: string): (r: string)
    ensures IsTrimmed(r)
    ensures r == [] <==> IsBlank(s)
    ensures IsTrimmed(s) ==> r == s
    ensures |r| <= |s|
  {
    var t := TrimStart(s);
    var r := TrimEnd(t);
    assert r != [] ==> r[0] == t[0];
    assert IsBlank(s) ==> t == [];
    assert r == [] ==> IsBlank(s) by {
      if r == [] {
        assert t == [];
      }
    }
    r
  }

  /** Trimming removes exactly the white space put around a trimmed string. */
  lemma TrimStripsPadding(before: string, x: string, after: string)
    requires IsBlank(before) && IsBlank(after) && IsTrimmed(x)
    ensures Trim(before + x + after) == x
  {
    var s := before + x + after;
    if x == [] {
      assert IsBlank(s) by {
        forall i | 0 <= i < |s| ensures IsWhiteSpace(s[i]) {
          if i < |before| { assert s[i] == before[i]; } else { assert s[i] == after[i - |before|]; }
        }
      }
    } else {
      assert s == before + (x + after);
      TrimStartOfPadded(before, x + after);
      TrimEndOfPadded(x, after);
    }
  }

  /** Blank padding before a string that starts with no white space is
      exactly what `TrimStart` removes. */
  lemma TrimStartOfPadded(before: string, rest: string)
    requires IsBlank(before) && rest != [] && !IsWhiteSpace(rest[0])
    ensures TrimStart(before + rest) == rest
  {
    var s := before + rest;
    var t := TrimStart(s);
    assert forall i :: 0 <= i < |before| ==> s[i] == before[i];
    assert s[|before|] == rest[0];
    assert |s| - |t| == |before|;
  }

  /** Blank padding after a string that ends with no white space is
      exactly what `TrimEnd` removes. */
  lemma TrimEndOfPadded(rest: string, after: string)
    requires IsBlank(after) && rest != [] && !IsWhiteSpace(rest[|rest| - 1])
    ensures TrimEnd(rest + after) == rest
  {
    var s := rest + after;
    var r := TrimEnd(s);
    assert forall i :: 0 <= i < |after| ==> s[|rest| + i] == after[i];
    assert s[|rest| - 1] == rest[|rest| - 1];
    assert |r| == |rest|;
  }

  /** `s` begins with `prefix` (`String.prototype.startsWith`). */
  predicate StartsWith(s: string, prefix: string) {
    |prefix| <= |s| && s[..|prefix|] == prefix
  }

  /** `w` occurs somewhere in `s`: what testing an unanchored regular
      expression made of the literal `w` decides. */
  predicate Includes(s: string, w: string) {
    StartsWith(s, w) || (|s| > 0 && Includes(s[1..], w))
  }

  /** `Includes` holds exactly when `w` starts at some position of `s`. */
  lemma {:induction false} IncludesIffOccurs(s: string, w: string)
    ensures Includes(s, w) <==> exists i :: 0 <= i <= |s| && StartsWith(s[i..], w)
  {
    if StartsWith(s, w) {
      assert s[0..] == s;
    } else if |s| > 0 {
      IncludesIffOccurs(s[1..], w);
      if Includes(s[1..], w) {
        var j :| 0 <= j <= |s| - 1 && StartsWith(s[1..][j..], w);
        assert s[1..][j..] == s[j + 1..];
      }
      if exists i :: 0 <= i <= |s| && StartsWith(s[i..], w) {
        var i :| 0 <= i <= |s| && StartsWith(s[i..], w);
        assert i != 0 by { assert s[0..] == s; }
        assert s[1..][i - 1..] == s[i..];
      }
    }
  }

  /** An occurrence of `w` at position `i` makes `Includes` hold. */
  lemma {:induction false} IncludesAt(s: string, w: string, i: nat)
    requires i <= |s| && StartsWith(s[i..], w)
    ensures Includes(s, w)
  {
    if i > 0 {
      assert s[1..][i - 1..] == s[i..];
      IncludesAt(s[1..], w, i - 1);
    }
  }

  /** Every character of an occurring word is a character of `s`. */
  lemma {:induction false} IncludedCharsOccur(s: string, w: string, k: nat)
    requires Includes(s, w) && k < |w|
    ensures w[k] in s
  {
    if StartsWith(s, w) {
      assert s[k] == w[k];
    } else {
      IncludedCharsOccur(s[1..], w, k);
      assert w[k] in s[1..];
    }
  }

  /** The upper-case ASCII letters mapped to lower case, every other
      character unchanged. */
  function LowerChar(c: char): char {
    if 'A' <= c <= 'Z' then (c as int + 32) as char else c
  }

  /** `String.prototype.toLowerCase` restricted to ASCII letters. */
  function Lower(s: string): (r: string)
    ensures |r| == |s| && forall i :: 0 <= i < |s| ==> r[i] == LowerChar(s[i])
  {
    seq(|s|, i requires 0 <= i < |s| => LowerChar(s[i]))
  }

  /** The first index of `c` in `s`. */
  function IndexOf(s: string, c: char): (i: nat)
    requires c in s
    ensures i < |s| && s[i] == c && c !in s[..i]
  {
    if s[0] == c then 0 else 1 + IndexOf(s[1..], c)
  }

  /** The strings of `parts` with `sep` between consecutive ones
      (`Array.prototype.join`). */
  function Join(parts: seq<string>, sep: char): string {
    if |parts| == 0 then ""
    else if |parts| == 1 then parts[0]
    else parts[0] + [sep] + Join(parts[1..], sep)
  }

  /** `String.prototype.split` on a one-character separator: the pieces
      between the separators, in order, so joining them gives `s` back. */
  function Split(s: string, sep: char): (parts: seq<string>)
    ensures |parts| >= 1
    ensures forall k :: 0 <= k < |parts| ==> sep !in parts[k]
    ensures Join(parts, sep) == s
    decreases |s|
  {
    if sep in s then
      var i := IndexOf(s, sep);
      var rest := Split(s[i + 1..], sep);
      assert s == s[..i] + [sep] + s[i + 1..];
      [s[..i]] + rest
    else
      [s]
  }

  /** Splitting a joined list of separator-free pieces gives the pieces back. */
  lemma {:induction false} SplitJoin(parts: seq<string>, sep: char)
    requires |parts| >= 1
    requires forall k :: 0 <= k < |parts| ==> sep !in parts[k]
    ensures Split(Join(parts, sep), sep) == parts
  {
    if |parts| == 1 {
    } else {
      var s := Join(parts, sep);
      assert s == parts[0] + [sep] + Join(parts[1..], sep);
      assert sep in s by { assert s[|parts[0]|] == sep; }
      var i := IndexOf(s, sep);
      assert forall j :: 0 <= j < |parts[0]| ==> s[j] == parts[0][j];
      assert s[|parts[0]|] == sep;
      assert i <= |parts[0]|;
      assert s[..i] == parts[0];
      assert s[i + 1..] == Join(parts[1..], sep);
      SplitJoin(parts[1..], sep);
    }
  }

  /** The value of a digit in radices up to 36; 36 for a character that is
      no digit at all. */
  function DigitValue(c: char): (d: nat)
    ensures d <= 36
  {
    if '0' <= c <= '9' then c as int - '0' as int
    else if 'a' <= c <= 'z' then c as int - 'a' as int + 10
    else if 'A' <= c <= 'Z' then c as int - 'A' as int + 10
    else 36
  }

  /** The length of the longest prefix of `s` made of digits in `radix`. */
  function DigitRun(s: string, radix: nat): (n: nat)
    ensures n <= |s|
    ensures forall i :: 0 <= i < n ==> DigitValue(s[i]) < radix
    ensures n < |s| ==> DigitValue(s[n]) >= radix
  {
    if |s| > 0 && DigitValue(s[0]) < radix then 1 + DigitRun(s[1..], radix) else 0
  }

  /** The number the digits `ds` denote in `radix`, most significant first. */
  function DigitsValue(ds: string, radix: nat): nat {
    if ds == [] then 0
    else DigitsValue(ds[..|ds| - 1], radix) * radix + DigitValue(ds[|ds| - 1])
  }

  /** `Number.parseInt(s)` with no radix: skip leading white space, read an
      optional sign, read a `0x`/`0X` prefix as radix 16 (otherwise radix 10),
      then take the longest run of digits. `None` stands for `NaN`, the
      result when that run is empty. */
  function ParseInt(s: string): (r: Option<int>)
    ensures TrimStart(s) == [] ==> r.None?
    ensures (TrimStart(s) != [] && DigitValue(TrimStart(s)[0]) >= 10
             && TrimStart(s)[0] != '-' && TrimStart(s)[0] != '+') ==> r.None?
    ensures r.Some? && r.value < 0 ==> TrimStart(s)[0] == '-'
  {
    ParseSigned(TrimStart(s))
  }

  /** `parseInt` after the leading white space: an optional sign, then the
      unsigned part. */
  function ParseSigned(t: string): (r: Option<int>)
    ensures t == [] ==> r.None?
    ensures (t != [] && DigitValue(t[0]) >= 10 && t[0] != '-' && t[0] != '+') ==> r.None?
    ensures r.Some? && r.value < 0 ==> t[0] == '-'
  {
    var negative := |t| > 0 && t[0] == '-';
    var u := if |t| > 0 && (t[0] == '-' || t[0] == '+') then t[1..] else t;
    var v := ParseDigits(u);
    if v.None? then None else Some(if negative then -(v.value as int) else v.value)
  }

  /** The unsigned part of `parseInt`: a `0x`/`0X` prefix selects radix 16,
      otherwise radix 10. */
  function ParseDigits(u: string): (r: Option<nat>)
    ensures u == [] || DigitValue(u[0]) >= 10 ==> r.None?
  {
    if |u| >= 2 && u[0] == '0' && (u[1] == 'x' || u[1] == 'X') then ReadRun(u[2..], 16)
    else ReadRun(u, 10)
  }

  /** The value of the longest run of `radix` digits that starts `body`;
      `None` when that run is empty. */
  function ReadRun(body: string, radix: nat): (r: Option<nat>)
    ensures r.None? <==> body == [] || DigitValue(body[0]) >= radix
  {
    var n := DigitRun(body, radix);
    if n == 0 then None else Some(DigitsValue(body[..n], radix))
  }

  /** Decimal digits not followed by another digit, nor forming a `0x`
      prefix, are read whole, leading zeros included. */
  lemma ParseDigitsReads(digits: string, rest: string)
    requires |digits| > 0 && forall i :: 0 <= i < |digits| ==> DigitValue(digits[i]) < 10
    requires rest == [] || DigitValue(rest[0]) >= 10
    requires !(digits == "0" && rest != [] && (rest[0] == 'x' || rest[0] == 'X'))
    ensures ParseDigits(digits + rest) == Some(DigitsValue(digits, 10))
  {
    NoHexPrefix(digits, rest);
    DigitRunOfDigits(digits, rest);
  }

  /** `parseInt` skips leading white space, reads an optional sign, and
      then reads the whole run of decimal digits, leading zeros included,
      up to the first character that ends it. The text after the digits
      must neither continue the run nor turn a lone `0` into a `0x`
      prefix. */
  lemma ParseIntReads(ws: string, sign: string, digits: string, rest: string)
    requires IsBlank(ws)
    requires sign == "" || sign == "+" || sign == "-"
    requires |digits| > 0 && forall i :: 0 <= i < |digits| ==> DigitValue(digits[i]) < 10
    requires rest == [] || DigitValue(rest[0]) >= 10
    requires !(digits == "0" && rest != [] && (rest[0] == 'x' || rest[0] == 'X'))
    ensures ParseInt(ws + sign + digits + rest) == Some(SignedValue(sign, DigitsValue(digits, 10)))
  {
    var u := digits + rest;
    Regroup(ws, sign, digits, rest);
    assert u[0] == digits[0];
    ParseDigitsReads(digits, rest);
    ParseIntOfSigned(ws, sign, u);
  }

  /** `v` read after the sign `sign`: negated exactly when the sign is `-`. */
  function SignedValue(sign: string, v: nat): int {
    if sign == "-" then -(v as int) else v
  }

  /** Blank padding, then a sign, then an unsigned part that `ParseDigits` reads. */
  lemma ParseIntOfSigned(ws: string, sign: string, u: string)
    requires IsBlank(ws)
    requires sign == "" || sign == "+" || sign == "-"
    requires u != [] && DigitValue(u[0]) < 10
    requires ParseDigits(u).Some?
    ensures ParseInt(ws + (sign + u)) == Some(SignedValue(sign, ParseDigits(u).value))
  {
    SignedDigitsStart(sign, u);
    ParseIntOfPadded(ws, sign + u);
    SignedRead(sign, u);
  }

  /** A sign with no digit after it reads as `NaN`, whatever follows. */
  lemma SignWithoutDigits(ws: string, sign: string, rest: string)
    requires IsBlank(ws) && (sign == "+" || sign == "-")
    requires rest == [] || DigitValue(rest[0]) >= 10
    ensures ParseInt(ws + (sign + rest)).None?
  {
    assert (sign + rest)[0] == sign[0];
    TrimStartOfPadded(ws, sign + rest);
    assert (sign + rest)[1..] == rest;
  }

  /** Concatenation regrouped to the right. */
  lemma Regroup(a: string, b: string, c: string, d: string)
    ensures a + b + c + d == a + (b + (c + d))
  {
  }

  /** `parseInt` reads past blank padding to what follows it. */
  lemma ParseIntOfPadded(ws: string, t: string)
    requires IsBlank(ws) && t != [] && !IsWhiteSpace(t[0])
    ensures ParseInt(ws + t) == ParseSigned(t)
  {
    TrimStartOfPadded(ws, t);
  }

  /** Signed digits start with neither white space nor anything else
      `TrimStart` removes. */
  lemma SignedDigitsStart(sign: string, u: string)
    requires sign == "" || sign == "+" || sign == "-"
    requires u != [] && DigitValue(u[0]) < 10
    ensures sign + u != [] && !IsWhiteSpace((sign + u)[0])
  {
    assert (sign + u)[0] == if sign == "" then u[0] else sign[0];
  }

  /** A sign in front of the unsigned part negates it exactly when it is `-`. */
  lemma SignedRead(sign: string, u: string)
    requires sign == "" || sign == "+" || sign == "-"
    requires u != [] && u[0] != '-' && u[0] != '+'
    requires ParseDigits(u).Some?
    ensures ParseSigned(sign + u) == Some(SignedValue(sign, ParseDigits(u).value))
  {
    SignStripped(sign, u);
  }

  /** Reading the sign of `sign + u` leaves `u`, negative exactly for `-`. */
  lemma SignStripped(sign: string, u: string)
    requires sign == "" || sign == "+" || sign == "-"
    requires u != [] && u[0] != '-' && u[0] != '+'
    ensures var t := sign + u;
      (|t| > 0 && t[0] == '-') == (sign == "-")
      && (if |t| > 0 && (t[0] == '-' || t[0] == '+') then t[1..] else t) == u
  {
    var t := sign + u;
    if sign != "" {
      assert t[0] == sign[0] && t[1..] == u;
    } else {
      assert t == u;
    }
  }

  /** Digits followed by something other than `x` after a lone `0` do not
      make a `0x` prefix. */
  lemma NoHexPrefix(digits: string, rest: string)
    requires |digits| > 0 && forall i :: 0 <= i < |digits| ==> DigitValue(digits[i]) < 10
    requires !(digits == "0" && rest != [] && (rest[0] == 'x' || rest[0] == 'X'))
    ensures var u := digits + rest;
      !(|u| >= 2 && u[0] == '0' && (u[1] == 'x' || u[1] == 'X'))
  {
    var u := digits + rest;
    if |u| >= 2 && u[0] == '0' {
      if |digits| >= 2 {
        assert u[1] == digits[1];
      } else {
        assert digits == "0" && u[1] == rest[0];
      }
    }
  }

  /** The digit run of `digits + rest` is exactly `digits` when `rest`
      does not continue it. */
  lemma DigitRunOfDigits(digits: string, rest: string)
    requires forall i :: 0 <= i < |digits| ==> DigitValue(digits[i]) < 10
    requires rest == [] || DigitValue(rest[0]) >= 10
    ensures DigitRun(digits + rest, 10) == |digits|
    ensures (digits + rest)[..|digits|] == digits
  {
    var u := digits + rest;
    var n := DigitRun(u, 10);
    assert forall i :: 0 <= i < |digits| ==> u[i] == digits[i];
    assert |digits| < |u| ==> u[|digits|] == rest[0];
  }

  /** The decimal digit character for `d`. */
  function DigitChar(d: nat): (c: char)
    requires d < 10
    ensures DigitValue(c) == d
  {
    "0123456789"[d]
  }

  /** The decimal rendering of `n`, as a template string writes a number:
      only decimal digits, and no leading zero unless `n` is 0. */
  function Decimal(n: nat): (r: string)
    ensures |r| >= 1
    ensures forall i :: 0 <= i < |r| ==> DigitValue(r[i]) < 10
    ensures r[0] == '0' ==> r == "0"
    ensures DigitsValue(r, 10) == n
  {
    if n < 10 then
      [DigitChar(n)]
    else
      var r := Decimal(n / 10) + [DigitChar(n % 10)];
      assert r[..|r| - 1] == Decimal(n / 10);
      r
  }

  /** `parseInt` reads back a decimal rendering up to the first character
      that is neither a digit nor the `x` of a hexadecimal prefix. */
  lemma ParseIntReadsDecimal(n: nat, rest: string)
    requires rest == [] || (DigitValue(rest[0]) >= 10 && rest[0] != 'x' && rest[0] != 'X')
    ensures ParseInt(Decimal(n) + rest) == Some(n)
  {
    var d := Decimal(n);
    ParseIntReads([], [], d, rest);
    Regroup([], [], d, rest);
    assert [] + ([] + (d + rest)) == d + rest;
  }

}
