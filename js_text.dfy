/**
 * The JavaScript string built-ins the application relies on: `trim`,
 * `toLowerCase`, `includes`, `split` on one character and the decimal
 * `toString` of a non-negative integer. Strings are sequences of Unicode
 * scalar values.
 */
module JsText {

  /** White space and line terminators as ECMAScript defines them; `trim` removes
      these and the regular-expression class `\S` excludes them. */
  predicate IsSpace(c: char) {
    c == ' ' || c == '\t' || c == '\n' || c == '\r' || c == '\U{000B}' || c == '\U{000C}'
    || c == '\U{00A0}' || c == '\U{1680}' || ('\U{2000}' <= c <= '\U{200A}')
    || c == '\U{2028}' || c == '\U{2029}' || c == '\U{202F}' || c == '\U{205F}'
    || c == '\U{3000}' || c == '\U{FEFF}'
  }

  /** `s.trimStart()`: the suffix of `s` left after dropping leading white space. */
  function TrimStart(s: string): (r: string)
    ensures |r| <= |s| && r == s[|s| - |r|..]
    ensures forall i :: 0 <= i < |s| - |r| ==> IsSpace(s[i])
    ensures r != [] ==> !IsSpace(r[0])
  {
    if s != [] && IsSpace(s[0]) then TrimStart(s[1..]) else s
  }

  /** `s.trimEnd()`: the prefix of `s` left after dropping trailing white space. */
  function TrimEnd(s: string): (r: string)
    ensures |r| <= |s| && r == s[..|r|]
    ensures forall i :: |r| <= i < |s| ==> IsSpace(s[i])
    ensures r != [] ==> !IsSpace(r[|r| - 1])
  {
    if s != [] && IsSpace(s[|s| - 1]) then TrimEnd(s[..|s| - 1]) else s
  }

  /** `s.trim()`: the slice of `s` between its first and last non-space characters. */
  function Trim(s: string): (r: string)
    ensures var a := |s| - |TrimStart(s)|;
      a + |r| <= |s| && r == s[a..a + |r|]
      && (forall i :: 0 <= i < a ==> IsSpace(s[i]))
      && (forall i :: a + |r| <= i < |s| ==> IsSpace(s[i]))
    ensures r != [] ==> !IsSpace(r[0]) && !IsSpace(r[|r| - 1])
  {
    TrimEnd(TrimStart(s))
  }

  /** `s.trim()` is empty exactly when every character of `s` is white space. */
  lemma TrimEmptyIff(s: string)
    ensures Trim(s) == [] <==> forall i :: 0 <= i < |s| ==> IsSpace(s[i])
  {
    var a := |s| - |TrimStart(s)|;
    if Trim(s) != [] {
      assert s[a] == Trim(s)[0];
    }
  }

  /** `s` holds at least two characters that are not white space. */
  predicate HasTwoNonSpace(s: string) {
    exists i, j :: 0 <= i < j < |s| && !IsSpace(s[i]) && !IsSpace(s[j])
  }

  /** `s.trim().length >= 2` exactly when `s` holds two non-space characters. */
  lemma TrimAtLeastTwoIff(s: string)
    ensures |Trim(s)| >= 2 <==> HasTwoNonSpace(s)
  {
    var r := Trim(s);
    var a := |s| - |TrimStart(s)|;
    if |r| >= 2 {
      assert s[a] == r[0] && s[a + |r| - 1] == r[|r| - 1];
    }
    if exists i, j :: 0 <= i < j < |s| && !IsSpace(s[i]) && !IsSpace(s[j]) {
      var i, j :| 0 <= i < j < |s| && !IsSpace(s[i]) && !IsSpace(s[j]);
      assert a <= i && j < a + |r|;
    }
  }

  /** ASCII upper-case letters to lower case; every other character unchanged. */
  function LowerChar(c: char): (r: char)
    ensures 'A' <= c <= 'Z' ==> 'a' <= r <= 'z' && r as int == c as int + 32
    ensures !('A' <= c <= 'Z') ==> r == c
  {
    if 'A' <= c <= 'Z' then (c as int - 'A' as int + 'a' as int) as char else c
  }

  /** `s.toLowerCase()`, restricted to the ASCII letters. */
  function ToLower(s: string): (r: string)
    ensures |r| == |s|
    ensures forall i :: 0 <= i < |s| ==> r[i] == LowerChar(s[i])
  {
    seq(|s|, i requires 0 <= i < |s| => LowerChar(s[i]))
  }

  /** `s.startsWith(part)`. */
  predicate StartsWith(s: string, part: string) {
    |part| <= |s| && s[..|part|] == part
  }

  /** `s.includes(part)`: `part` occurs in `s` at some position (the empty string occurs everywhere). */
  function Includes(s: string, part: string): (r: bool)
    ensures r <==> exists i :: 0 <= i <= |s| - |part| && StartsWith(s[i..], part)
    decreases |s|
  {
    if StartsWith(s, part) then assert s[0..] == s; true
    else if s == [] then false
    else
      var rest := Includes(s[1..], part);
      assert rest ==> exists i :: 0 <= i <= |s| - |part| && StartsWith(s[i..], part) by {
        if rest {
          var i :| 0 <= i <= |s| - 1 - |part| && StartsWith(s[1..][i..], part);
          assert s[1..][i..] == s[i + 1..];
        }
      }
      assert (exists i :: 0 <= i <= |s| - |part| && StartsWith(s[i..], part)) ==> rest by {
        if exists i :: 0 <= i <= |s| - |part| && StartsWith(s[i..], part) {
          var i :| 0 <= i <= |s| - |part| && StartsWith(s[i..], part);
          assert i != 0;
          assert s[1..][i - 1..] == s[i..];
        }
      }
      rest
  }

  /** `s.split(sep)` for a one-character separator: the pieces between separators,
      always at least one (`"".split(" ")` is `[""]`). */
  function Split(s: string, sep: char): (r: seq<string>)
    ensures |r| >= 1
    ensures forall k :: 0 <= k < |r| ==> sep !in r[k]
  {
    if s == [] then [""]
    else
      var rest := Split(s[1..], sep);
      if s[0] == sep then [""] + rest
      else [[s[0]] + rest[0]] + rest[1..]
  }

  /** `parts.join(sep)`. */
  function Join(parts: seq<string>, sep: char): string
    requires |parts| >= 1
  {
    if |parts| == 1 then parts[0] else parts[0] + [sep] + Join(parts[1..], sep)
  }

  /** Splitting loses nothing: joining the pieces gives back the string. */
  lemma {:induction false} JoinSplit(s: string, sep: char)
    ensures Join(Split(s, sep), sep) == s
  {
    if s != [] {
      var rest := Split(s[1..], sep);
      JoinSplit(s[1..], sep);
      if s[0] != sep {
        if |rest| == 1 {
          assert Join(Split(s, sep), sep) == [s[0]] + rest[0];
        } else {
          calc {
            Join(Split(s, sep), sep);
            ([s[0]] + rest[0]) + [sep] + Join(rest[1..], sep);
            [s[0]] + (rest[0] + [sep] + Join(rest[1..], sep));
            [s[0]] + Join(rest, sep);
          }
        }
        assert [s[0]] + s[1..] == s;
      } else {
        assert Split(s, sep)[1..] == rest;
      }
    }
  }

  /** A string with no separator is one piece; a piece followed by the separator is split off. */
  lemma {:induction false} SplitPrefix(x: string, sep: char, y: string)
    requires sep !in x
    ensures Split(x, sep) == [x]
    ensures Split(x + [sep] + y, sep) == [x] + Split(y, sep)
  {
    if x != [] {
      SplitPrefix(x[1..], sep, y);
      assert (x + [sep] + y)[1..] == x[1..] + [sep] + y;
      assert [x[0]] + x[1..] == x;
    } else {
      assert [] + [sep] + y == [sep] + y;
      assert ([sep] + y)[1..] == y;
    }
  }

  /** Joining separator-free pieces and splitting again gives back the pieces. */
  lemma {:induction false} SplitJoin(parts: seq<string>, sep: char)
    requires |parts| >= 1
    requires forall k :: 0 <= k < |parts| ==> sep !in parts[k]
    ensures Split(Join(parts, sep), sep) == parts
  {
    if |parts| == 1 {
      SplitPrefix(parts[0], sep, "");
    } else {
      SplitJoin(parts[1..], sep);
      SplitPrefix(parts[0], sep, Join(parts[1..], sep));
      assert [parts[0]] + parts[1..] == parts;
    }
  }

  /** The digit character for `d`. */
  function DigitChar(d: nat): (c: char)
    requires d < 10
    ensures '0' <= c <= '9'
  {
    ('0' as int + d) as char
  }

  predicate IsDigits(s: string) {
    forall i :: 0 <= i < |s| ==> '0' <= s[i] <= '9'
  }

  /** `String(n)` for a non-negative integer: its decimal digits, most significant first. */
  function NatToString(n: nat): (r: string)
    ensures |r| >= 1 && IsDigits(r)
  {
    if n < 10 then [DigitChar(n)] else NatToString(n / 10) + [DigitChar(n % 10)]
  }

  /** The number a string of decimal digits denotes. */
  function DecimalValue(s: string): nat
    requires IsDigits(s)
  {
    if s == [] then 0 else 10 * DecimalValue(s[..|s| - 1]) + (s[|s| - 1] as int - '0' as int)
  }

  /** Reading the digits back gives the number. */
  lemma {:induction false} DecimalRoundTrip(n: nat)
    ensures DecimalValue(NatToString(n)) == n
  {
    if n >= 10 {
      DecimalRoundTrip(n / 10);
      var s := NatToString(n);
      assert s[..|s| - 1] == NatToString(n / 10);
    }
  }

  function Pow10(k: nat): (p: nat)
    ensures p >= 1
  {
    if k == 0 then 1 else 10 * Pow10(k - 1)
  }

  /** A number with k+1 decimal digits is written with k+1 characters. */
  lemma {:induction false} DecimalLength(n: nat, k: nat)
    requires Pow10(k) <= n < Pow10(k + 1)
    ensures |NatToString(n)| == k + 1
  {
    if k > 0 {
      DecimalLength(n / 10, k - 1);
    }
  }

  /** A positive number is written without a leading zero. */
  lemma {:induction false} NoLeadingZero(n: nat)
    requires n > 0
    ensures NatToString(n)[0] != '0'
  {
    if n >= 10 {
      NoLeadingZero(n / 10);
    }
  }
}
