/**
 * The JavaScript string built-ins the parsers rely on: `String.prototype.split`
 * and `Array.prototype.join` with a string separator, and the global
 * `parseInt(string, radix)` for the radixes 10 and 16.
 */
module JsText {
  import opened Wrappers

  /** `sep` occurs in `s` at position `i` (its characters from `j` on match). */
  predicate MatchAt(s: string, sep: string, i: nat, j: nat)
    decreases |sep| - j
  {
    j >= |sep| || (i + j < |s| && s[i + j] == sep[j] && MatchAt(s, sep, i, j + 1))
  }

  /**
   * `s.split(sep)`: scanning left to right, every non-overlapping occurrence of
   * `sep` ends a part; there is always at least one part.
   */
  function Split(s: string, sep: string): (parts: seq<string>)
    requires |sep| > 0
    ensures |parts| >= 1
  {
    SplitFrom(s, sep, 0, 0)
  }

  /** The scan of `Split`: the current part started at `start`, the scan is at `i`. */
  function SplitFrom(s: string, sep: string, start: nat, i: nat): (parts: seq<string>)
    requires start <= i <= |s| && |sep| > 0
    ensures |parts| >= 1
    decreases |s| - i
  {
    if i + |sep| > |s| then [s[start..]]
    else if MatchAt(s, sep, i, 0) then [s[start..i]] + SplitFrom(s, sep, i + |sep|, i + |sep|)
    else SplitFrom(s, sep, start, i + 1)
  }

  /** `parts.join(sep)`. */
  function Join(parts: seq<string>, sep: string): string
  {
    if |parts| == 0 then ""
    else if |parts| == 1 then parts[0]
    else parts[0] + sep + Join(parts[1..], sep)
  }

  lemma {:induction false} MatchAtSlice(s: string, sep: string, i: nat, j: nat)
    requires j <= |sep| && MatchAt(s, sep, i, j)
    requires i + |sep| <= |s|
    ensures s[i + j..i + |sep|] == sep[j..]
    decreases |sep| - j
  {
    if j < |sep| {
      MatchAtSlice(s, sep, i, j + 1);
      assert s[i + j..i + |sep|] == [s[i + j]] + s[i + j + 1..i + |sep|];
      assert sep[j..] == [sep[j]] + sep[j + 1..];
    }
  }

  lemma {:induction false} JoinSplitFrom(s: string, sep: string, start: nat, i: nat)
    requires start <= i <= |s| && |sep| > 0
    ensures Join(SplitFrom(s, sep, start, i), sep) == s[start..]
    decreases |s| - i
  {
    if i + |sep| > |s| {
    } else if MatchAt(s, sep, i, 0) {
      var rest := SplitFrom(s, sep, i + |sep|, i + |sep|);
      JoinSplitFrom(s, sep, i + |sep|, i + |sep|);
      MatchAtSlice(s, sep, i, 0);
      assert [s[start..i]] + rest == [s[start..i]] + rest;
      assert s[start..] == s[start..i] + s[i..i + |sep|] + s[i + |sep|..];
    } else {
      JoinSplitFrom(s, sep, start, i + 1);
    }
  }

  /** Joining the parts of a split with the same separator gives the string back. */
  lemma JoinSplit(s: string, sep: string)
    requires |sep| > 0
    ensures Join(Split(s, sep), sep) == s
  {
    JoinSplitFrom(s, sep, 0, 0);
  }

  // Single-character separators: splitting undoes joining.

  lemma {:induction false} SplitSkip(s: string, c: char, start: nat, i: nat, j: nat)
    requires start <= i <= j <= |s|
    requires forall k :: i <= k < j ==> s[k] != c
    ensures SplitFrom(s, [c], start, i) == SplitFrom(s, [c], start, j)
    decreases j - i
  {
    if i < j {
      assert !MatchAt(s, [c], i, 0) by {
        assert s[i] != c;
      }
      SplitSkip(s, c, start, i + 1, j);
    }
  }

  lemma {:induction false} MatchAtShift(x: string, y: string, sep: string, b: nat, j: nat)
    ensures MatchAt(x + y, sep, |x| + b, j) == MatchAt(y, sep, b, j)
    decreases |sep| - j
  {
    if j < |sep| {
      MatchAtShift(x, y, sep, b, j + 1);
      if |x| + b + j < |x + y| {
        assert (x + y)[|x| + b + j] == y[b + j];
      }
    }
  }

  lemma {:induction false} SplitShift(x: string, y: string, sep: string, a: nat, b: nat)
    requires a <= b <= |y| && |sep| > 0
    ensures SplitFrom(x + y, sep, |x| + a, |x| + b) == SplitFrom(y, sep, a, b)
    decreases |y| - b
  {
    var s := x + y;
    MatchAtShift(x, y, sep, b, 0);
    if b + |sep| > |y| {
      assert s[|x| + a..] == y[a..];
    } else if MatchAt(y, sep, b, 0) {
      assert s[|x| + a..|x| + b] == y[a..b];
      SplitShift(x, y, sep, b + |sep|, b + |sep|);
    } else {
      SplitShift(x, y, sep, a, b + 1);
    }
  }

  lemma SplitNoSep(p: string, c: char)
    requires c !in p
    ensures Split(p, [c]) == [p]
  {
    SplitSkip(p, c, 0, 0, |p|);
  }

  lemma SplitCons(p: string, c: char, t: string)
    requires c !in p
    ensures Split(p + [c] + t, [c]) == [p] + Split(t, [c])
  {
    var s := p + [c] + t;
    assert forall k :: 0 <= k < |p| ==> s[k] == p[k];
    SplitSkip(s, c, 0, 0, |p|);
    assert MatchAt(s, [c], |p|, 0) by {
      assert s[|p|] == c;
      assert MatchAt(s, [c], |p|, 1);
    }
    assert s[..|p|] == p;
    assert s == (p + [c]) + t;
    SplitShift(p + [c], t, [c], 0, 0);
  }

  /** Splitting on `c` undoes joining with `c` when no part contains `c`. */
  lemma {:induction false} SplitJoin(parts: seq<string>, c: char)
    requires |parts| >= 1
    requires forall i :: 0 <= i < |parts| ==> c !in parts[i]
    ensures Split(Join(parts, [c]), [c]) == parts
  {
    if |parts| == 1 {
      SplitNoSep(parts[0], c);
    } else {
      SplitJoin(parts[1..], c);
      SplitCons(parts[0], c, Join(parts[1..], [c]));
      assert parts == [parts[0]] + parts[1..];
    }
  }

  lemma {:induction false} SplitFromNoSep(s: string, c: char, start: nat, i: nat)
    requires start <= i <= |s|
    requires forall k :: start <= k < i ==> s[k] != c
    ensures forall p :: p in SplitFrom(s, [c], start, i) ==> c !in p
    decreases |s| - i
  {
    if i + 1 > |s| {
    } else if MatchAt(s, [c], i, 0) {
      SplitFromNoSep(s, c, i + 1, i + 1);
    } else {
      assert MatchAt(s, [c], i, 1);
      assert s[i] != c;
      SplitFromNoSep(s, c, start, i + 1);
    }
  }

  /** No part of a split on `c` contains `c`. */
  lemma SplitPartsNoSep(s: string, c: char)
    ensures forall p :: p in Split(s, [c]) ==> c !in p
  {
    SplitFromNoSep(s, c, 0, 0);
  }

  // Separators of any length: the first occurrence decides.

  lemma {:induction false} SplitSkipSep(s: string, sep: string, start: nat, i: nat, j: nat)
    requires start <= i <= j <= |s| && |sep| > 0
    requires forall k :: i <= k < j ==> !MatchAt(s, sep, k, 0)
    ensures SplitFrom(s, sep, start, i) == SplitFrom(s, sep, start, j)
    decreases j - i
  {
    if i < j && i + |sep| <= |s| {
      SplitSkipSep(s, sep, start, i + 1, j);
    }
  }

  lemma {:induction false} MatchAtPrefix(sep: string, t: string, j: nat)
    requires j <= |sep|
    ensures MatchAt(sep + t, sep, 0, j)
    decreases |sep| - j
  {
    if j < |sep| {
      MatchAtPrefix(sep, t, j + 1);
      assert (sep + t)[j] == sep[j];
    }
  }

  /** When `sep` does not start inside `p`, splitting `p + sep + t` ends the first part right after `p`. */
  lemma SplitFirst(p: string, sep: string, t: string)
    requires |sep| > 0
    requires forall k :: 0 <= k < |p| ==> !MatchAt(p + sep + t, sep, k, 0)
    ensures Split(p + sep + t, sep) == [p] + Split(t, sep)
  {
    var s := p + sep + t;
    SplitSkipSep(s, sep, 0, 0, |p|);
    assert s == p + (sep + t);
    MatchAtShift(p, sep + t, sep, 0, 0);
    MatchAtPrefix(sep, t, 0);
    assert s[..|p|] == p;
    assert s == (p + sep) + t;
    SplitShift(p + sep, t, sep, 0, 0);
  }

  /** A string in which `sep` never starts splits into itself alone. */
  lemma SplitNoMatch(s: string, sep: string)
    requires |sep| > 0
    requires forall k :: 0 <= k < |s| ==> !MatchAt(s, sep, k, 0)
    ensures Split(s, sep) == [s]
  {
    SplitSkipSep(s, sep, 0, 0, |s|);
  }

  // parseInt

  /** The characters ECMAScript's TrimString removes: WhiteSpace and LineTerminator. */
  predicate IsJsWhiteSpace(c: char)
  {
    c == '\t' || c == '\n' || c == '\U{000B}' || c == '\U{000C}' || c == '\r' || c == ' '
    || c == '\U{00A0}' || c == '\U{1680}' || ('\U{2000}' <= c <= '\U{200A}')
    || c == '\U{2028}' || c == '\U{2029}' || c == '\U{202F}' || c == '\U{205F}'
    || c == '\U{3000}' || c == '\U{FEFF}'
  }

  function TrimStart(s: string): (t: string)
    ensures |t| <= |s|
  {
    if s != [] && IsJsWhiteSpace(s[0]) then TrimStart(s[1..]) else s
  }

  /** The digit a character stands for in radix 36 (36 for a non-digit). */
  function DigitValue(c: char): nat
  {
    if '0' <= c <= '9' then c as nat - '0' as nat
    else if 'a' <= c <= 'z' then c as nat - 'a' as nat + 10
    else if 'A' <= c <= 'Z' then c as nat - 'A' as nat + 10
    else 36
  }

  predicate AllDigits(s: string, radix: nat)
  {
    s == [] || (DigitValue(s[0]) < radix && AllDigits(s[1..], radix))
  }

  /** The length of the longest prefix of `s` made of digits of `radix`. */
  function DigitRun(s: string, radix: nat): (n: nat)
    ensures n <= |s|
    ensures AllDigits(s[..n], radix)
    ensures n < |s| ==> DigitValue(s[n]) >= radix
  {
    if s != [] && DigitValue(s[0]) < radix then
      var n := 1 + DigitRun(s[1..], radix);
      assert s[..n][1..] == s[1..][..n - 1];
      n
    else 0
  }

  /** The value of a digit string in `radix`, most significant digit first. */
  function DigitsValue(s: string, radix: nat): nat
  {
    if s == [] then 0
    else DigitsValue(s[..|s| - 1], radix) * radix + (var d := DigitValue(s[|s| - 1]); if d < radix then d else 0)
  }

  function SkipSign(t: string): string
  {
    if t != [] && (t[0] == '-' || t[0] == '+') then t[1..] else t
  }

  /** For radix 16 `parseInt` also drops a leading `0x` or `0X`. */
  function SkipHexPrefix(u: string, radix: nat): string
  {
    if radix == 16 && |u| >= 2 && u[0] == '0' && (u[1] == 'x' || u[1] == 'X') then u[2..] else u
  }

  /** The value of the longest leading digit run, `None` when there is none. */
  function LeadingDigits(w: string, radix: nat): Option<nat>
  {
    var n := DigitRun(w, radix);
    if n == 0 then None else Some(DigitsValue(w[..n], radix))
  }

  /**
   * `parseInt(s, radix)` for radix 10 or 16: skip leading white space, read an
   * optional sign, for radix 16 an optional `0x`/`0X`, then the longest run of
   * digits; `None` is NaN (no digit at all). `-0` is returned as 0, which is
   * how every caller treats it.
   */
  function ParseInt(s: string, radix: nat): Option<int>
    requires radix == 10 || radix == 16
  {
    var t := TrimStart(s);
    var negative := t != [] && t[0] == '-';
    match LeadingDigits(SkipHexPrefix(SkipSign(t), radix), radix)
    case None => None
    case Some(v) => if negative then Some(-(v as int)) else Some(v)
  }

  lemma {:induction false} DigitRunAll(s: string, radix: nat)
    requires AllDigits(s, radix)
    ensures DigitRun(s, radix) == |s|
  {
    if s != [] {
      DigitRunAll(s[1..], radix);
    }
  }

  /** A digit is neither white space nor a sign. */
  lemma DigitIsPlain(c: char)
    requires DigitValue(c) < 36
    ensures !IsJsWhiteSpace(c) && c != '-' && c != '+'
  {
  }

  /** A string that starts with a digit (and, for radix 16, not with `0x`) is read from its first character. */
  lemma ParseIntFromStart(s: string, radix: nat)
    requires radix == 10 || radix == 16
    requires s != [] && DigitValue(s[0]) < radix
    requires radix == 16 && |s| >= 2 && s[0] == '0' ==> s[1] != 'x' && s[1] != 'X'
    ensures ParseInt(s, radix) == LeadingDigits(s, radix)
  {
    DigitIsPlain(s[0]);
    assert TrimStart(s) == s;
    assert SkipSign(s) == s;
    assert SkipHexPrefix(s, radix) == s;
  }

  /** A plain, non-empty digit string parses to its value. */
  lemma ParseIntDigits(s: string, radix: nat)
    requires radix == 10 || radix == 16
    requires s != [] && AllDigits(s, radix)
    ensures ParseInt(s, radix) == Some(DigitsValue(s, radix))
  {
    if |s| >= 2 {
      assert AllDigits(s[1..], radix);
      assert s[1..][0] == s[1];
      assert DigitValue(s[1]) < radix;
    }
    ParseIntFromStart(s, radix);
    DigitRunAll(s, radix);
    assert s[..|s|] == s;
  }

  /** A string with no digit where parsing starts is NaN; in particular the empty string. */
  lemma ParseIntNoDigit(s: string, radix: nat)
    requires radix == 10 || radix == 16
    requires s == [] || (!IsJsWhiteSpace(s[0]) && s[0] != '-' && s[0] != '+' && DigitValue(s[0]) >= radix)
    ensures ParseInt(s, radix) == None
  {
  }

  /** `parseInt` reads a digit run and stops at the first non-digit: "3/24" reads as 3. */
  lemma ParseIntStopsAtNonDigit(d: string, rest: string, radix: nat)
    requires radix == 10 || radix == 16
    requires d != [] && AllDigits(d, radix)
    requires rest != [] && DigitValue(rest[0]) >= radix
    requires radix == 16 ==> !(d == "0" && (rest[0] == 'x' || rest[0] == 'X'))
    ensures ParseInt(d + rest, radix) == Some(DigitsValue(d, radix))
  {
    var s := d + rest;
    assert s[0] == d[0];
    if |d| >= 2 {
      assert AllDigits(d[1..], radix);
      assert d[1..][0] == d[1] == s[1];
      assert DigitValue(s[1]) < radix;
    } else {
      assert s[1] == rest[0];
    }
    ParseIntFromStart(s, radix);
    DigitRunPrefix(d, rest, radix);
    assert s[..|d|] == d;
  }

  lemma {:induction false} DigitRunPrefix(d: string, rest: string, radix: nat)
    requires AllDigits(d, radix)
    requires rest != [] && DigitValue(rest[0]) >= radix
    ensures DigitRun(d + rest, radix) == |d|
  {
    if d == [] {
      assert d + rest == rest;
    } else {
      assert (d + rest)[1..] == d[1..] + rest;
      DigitRunPrefix(d[1..], rest, radix);
    }
  }

  /** A plain decimal numeral (digits only, leading zeros allowed) whose value is at most `max`. */
  predicate IsDecimalAtMost(t: string, max: nat)
  {
    t != [] && AllDigits(t, 10) && DigitsValue(t, 10) <= max
  }

  /** A digit string contains no character that is not a digit of its radix (a separator such as '.', ':' or '/'). */
  lemma {:induction false} AllDigitsExcludes(s: string, radix: nat, c: char)
    requires AllDigits(s, radix) && DigitValue(c) >= radix
    ensures c !in s
  {
    if s != [] {
      AllDigitsExcludes(s[1..], radix, c);
      assert s == [s[0]] + s[1..];
    }
  }

  /** The digit character of `d` (lower-case letters from ten on). */
  function DigitChar(d: nat): (c: char)
    requires d < 36
    ensures DigitValue(c) == d
  {
    if d < 10 then ('0' as int + d) as char else ('a' as int + d - 10) as char
  }

  lemma {:induction false} AllDigitsSnoc(s: string, c: char, radix: nat)
    requires AllDigits(s, radix) && DigitValue(c) < radix
    ensures AllDigits(s + [c], radix)
  {
    if s != [] {
      assert (s + [c])[1..] == s[1..] + [c];
      AllDigitsSnoc(s[1..], c, radix);
    }
  }

  /** The numeral of `n` in `radix`, written without leading zeros: what `n.toString(radix)` gives. */
  function Numeral(n: nat, radix: nat): (t: string)
    requires 2 <= radix <= 36
    ensures t != [] && AllDigits(t, radix) && DigitsValue(t, radix) == n
    decreases n
  {
    if n < radix then [DigitChar(n)]
    else
      var high, low := n / radix, n % radix;
      LastDigit(n, radix);
      var t := Numeral(high, radix) + [DigitChar(low)];
      assert t[..|t| - 1] == Numeral(high, radix);
      AllDigitsSnoc(Numeral(high, radix), DigitChar(low), radix);
      t
  }

  lemma LastDigit(n: nat, radix: nat)
    requires 2 <= radix <= n
    ensures n == n / radix * radix + n % radix && n % radix < radix && n / radix < n
  {
  }
}
