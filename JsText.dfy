/**
 * The ECMAScript string built-ins that the converter's own logic relies on:
 * String.prototype.trim / includes / startsWith / split (on one character) /
 * toLowerCase, and the global parseInt with radix 10 or 16
 * (ECMA-262, section 19.2.5, "parseInt (string, radix)").
 * Strings are `seq<char>`, sequences of Unicode characters; JavaScript's
 * strings are sequences of UTF-16 code units, so a character outside the
 * Basic Multilingual Plane is one element here where JavaScript counts two.
 */
module JsText {

  datatype Option<T> = None | Some(value: T)

  /** A value, or the message of the error a handler answers with. */
  datatype Result<T> = Ok(value: T) | Err(message: string)

  /** A string-valued field that JavaScript treats as true: present and not empty. */
  predicate Truthy(v: Option<string>)
  {
    v.Some? && v.value != ""
  }

  /** An ECMAScript WhiteSpace or LineTerminator code point (what trim and parseInt skip). */
  predicate IsSpace(c: char)
  {
    || c == '\t' || c == '\n' || c == '\U{000B}' || c == '\U{000C}' || c == '\r'
    || c == ' ' || c == '\U{00A0}' || c == '\U{1680}'
    || ('\U{2000}' <= c <= '\U{200A}')
    || c == '\U{2028}' || c == '\U{2029}' || c == '\U{202F}' || c == '\U{205F}'
    || c == '\U{3000}' || c == '\U{FEFF}'
  }

  /** The part of `s` left after dropping its leading white space. */
  function TrimStart(s: string): (r: string)
    ensures |r| <= |s| && r == s[|s| - |r|..]
    ensures r == [] || !IsSpace(r[0])
    ensures forall i :: 0 <= i < |s| - |r| ==> IsSpace(s[i])
  {
    if s != [] && IsSpace(s[0]) then TrimStart(s[1..]) else s
  }

  /** The part of `s` left after dropping its trailing white space. */
  function TrimEnd(s: string): (r: string)
    ensures |r| <= |s| && r == s[..|r|]
    ensures r == [] || !IsSpace(r[|r| - 1])
    ensures forall i :: |r| <= i < |s| ==> IsSpace(s[i])
  {
    if s != [] && IsSpace(s[|s| - 1]) then TrimEnd(s[..|s| - 1]) else s
  }

  /** String.prototype.trim. */
  function Trim(s: string): (r: string)
    ensures Contains(s, r)
    ensures r == [] || (!IsSpace(r[0]) && !IsSpace(r[|r| - 1]))
  {
    var t := TrimStart(s);
    var r := TrimEnd(t);
    SuffixPrefixOccurs(s, t, r);
    ContainsAt(s, r, |s| - |t|);
    r
  }

  /**
   * Trim removes white space only: the result occurs in the text with nothing
   * but white space before and after it.
   */
  lemma TrimOnlySpace(s: string)
    ensures exists k: nat :: SpaceAround(s, Trim(s), k)
  {
    var t := TrimStart(s);
    assert Trim(s) == TrimEnd(t);
    OnlySpaceAround(s, t, TrimEnd(t));
  }

  /** A prefix `r` of a suffix `t` of `s`, with white space only outside `r`, is surrounded by white space in `s`. */
  lemma OnlySpaceAround(s: string, t: string, r: string)
    requires |t| <= |s| && t == s[|s| - |t|..] && (forall i :: 0 <= i < |s| - |t| ==> IsSpace(s[i]))
    requires |r| <= |t| && r == t[..|r|] && (forall i :: |r| <= i < |t| ==> IsSpace(t[i]))
    ensures exists k: nat :: SpaceAround(s, r, k)
  {
    var k := |s| - |t|;
    forall i | k + |r| <= i < |s| ensures IsSpace(s[i]) {
      assert s[i] == t[i - k];
    }
    assert s[k..k + |r|] == r;
    assert SpaceAround(s, r, k);
  }

  /** `r` occurs in `s` at `k`, with only white space before and after it. */
  predicate SpaceAround(s: string, r: string, k: nat)
  {
    && k + |r| <= |s| && s[k..k + |r|] == r
    && (forall i :: 0 <= i < k ==> IsSpace(s[i]))
    && (forall i :: k + |r| <= i < |s| ==> IsSpace(s[i]))
  }

  /** A prefix of a suffix of `s` occurs in `s` where the suffix starts. */
  lemma SuffixPrefixOccurs(s: string, t: string, r: string)
    requires |t| <= |s| && t == s[|s| - |t|..]
    requires |r| <= |t| && r == t[..|r|]
    ensures OccursAt(s, r, |s| - |t|)
  {
    var k := |s| - |t|;
    assert s[k..][..|r|] == s[k..k + |r|];
  }

  /** Trimming a text without white space leaves it unchanged. */
  lemma TrimNoSpace(s: string)
    requires forall i :: 0 <= i < |s| ==> !IsSpace(s[i])
    ensures Trim(s) == s
  {
    assert TrimStart(s) == s;
  }

  /** String.prototype.startsWith. */
  predicate StartsWith(s: string, prefix: string)
  {
    |prefix| <= |s| && s[..|prefix|] == prefix
  }

  /** String.prototype.includes: `sub` occurs somewhere in `s`. */
  predicate Contains(s: string, sub: string)
    decreases |s|
  {
    StartsWith(s, sub) || (s != [] && Contains(s[1..], sub))
  }

  lemma {:induction false} ContainsAt(s: string, sub: string, k: nat)
    requires k + |sub| <= |s| && s[k..k + |sub|] == sub
    ensures Contains(s, sub)
    decreases k
  {
    if k > 0 {
      assert s[1..][k - 1..k - 1 + |sub|] == sub;
      ContainsAt(s[1..], sub, k - 1);
    }
  }

  lemma ContainsSelf(s: string)
    ensures Contains(s, s)
  {
    assert s[..|s|] == s;
  }

  /** `sub` occurs in `s` starting at index `k`. */
  predicate OccursAt(s: string, sub: string, k: nat)
  {
    k + |sub| <= |s| && s[k..k + |sub|] == sub
  }

  lemma {:induction false} ContainsWitness(s: string, sub: string) returns (k: nat)
    requires Contains(s, sub)
    ensures OccursAt(s, sub, k)
    decreases |s|
  {
    if StartsWith(s, sub) {
      k := 0;
    } else {
      var k' := ContainsWitness(s[1..], sub);
      k := k' + 1;
      assert s[k..k + |sub|] == s[1..][k'..k' + |sub|];
    }
  }

  /** `includes` holds exactly when the text occurs at some position. */
  lemma ContainsIff(s: string, sub: string)
    ensures Contains(s, sub) <==> exists k: nat :: OccursAt(s, sub, k)
  {
    if Contains(s, sub) {
      var k := ContainsWitness(s, sub);
    }
    if exists k: nat :: OccursAt(s, sub, k) {
      var k: nat :| OccursAt(s, sub, k);
      ContainsAt(s, sub, k);
    }
  }

  /** A text shorter than the pattern cannot include it. */
  lemma {:induction false} ShorterNotContains(s: string, sub: string)
    requires |s| < |sub|
    ensures !Contains(s, sub)
    decreases |s|
  {
    if s != [] {
      ShorterNotContains(s[1..], sub);
    }
  }

  /** String.prototype.split with a one-character separator. */
  function Split(s: string, sep: char): (parts: seq<string>)
    ensures |parts| >= 1
    ensures forall i :: 0 <= i < |parts| ==> sep !in parts[i]
    decreases |s|
  {
    if s == [] then [[]]
    else
      var rest := Split(s[1..], sep);
      if s[0] == sep then [[]] + rest
      else [[s[0]] + rest[0]] + rest[1..]
  }

  /** A text holding the separator splits into at least two pieces. */
  lemma {:induction false} SplitAtSeparator(s: string, sep: char)
    requires sep in s
    ensures |Split(s, sep)| >= 2
    decreases |s|
  {
    if s[0] != sep {
      assert s == [s[0]] + s[1..];
      SplitAtSeparator(s[1..], sep);
    }
  }

  /** A text without the separator splits into itself alone. */
  lemma {:induction false} SplitWithoutSeparator(s: string, sep: char)
    requires sep !in s
    ensures Split(s, sep) == [s]
    decreases |s|
  {
    if s != [] {
      SplitWithoutSeparator(s[1..], sep);
      assert [s[0]] + s[1..] == s;
    }
  }

  /** Array.prototype.join with a one-character separator. */
  function Join(parts: seq<string>, sep: char): string
  {
    if |parts| <= 1 then (if parts == [] then [] else parts[0])
    else parts[0] + [sep] + Join(parts[1..], sep)
  }

  /** Joining the pieces of a split gives back the original text. */
  lemma {:induction false} JoinSplit(s: string, sep: char)
    ensures Join(Split(s, sep), sep) == s
    decreases |s|
  {
    if s != [] {
      var rest := Split(s[1..], sep);
      JoinSplit(s[1..], sep);
      if s[0] == sep {
        assert Split(s, sep) == [[]] + rest;
        assert ([[]] + rest)[1..] == rest;
      } else {
        var parts := [[s[0]] + rest[0]] + rest[1..];
        if |rest| > 1 {
          assert parts[1..] == rest[1..];
          assert Join(rest, sep) == rest[0] + [sep] + Join(rest[1..], sep);
        }
      }
    }
  }

  /** Splitting joined pieces that do not hold the separator gives back the pieces. */
  lemma {:induction false} SplitJoin(parts: seq<string>, sep: char)
    requires |parts| >= 1
    requires forall i :: 0 <= i < |parts| ==> sep !in parts[i]
    ensures Split(Join(parts, sep), sep) == parts
    decreases |parts|, |parts[0]|
  {
    var p := parts[0];
    if p == [] {
      if |parts| > 1 {
        var tail := parts[1..];
        SplitJoin(tail, sep);
        SplitAfterSeparator(parts, sep);
      }
    } else {
      var shorter := [p[1..]] + parts[1..];
      assert sep !in p[1..];
      forall i | 0 <= i < |shorter| ensures sep !in shorter[i] {
        if i > 0 { assert shorter[i] == parts[i]; }
      }
      SplitJoin(shorter, sep);
      JoinFirstChar(parts, sep);
      var j := Join(parts, sep);
      assert j == [p[0]] + j[1..];
      SplitCons(p[0], j[1..], sep);
      assert [p[0]] + p[1..] == p;
      assert parts == [p] + shorter[1..];
    }
  }

  lemma SplitAfterSeparator(parts: seq<string>, sep: char)
    requires |parts| > 1 && parts[0] == []
    requires Split(Join(parts[1..], sep), sep) == parts[1..]
    ensures Split(Join(parts, sep), sep) == parts
  {
    var j := Join(parts[1..], sep);
    assert Join(parts, sep) == [sep] + j;
    assert ([sep] + j)[1..] == j;
  }

  /** The join of pieces whose first piece is not empty starts with that piece's first character. */
  lemma JoinFirstChar(parts: seq<string>, sep: char)
    requires |parts| >= 1 && parts[0] != []
    ensures var j := Join(parts, sep);
            j != [] && j[0] == parts[0][0] && j[1..] == Join([parts[0][1..]] + parts[1..], sep)
  {
    var p := parts[0];
    var shorter := [p[1..]] + parts[1..];
    if |parts| > 1 {
      assert shorter[1..] == parts[1..];
      assert Join(parts, sep) == [p[0]] + (p[1..] + [sep] + Join(parts[1..], sep));
    }
  }

  /** A character other than the separator joins the first piece of what follows. */
  lemma SplitCons(c: char, x: string, sep: char)
    requires c != sep
    ensures Split([c] + x, sep) == [[c] + Split(x, sep)[0]] + Split(x, sep)[1..]
  {
    assert ([c] + x)[1..] == x;
  }

  /** The last piece of a split: the text after the final separator, or all of it. */
  function LastPart(s: string, sep: char): (r: string)
    ensures sep !in r
    ensures |r| <= |s| && r == s[|s| - |r|..]
    ensures |r| < |s| ==> s[|s| - |r| - 1] == sep
  {
    var parts := Split(s, sep);
    LastPartSuffix(s, sep);
    parts[|parts| - 1]
  }

  lemma {:induction false} LastPartSuffix(s: string, sep: char)
    ensures var parts := Split(s, sep);
            var r := parts[|parts| - 1];
            && |r| <= |s| && r == s[|s| - |r|..] && (|r| < |s| ==> s[|s| - |r| - 1] == sep)
            && (|parts| == 1 ==> r == s) && (|parts| > 1 ==> |r| < |s|)
    decreases |s|
  {
    if s != [] {
      var rest := Split(s[1..], sep);
      var r' := rest[|rest| - 1];
      LastPartSuffix(s[1..], sep);
      assert s[1..][|s| - 1 - |r'|..] == s[|s| - |r'|..];
      LastPartStep(s, sep);
      var parts := Split(s, sep);
      if s[0] == sep || |rest| > 1 {
        if |r'| < |s| - 1 {
          assert s[1..][|s| - 1 - |r'| - 1] == sep;
        }
      } else {
        assert s == [s[0]] + s[1..];
      }
    }
  }

  /** How the last piece of a split grows when one character is put in front. */
  lemma LastPartStep(s: string, sep: char)
    requires s != []
    ensures var parts := Split(s, sep);
            var rest := Split(s[1..], sep);
            if s[0] == sep || |rest| > 1 then
              |parts| > 1 && parts[|parts| - 1] == rest[|rest| - 1]
            else
              |parts| == 1 && parts[0] == [s[0]] + rest[0]
  {
  }

  /** The index of the last occurrence of `c` in `s`, or -1. */
  function LastIndexOf(s: string, c: char): (r: int)
    ensures -1 <= r < |s|
    ensures r == -1 <==> c !in s
    ensures r >= 0 ==> s[r] == c && c !in s[r + 1..]
  {
    if s == [] then -1
    else if s[|s| - 1] == c then |s| - 1
    else
      var r := LastIndexOf(s[..|s| - 1], c);
      assert s == s[..|s| - 1] + [s[|s| - 1]];
      r
  }

  predicate IsUpperAscii(c: char) { 'A' <= c <= 'Z' }

  function LowerChar(c: char): char
  {
    if IsUpperAscii(c) then (c as int + 32) as char else c
  }

  /**
   * String.prototype.toLowerCase on the ASCII letters: no upper-case letter
   * is left, and exactly the upper-case letters change.
   */
  function ToLower(s: string): (r: string)
    ensures |r| == |s|
    ensures forall i :: 0 <= i < |s| ==> r[i] == LowerChar(s[i])
    ensures forall i :: 0 <= i < |r| ==> !IsUpperAscii(r[i])
    ensures forall i :: 0 <= i < |s| ==> (r[i] == s[i] <==> !IsUpperAscii(s[i]))
  {
    seq(|s|, i requires 0 <= i < |s| => LowerChar(s[i]))
  }

  /** Lower-casing changes no character outside A..Z and leaves no upper-case letter behind. */
  lemma ToLowerIdempotent(s: string)
    ensures ToLower(ToLower(s)) == ToLower(s)
    ensures forall i :: 0 <= i < |s| ==> !IsUpperAscii(ToLower(s)[i])
  {
  }

  // ---------------------------------------------------------------------
  // parseInt

  predicate IsDecimalDigit(c: char) { '0' <= c <= '9' }

  /** The value of `c` as a digit in base `radix`, or -1 when it is not one. */
  function DigitValue(c: char, radix: nat): (v: int)
    requires radix == 10 || radix == 16
    ensures -1 <= v < radix as int
  {
    if '0' <= c <= '9' then c as int - '0' as int
    else if radix == 16 && 'a' <= c <= 'f' then c as int - 'a' as int + 10
    else if radix == 16 && 'A' <= c <= 'F' then c as int - 'A' as int + 10
    else -1
  }

  predicate IsDigit(c: char, radix: nat)
    requires radix == 10 || radix == 16
  {
    DigitValue(c, radix) >= 0
  }

  /** The length of the longest prefix of `s` made of digits in base `radix`. */
  function DigitRun(s: string, radix: nat): (n: nat)
    requires radix == 10 || radix == 16
    ensures n <= |s|
    ensures forall i :: 0 <= i < n ==> IsDigit(s[i], radix)
    ensures n < |s| ==> !IsDigit(s[n], radix)
  {
    if s != [] && IsDigit(s[0], radix) then 1 + DigitRun(s[1..], radix) else 0
  }

  /** The number that a string of digits denotes in base `radix`. */
  function DigitsValue(d: string, radix: nat): nat
    requires radix == 10 || radix == 16
    requires forall i :: 0 <= i < |d| ==> IsDigit(d[i], radix)
  {
    if d == [] then 0
    else
      assert IsDigit(d[|d| - 1], radix);
      DigitsValue(d[..|d| - 1], radix) * radix + DigitValue(d[|d| - 1], radix)
  }

  /**
   * parseInt(s, radix): skip leading white space, read an optional sign,
   * for radix 16 an optional "0x"/"0X", then the longest run of digits.
   * None stands for NaN (no digit at all). Values are exact integers.
   */
  function ParseInt(s: string, radix: nat): Option<int>
    requires radix == 10 || radix == 16
  {
    ParseSigned(TrimStart(s), radix)
  }

  /** parseInt after the leading white space is gone. */
  function ParseSigned(t: string, radix: nat): Option<int>
    requires radix == 10 || radix == 16
  {
    var negative := t != [] && t[0] == '-';
    var u := if t != [] && (t[0] == '-' || t[0] == '+') then t[1..] else t;
    var v := if radix == 16 && |u| >= 2 && u[0] == '0' && (u[1] == 'x' || u[1] == 'X') then u[2..] else u;
    var n := DigitRun(v, radix);
    if n == 0 then None
    else
      var m: int := DigitsValue(v[..n], radix);
      Some(if negative then 0 - m else m)
  }

  // ---------------------------------------------------------------------
  // Decimal rendering, the inverse of parseInt on non-negative numbers

  function DecimalDigit(d: nat): char
    requires d < 10
  {
    ('0' as int + d) as char
  }

  /** The decimal digits of `n` (what String(n) gives for a non-negative integer). */
  function NatToString(n: nat): (s: string)
    ensures |s| >= 1
    ensures forall i :: 0 <= i < |s| ==> IsDecimalDigit(s[i])
    decreases n
  {
    if n < 10 then [DecimalDigit(n)] else NatToString(n / 10) + [DecimalDigit(n % 10)]
  }

  lemma {:induction false} NatToStringValue(n: nat)
    ensures forall i :: 0 <= i < |NatToString(n)| ==> IsDigit(NatToString(n)[i], 10)
    ensures DigitsValue(NatToString(n), 10) == n
    decreases n
  {
    var s := NatToString(n);
    if n >= 10 {
      NatToStringValue(n / 10);
      assert s[..|s| - 1] == NatToString(n / 10);
    }
  }

  lemma {:induction false} DigitRunPrefix(d: string, rest: string, radix: nat)
    requires radix == 10 || radix == 16
    requires forall i :: 0 <= i < |d| ==> IsDigit(d[i], radix)
    requires rest == [] || !IsDigit(rest[0], radix)
    ensures DigitRun(d + rest, radix) == |d|
    decreases |d|
  {
    if d != [] {
      assert (d + rest)[1..] == d[1..] + rest;
      DigitRunPrefix(d[1..], rest, radix);
    }
  }

  /**
   * parseInt reads a rendered number back, and stops at the first non-digit:
   * parseInt(String(n) + rest, 10) is n whenever `rest` does not start with a digit.
   */
  lemma ParseIntNatToString(n: nat, rest: string)
    requires rest == [] || !IsDecimalDigit(rest[0])
    ensures ParseInt(NatToString(n) + rest, 10) == Some(n)
  {
    var d := NatToString(n);
    var s := d + rest;
    NatToStringValue(n);
    assert s[0] == d[0];
    assert !IsSpace(s[0]);
    assert TrimStart(s) == s;
    DigitRunPrefix(d, rest, 10);
    ParseUnsignedDecimal(s);
    assert s[..|d|] == d;
  }

  /** A text that starts with a decimal digit has no sign and reads as its run of digits. */
  lemma ParseUnsignedDecimal(t: string)
    requires t != [] && IsDecimalDigit(t[0])
    ensures DigitRun(t, 10) >= 1
    ensures ParseSigned(t, 10) == Some(DigitsValue(t[..DigitRun(t, 10)], 10))
  {
    assert IsDigit(t[0], 10);
  }

  /** Leading white space never changes what parseInt reads. */
  lemma ParseIntSkipsSpace(ws: string, s: string, radix: nat)
    requires radix == 10 || radix == 16
    requires forall i :: 0 <= i < |ws| ==> IsSpace(ws[i])
    ensures ParseInt(ws + s, radix) == ParseInt(s, radix)
  {
    TrimStartSpaces(ws, s);
  }

  lemma {:induction false} TrimStartSpaces(ws: string, s: string)
    requires forall i :: 0 <= i < |ws| ==> IsSpace(ws[i])
    ensures TrimStart(ws + s) == TrimStart(s)
    decreases |ws|
  {
    if ws == [] {
      assert ws + s == s;
    } else {
      var t := ws + s;
      assert t[1..] == ws[1..] + s;
      assert t[0] == ws[0];
      assert forall i :: 0 <= i < |ws| - 1 ==> ws[1..][i] == ws[i + 1];
      TrimStartSpaces(ws[1..], s);
    }
  }

  /** A text with no digit at all reads as NaN. */
  lemma ParseIntNoDigits(s: string, radix: nat)
    requires radix == 10 || radix == 16
    requires forall i :: 0 <= i < |s| ==> !IsDigit(s[i], radix)
    ensures ParseInt(s, radix) == None
  {
    var t := TrimStart(s);
    var k := |s| - |t|;
    if t != [] {
      assert t[0] == s[k];
    }
    if |t| >= 2 {
      assert t[1] == s[k + 1];
    }
    ParseSignedNoDigit(t, radix);
  }

  /** parseInt finds no digit when neither the first character nor the one after a sign is one. */
  lemma ParseSignedNoDigit(t: string, radix: nat)
    requires radix == 10 || radix == 16
    requires t == [] || !IsDigit(t[0], radix)
    requires |t| >= 2 ==> !IsDigit(t[1], radix)
    ensures ParseSigned(t, radix) == None
  {
    var u := if t != [] && (t[0] == '-' || t[0] == '+') then t[1..] else t;
    assert u == [] || !IsDigit(u[0], radix);
    assert DigitRun(u, radix) == 0;
  }
}
