/** The JavaScript string operations the site relies on, on `seq<char>`. */
module Strings {
  import opened Wrappers

  /** `s.startsWith(p)` */
  predicate StartsWith(s: string, p: string) {
    |p| <= |s| && s[..|p|] == p
  }

  /** `s.includes(t)`: t occurs somewhere in s (the empty string occurs everywhere). */
  predicate Contains(s: string, t: string) {
    exists i | 0 <= i <= |s| - |t| :: StartsWith(s[i..], t)
  }

  /** `t` occurs in `s` at a position `j >= from`. */
  predicate ContainsFrom(s: string, t: string, from: nat) {
    exists j | from <= j <= |s| - |t| :: StartsWith(s[j..], t)
  }

  lemma ContainsAt(s: string, t: string, i: nat)
    requires i + |t| <= |s| && s[i..i + |t|] == t
    ensures Contains(s, t)
  {
    assert StartsWith(s[i..], t);
  }

  lemma PrefixOfConcat(x: string, y: string)
    ensures StartsWith(x + y, x)
  {
    assert (x + y)[..|x|] == x;
  }

  lemma PrefixOfPrefix(m: string, x: string, y: string)
    requires StartsWith(m, x + y)
    ensures StartsWith(m, x)
  {
    assert m[..|x|] == (m[..|x| + |y|])[..|x|];
  }

  /** A piece that follows a known prefix sits right after it. */
  lemma PieceAfter(m: string, x: string, b: string)
    requires StartsWith(m, x + b)
    ensures m[|x|..|x| + |b|] == b && Contains(m, b)
  {
    assert m[|x|..|x| + |b|] == (m[..|x| + |b|])[|x|..];
    ContainsAt(m, b, |x|);
  }

  // ---------------------------------------------------------------------------
  // split / join

  /** `s.split(c)` for a one-character separator: the pieces between the occurrences of `c`. */
  function Split(s: string, c: char): (pieces: seq<string>)
    ensures |pieces| >= 1
    ensures forall k | 0 <= k < |pieces| :: c !in pieces[k]
  {
    if s == [] then [[]]
    else
      var rest := Split(s[1..], c);
      if s[0] == c then [[]] + rest
      else [[s[0]] + rest[0]] + rest[1..]
  }

  /** A string without the separator is a single piece. */
  lemma {:induction false} SplitWithout(s: string, c: char)
    requires c !in s
    ensures Split(s, c) == [s]
  {
    if s != [] {
      SplitWithout(s[1..], c);
      assert s == [s[0]] + s[1..];
    }
  }

  /** The part before the first separator is the first piece; the rest is split further. */
  lemma {:induction false} SplitAt(p: string, c: char, rest: string)
    requires c !in p
    ensures Split(p + [c] + rest, c) == [p] + Split(rest, c)
  {
    if p != [] {
      assert (p + [c] + rest)[1..] == p[1..] + [c] + rest;
      SplitAt(p[1..], c, rest);
      assert p == [p[0]] + p[1..];
    }
  }

  /** A string with one separator splits into the two parts around it. */
  lemma SplitOnce(p: string, c: char, rest: string)
    requires c !in p && c !in rest
    ensures Split(p + [c] + rest, c) == [p, rest]
  {
    SplitAt(p, c, rest);
    SplitWithout(rest, c);
  }

  /** `pieces.join(c)` */
  function Join(pieces: seq<string>, c: char): string
    requires |pieces| >= 1
  {
    if |pieces| == 1 then pieces[0] else pieces[0] + [c] + Join(pieces[1..], c)
  }

  /** Splitting and joining again on the same separator gives the string back. */
  lemma {:induction false} JoinSplit(s: string, c: char)
    ensures Join(Split(s, c), c) == s
  {
    if s != [] {
      var rest := Split(s[1..], c);
      JoinSplit(s[1..], c);
      if s[0] == c {
        assert Split(s, c)[1..] == rest;
      } else {
        var p := Split(s, c);
        assert p[1..] == rest[1..];
        if |rest| == 1 {
          assert Join(p, c) == [s[0]] + rest[0];
        } else {
          assert rest == [rest[0]] + rest[1..];
          assert Join(rest, c) == rest[0] + [c] + Join(rest[1..], c);
          assert Join(p, c) == [s[0]] + rest[0] + [c] + Join(rest[1..], c);
        }
      }
    }
  }

  /** `s.split(c)[0]`: the longest prefix of `s` without `c`. */
  function BeforeFirst(s: string, c: char): string {
    Split(s, c)[0]
  }

  /** The first piece is a prefix of the input, without `c`, and is followed by `c` when `c` occurs. */
  lemma {:induction false} BeforeFirstIsPrefix(s: string, c: char)
    ensures StartsWith(s, BeforeFirst(s, c)) && c !in BeforeFirst(s, c)
    ensures |BeforeFirst(s, c)| < |s| <==> c in s
    ensures c in s ==> s[|BeforeFirst(s, c)|] == c
  {
    if s != [] && s[0] != c {
      BeforeFirstIsPrefix(s[1..], c);
      assert BeforeFirst(s, c) == [s[0]] + BeforeFirst(s[1..], c);
    }
  }

  /** A prefix of `s` that has no `c` and is followed by `c` (or ends `s`) is `s.split(c)[0]`. */
  lemma {:induction false} BeforeFirstOf(p: string, c: char, rest: string)
    requires c !in p
    requires rest == [] || rest[0] == c
    ensures BeforeFirst(p + rest, c) == p
  {
    if p == [] {
    } else {
      assert (p + rest)[1..] == p[1..] + rest;
      BeforeFirstOf(p[1..], c, rest);
    }
  }

  // ---------------------------------------------------------------------------
  // trim and case

  /** The white space `String.prototype.trim` removes (the common part of it). */
  predicate IsSpace(ch: char) {
    ch == ' ' || ch == '\t' || ch == '\n' || ch == '\r' || ch == '\U{0B}' || ch == '\U{0C}'
    || ch == '\U{A0}' || ch == '\U{FEFF}' || ch == '\U{2028}' || ch == '\U{2029}'
  }

  function TrimStart(s: string): (r: string)
    ensures |r| <= |s| && s[|s| - |r|..] == r
    ensures r == [] || !IsSpace(r[0])
  {
    if s != [] && IsSpace(s[0]) then TrimStart(s[1..]) else s
  }

  function TrimEnd(s: string): (r: string)
    ensures StartsWith(s, r)
    ensures r == [] || !IsSpace(r[|r| - 1])
  {
    if s != [] && IsSpace(s[|s| - 1]) then TrimEnd(s[..|s| - 1]) else s
  }

  /** `s.trim()` */
  function Trim(s: string): string {
    TrimEnd(TrimStart(s))
  }

  /** A string that neither starts nor ends with white space is its own trim. */
  lemma TrimNoSpace(s: string)
    requires s == [] || (!IsSpace(s[0]) && !IsSpace(s[|s| - 1]))
    ensures Trim(s) == s
  {
  }

  function LowerChar(ch: char): char {
    if 'A' <= ch <= 'Z' then (ch as int + 32) as char else ch
  }

  /** `s.toLowerCase()` on the ASCII letters. */
  function ToLower(s: string): (r: string)
    ensures |r| == |s|
    ensures forall i | 0 <= i < |s| :: r[i] == LowerChar(s[i])
  {
    seq(|s|, i requires 0 <= i < |s| => LowerChar(s[i]))
  }

  /** A string of lower-case letters, digits and punctuation is unchanged by `toLowerCase`. */
  lemma ToLowerFixed(s: string)
    requires forall i | 0 <= i < |s| :: !('A' <= s[i] <= 'Z')
    ensures ToLower(s) == s
  {
  }

  /** Lower-casing both sides keeps an occurrence: `s.includes(t)` implies the lower-cased test. */
  lemma ToLowerKeepsContains(s: string, t: string)
    ensures Contains(s, t) ==> Contains(ToLower(s), ToLower(t))
  {
    if !Contains(s, t) { return; }
    var i :| 0 <= i <= |s| - |t| && StartsWith(s[i..], t);
    var ls, lt := ToLower(s), ToLower(t);
    forall j | 0 <= j < |t|
      ensures ls[i + j] == lt[j]
    {
      assert s[i + j] == s[i..][j] == t[j];
    }
    assert ls[i..i + |lt|] == lt;
    ContainsAt(ls, lt, i);
  }

  // ---------------------------------------------------------------------------
  // numbers as decimal text

  predicate IsDigit(ch: char) {
    '0' <= ch <= '9'
  }

  predicate AllDigits(s: string) {
    forall i | 0 <= i < |s| :: IsDigit(s[i])
  }

  function DigitChar(d: nat): (ch: char)
    requires d < 10
    ensures IsDigit(ch) && ch as int - '0' as int == d
  {
    ('0' as int + d) as char
  }

  /** The value of a string of decimal digits, most significant first. */
  function DigitsValue(s: string): nat
    requires AllDigits(s)
  {
    if s == [] then 0 else DigitsValue(s[..|s| - 1]) * 10 + (s[|s| - 1] as int - '0' as int)
  }

  /** `String(n)` for a non-negative integer */
  function NatToString(n: nat): (s: string)
    ensures s != [] && AllDigits(s)
    ensures n >= 10 ==> s[0] != '0'
  {
    if n < 10 then [DigitChar(n)] else NatToString(n / 10) + [DigitChar(n % 10)]
  }

  /** `String(i)` for an integer */
  function IntToString(i: int): (s: string)
    ensures s != []
  {
    if i < 0 then "-" + NatToString(-i) else NatToString(i)
  }

  /** Decimal text reads back as the number it was written from. */
  lemma {:induction false} NatToStringValue(n: nat)
    ensures DigitsValue(NatToString(n)) == n
  {
    if n >= 10 {
      NatToStringValue(n / 10);
      var s := NatToString(n);
      assert s[..|s| - 1] == NatToString(n / 10);
    }
  }

  /** Distinct numbers are written differently, so `String` is injective. */
  lemma NatToStringInjective(m: nat, n: nat)
    requires NatToString(m) == NatToString(n)
    ensures m == n
  {
    NatToStringValue(m);
    NatToStringValue(n);
  }

  /** `String` on integers is injective too: a minus sign is not a digit. */
  lemma IntToStringInjective(i: int, j: int)
    requires IntToString(i) == IntToString(j)
    ensures i == j
  {
    if i < 0 && j < 0 {
      assert NatToString(-i) == IntToString(i)[1..];
      NatToStringInjective(-i, -j);
    } else if i >= 0 && j >= 0 {
      NatToStringInjective(i, j);
    }
  }

  predicate IsHexDigit(ch: char) {
    IsDigit(ch) || 'a' <= ch <= 'f' || 'A' <= ch <= 'F'
  }

  function HexDigitValue(ch: char): nat
    requires IsHexDigit(ch)
  {
    if IsDigit(ch) then ch as int - '0' as int
    else if 'a' <= ch <= 'f' then ch as int - 'a' as int + 10
    else ch as int - 'A' as int + 10
  }

  function HexValue(s: string): nat
    requires forall i | 0 <= i < |s| :: IsHexDigit(s[i])
  {
    if s == [] then 0 else HexValue(s[..|s| - 1]) * 16 + HexDigitValue(s[|s| - 1])
  }

  /** The longest prefix of `s` made of characters satisfying `p`. */
  function LeadingWhile(s: string, p: char -> bool): (r: string)
    ensures StartsWith(s, r)
    ensures forall i | 0 <= i < |r| :: p(r[i])
    ensures |r| < |s| ==> !p(s[|r|])
  {
    if s != [] && p(s[0]) then [s[0]] + LeadingWhile(s[1..], p) else []
  }

  lemma {:induction false} LeadingWhileAll(s: string, p: char -> bool)
    requires forall i | 0 <= i < |s| :: p(s[i])
    ensures LeadingWhile(s, p) == s
  {
    if s != [] {
      LeadingWhileAll(s[1..], p);
    }
  }

  /**
   * `parseInt(s)` with no radix: leading white space, an optional sign, then the longest run of
   * decimal digits (hexadecimal after a `0x` / `0X` prefix); `None` stands for `NaN`.
   */
  function ParseInt(s: string): (r: Option<int>)
  {
    var t := TrimStart(s);
    var neg := t != [] && t[0] == '-';
    var u := if t != [] && (t[0] == '-' || t[0] == '+') then t[1..] else t;
    var magnitude: Option<int> :=
      if |u| >= 2 && u[0] == '0' && (u[1] == 'x' || u[1] == 'X') then
        var h := LeadingWhile(u[2..], IsHexDigit);
        if h == [] then None else Some(HexValue(h))
      else
        var d := LeadingWhile(u, IsDigit);
        if d == [] then None else Some(DigitsValue(d));
    match magnitude
    case None => None
    case Some(m) => Some(if neg then -m else m)
  }

  /** A non-empty run of decimal digits parses as its value. */
  lemma ParseIntDigits(s: string)
    requires s != [] && AllDigits(s)
    ensures ParseInt(s) == Some(DigitsValue(s))
  {
    assert !IsSpace(s[0]);
    assert TrimStart(s) == s;
    assert |s| >= 2 ==> IsDigit(s[1]);
    LeadingWhileAll(s, IsDigit);
  }

  /** `parseInt(String(n)) == n` */
  lemma ParseIntNatToString(n: nat)
    ensures ParseInt(NatToString(n)) == Some(n)
  {
    ParseIntDigits(NatToString(n));
    NatToStringValue(n);
  }

  // ---------------------------------------------------------------------------
  // ordering: the default comparison of `Array.prototype.sort` on strings

  /** Lexicographic order, character by character. */
  predicate Less(a: string, b: string) {
    if a == [] then b != []
    else if b == [] then false
    else a[0] < b[0] || (a[0] == b[0] && Less(a[1..], b[1..]))
  }

  lemma {:induction false} LessIrreflexive(a: string)
    ensures !Less(a, a)
  {
    if a != [] {
      LessIrreflexive(a[1..]);
    }
  }

  lemma {:induction false} LessTransitive(a: string, b: string, c: string)
    requires Less(a, b) && Less(b, c)
    ensures Less(a, c)
  {
    if a != [] && b != [] && c != [] && a[0] == b[0] == c[0] {
      LessTransitive(a[1..], b[1..], c[1..]);
    }
  }

  lemma {:induction false} LessTotal(a: string, b: string)
    requires a != b
    ensures Less(a, b) || Less(b, a)
  {
    if a != [] && b != [] && a[0] == b[0] {
      assert a == [a[0]] + a[1..] && b == [b[0]] + b[1..];
      LessTotal(a[1..], b[1..]);
    }
  }
}
