/**
 * String helpers with the meaning JavaScript gives them: `trim`, the `\s`
 * class, `toLowerCase` (for the scripts the bot meets), `padStart`,
 * `split`/`join`, `String(n)` / `Number(digits)` and the relational
 * operators on strings.
 */
module Strings {

  import opened Base

  // ---------------------------------------------------------------------
  // Whitespace, `trim`
  // ---------------------------------------------------------------------

  /** The characters JavaScript's `trim` strips and `\s` matches:
      WhiteSpace plus LineTerminator. */
  predicate IsWhite(c: char) {
    if c < '\U{00A0}' then c == ' ' || ('\t' <= c <= '\r')
    else if c < '\U{1680}' then c == '\U{00A0}'
    else
      || c == '\U{1680}' || ('\U{2000}' <= c <= '\U{200A}')
      || c == '\U{2028}' || c == '\U{2029}' || c == '\U{202F}' || c == '\U{205F}'
      || c == '\U{3000}' || c == '\U{FEFF}'
  }

  /** The characters a regular-expression `.` refuses to match. */
  predicate IsLineTerminator(c: char) {
    c == '\n' || c == '\r' || c == '\U{2028}' || c == '\U{2029}'
  }

  predicate NoLineTerminator(s: string) {
    forall i :: 0 <= i < |s| ==> !IsLineTerminator(s[i])
  }

  /** Neither end of `s` is whitespace. */
  predicate Trimmed(s: string) {
    s == [] || (!IsWhite(s[0]) && !IsWhite(s[|s| - 1]))
  }

  function TrimStart(s: string): (r: string)
    ensures |r| <= |s| && r == s[|s| - |r|..]
    ensures r == [] || !IsWhite(r[0])
    ensures forall i :: 0 <= i < |s| - |r| ==> IsWhite(s[i])
  {
    if s != [] && IsWhite(s[0]) then TrimStart(s[1..]) else s
  }

  function TrimEnd(s: string): (r: string)
    ensures |r| <= |s| && r == s[..|r|]
    ensures r == [] || !IsWhite(r[|r| - 1])
    ensures forall i :: |r| <= i < |s| ==> IsWhite(s[i])
  {
    if s != [] && IsWhite(s[|s| - 1]) then TrimEnd(s[..|s| - 1]) else s
  }

  /** `String.prototype.trim`: whitespace cut off at both ends. */
  function Trim(s: string): (r: string)
    ensures Trimmed(r) && |r| <= |s|
    decreases |s|
  {
    if s != [] && IsWhite(s[0]) then Trim(s[1..])
    else if s != [] && IsWhite(s[|s| - 1]) then Trim(s[..|s| - 1])
    else s
  }

  predicate AllWhite(s: string) {
    forall i :: 0 <= i < |s| ==> IsWhite(s[i])
  }

  lemma AllWhiteAppend(a: string, b: string)
    requires AllWhite(a) && AllWhite(b)
    ensures AllWhite(a + b)
  {
    assert forall i :: 0 <= i < |a + b| ==> (a + b)[i] == if i < |a| then a[i] else b[i - |a|];
  }

  /** What `trim` keeps is the text between a run of whitespace before it
      and a run after it. */
  lemma {:induction false} TrimCutsWhite(s: string)
    ensures exists a, b :: s == a + Trim(s) + b && AllWhite(a) && AllWhite(b)
    decreases |s|, 1
  {
    if s != [] && IsWhite(s[0]) {
      TrimCutsFront(s);
    } else if s != [] && IsWhite(s[|s| - 1]) {
      TrimCutsBack(s);
    } else {
      var e: string := [];
      assert Trim(s) == s;
      assert AllWhite(e);
      assert s == e + Trim(s) + e;
    }
  }

  lemma {:induction false} TrimCutsFront(s: string)
    requires s != [] && IsWhite(s[0])
    ensures exists a, b :: s == a + Trim(s) + b && AllWhite(a) && AllWhite(b)
    decreases |s|, 0
  {
    var r := Trim(s);
    assert r == Trim(s[1..]);
    TrimCutsWhite(s[1..]);
    var a, b :| s[1..] == a + r + b && AllWhite(a) && AllWhite(b);
    AllWhiteAppend([s[0]], a);
    assert s == ([s[0]] + a) + r + b;
  }

  lemma {:induction false} TrimCutsBack(s: string)
    requires s != [] && !IsWhite(s[0]) && IsWhite(s[|s| - 1])
    ensures exists a, b :: s == a + Trim(s) + b && AllWhite(a) && AllWhite(b)
    decreases |s|, 0
  {
    var r := Trim(s);
    var u := s[..|s| - 1];
    assert r == Trim(u);
    TrimCutsWhite(u);
    var a, b :| u == a + r + b && AllWhite(a) && AllWhite(b);
    AllWhiteAppend(b, [s[|s| - 1]]);
    assert s == u + [s[|s| - 1]];
    assert s == a + r + (b + [s[|s| - 1]]);
  }

  /** Whitespace-only text trims to nothing. */
  lemma {:induction false} TrimAllWhite(s: string)
    requires AllWhite(s)
    ensures Trim(s) == []
    decreases |s|
  {
    if s != [] {
      TrimAllWhite(s[1..]);
    }
  }

  /** Leading whitespace does not change what `trim` keeps. */
  lemma {:induction false} TrimWhitePrefix(w: string, s: string)
    requires AllWhite(w)
    ensures Trim(w + s) == Trim(s)
    decreases |w|
  {
    if w != [] {
      assert (w + s)[1..] == w[1..] + s;
      TrimWhitePrefix(w[1..], s);
    } else {
      assert w + s == s;
    }
  }

  /** A first character that is not whitespace survives `trim`. */
  lemma {:induction false} TrimKeepsFirst(s: string)
    requires s != [] && !IsWhite(s[0])
    ensures Trim(s) != [] && Trim(s)[0] == s[0]
    decreases |s|
  {
    if IsWhite(s[|s| - 1]) {
      TrimKeepsFirst(s[..|s| - 1]);
    }
  }

  /** What `trim` keeps of `x + z` begins with what it keeps of `x`, when
      that is not empty. */
  lemma {:induction false} TrimHead(x: string, z: string)
    requires Trim(x) != []
    ensures Trim(x + z) != [] && Trim(x + z)[0] == Trim(x)[0]
    decreases |x|
  {
    if IsWhite(x[0]) {
      assert (x + z)[1..] == x[1..] + z;
      TrimHead(x[1..], z);
    } else {
      TrimKeepsFirst(x);
      TrimKeepsFirst(x + z);
    }
  }

  lemma TrimOfTrimmed(s: string)
    requires Trimmed(s)
    ensures Trim(s) == s
  {
  }

  /** Trimming twice is trimming once. */
  lemma TrimIdempotent(s: string)
    ensures Trim(Trim(s)) == Trim(s)
  {
    TrimOfTrimmed(Trim(s));
  }

  // ---------------------------------------------------------------------
  // `toLowerCase`
  // ---------------------------------------------------------------------

  /** Lower-casing of one character for Latin (ASCII and Latin-1) and
      Cyrillic (Russian and Ukrainian) capitals; every other character is
      left as it is. */
  function LowerChar(c: char): (r: char)
    ensures IsWhite(r) <==> IsWhite(c)
  {
    if 'A' <= c <= 'Z' then (c as int + 32) as char
    else if '\U{00C0}' <= c <= '\U{00DE}' && c != '\U{00D7}' then (c as int + 32) as char
    else if '\U{0410}' <= c <= '\U{042F}' then (c as int + 32) as char
    else if '\U{0400}' <= c <= '\U{040F}' then (c as int + 80) as char
    else if c == '\U{0490}' then '\U{0491}'
    else c
  }

  lemma LowerCharIdempotent(c: char)
    ensures LowerChar(LowerChar(c)) == LowerChar(c)
  {
  }

  function Lower(s: string): (r: string)
    ensures |r| == |s|
    ensures forall i :: 0 <= i < |s| ==> r[i] == LowerChar(s[i])
  {
    seq(|s|, i requires 0 <= i < |s| => LowerChar(s[i]))
  }

  predicate IsLower(s: string) {
    forall i :: 0 <= i < |s| ==> LowerChar(s[i]) == s[i]
  }

  // ---------------------------------------------------------------------
  // Decimal digits: `String(n)`, `Number(digits)`, `padStart`
  // ---------------------------------------------------------------------

  predicate IsDigit(c: char) { '0' <= c <= '9' }

  predicate AllDigits(s: string) {
    forall i :: 0 <= i < |s| ==> IsDigit(s[i])
  }

  function DigitOf(c: char): (d: nat)
    requires IsDigit(c)
    ensures d < 10
  {
    c as int - '0' as int
  }

  function DigitChar(d: nat): (c: char)
    requires d < 10
    ensures IsDigit(c) && DigitOf(c) == d
  {
    ('0' as int + d) as char
  }

  function Pow10(n: nat): (r: nat)
    ensures r >= 1
  {
    if n == 0 then 1 else 10 * Pow10(n - 1)
  }

  /** The value of a string of decimal digits, most significant first;
      the empty string is 0 (as `Number("")` is). */
  function DigitsValue(s: string): (v: nat)
    requires AllDigits(s)
    ensures v < Pow10(|s|)
  {
    if s == [] then 0 else DigitsValue(s[..|s| - 1]) * 10 + DigitOf(s[|s| - 1])
  }

  lemma DigitsValueAppend(s: string, c: char)
    requires AllDigits(s) && IsDigit(c)
    ensures AllDigits(s + [c])
    ensures DigitsValue(s + [c]) == DigitsValue(s) * 10 + DigitOf(c)
  {
    assert (s + [c])[..|s|] == s;
  }

  /** `String(n)` for a non-negative integer: its decimal digits without
      leading zeros. */
  function NatToString(n: nat): (r: string)
    ensures 1 <= |r| && AllDigits(r)
    ensures DigitsValue(r) == n
    ensures |r| > 1 ==> r[0] != '0'
  {
    if n < 10 then [DigitChar(n)]
    else
      var r := NatToString(n / 10) + [DigitChar(n % 10)];
      DigitsValueAppend(NatToString(n / 10), DigitChar(n % 10));
      r
  }

  /** `NatToString` uses at most `w` digits for a number below 10^w. */
  lemma {:induction false} NatToStringWidth(n: nat, w: nat)
    requires 1 <= w && n < Pow10(w)
    ensures |NatToString(n)| <= w
  {
    if n < 10 {
    } else {
      assert n / 10 < Pow10(w - 1);
      NatToStringWidth(n / 10, w - 1);
    }
  }

  function Repeat(c: char, n: nat): (r: string)
    ensures |r| == n
    ensures forall i :: 0 <= i < n ==> r[i] == c
  {
    seq(n, _ => c)
  }

  /** `s.padStart(w, c)`. */
  function PadStart(s: string, w: nat, c: char): (r: string)
    ensures |s| >= w ==> r == s
    ensures |s| < w ==> |r| == w && r[w - |s|..] == s
                        && forall i :: 0 <= i < w - |s| ==> r[i] == c
  {
    if |s| >= w then s else Repeat(c, w - |s|) + s
  }

  /** Leading zeros do not change a digit string's value. */
  lemma {:induction false} ZeroPadValue(s: string, k: nat)
    requires AllDigits(s)
    ensures AllDigits(Repeat('0', k) + s)
    ensures DigitsValue(Repeat('0', k) + s) == DigitsValue(s)
    decreases |s| + k
  {
    var t := Repeat('0', k) + s;
    if s == [] {
      assert t == Repeat('0', k);
      if k > 0 {
        assert t[..|t| - 1] == Repeat('0', k - 1) + [];
        ZeroPadValue([], k - 1);
      }
    } else {
      var s' := s[..|s| - 1];
      assert t[..|t| - 1] == Repeat('0', k) + s';
      ZeroPadValue(s', k);
    }
  }

  /** `String(n).padStart(w, "0")` for a number that fits: exactly `w`
      digits with value `n`. */
  lemma PadNat(n: nat, w: nat)
    requires 1 <= w && n < Pow10(w)
    ensures |PadStart(NatToString(n), w, '0')| == w
    ensures AllDigits(PadStart(NatToString(n), w, '0'))
    ensures DigitsValue(PadStart(NatToString(n), w, '0')) == n
  {
    NatToStringWidth(n, w);
    var s := NatToString(n);
    if |s| < w {
      ZeroPadValue(s, w - |s|);
    }
  }

  /** A digit string padded to width `w` keeps its value. */
  lemma PadDigits(s: string, w: nat)
    requires AllDigits(s)
    ensures AllDigits(PadStart(s, w, '0'))
    ensures DigitsValue(PadStart(s, w, '0')) == DigitsValue(s)
  {
    if |s| < w {
      ZeroPadValue(s, w - |s|);
    }
  }

  /** `String(n).padStart(w, "0")`. */
  function ZeroPad(n: nat, w: nat): string {
    PadStart(NatToString(n), w, '0')
  }

  /** Zero-padded numbers of one width compare as strings the way they
      compare as numbers. */
  lemma ZeroPadOrder(a: nat, b: nat, w: nat)
    requires 1 <= w && a < Pow10(w) && b < Pow10(w)
    ensures |ZeroPad(a, w)| == w && |ZeroPad(b, w)| == w
    ensures LexLess(ZeroPad(a, w), ZeroPad(b, w)) <==> a < b
  {
    PadNat(a, w);
    PadNat(b, w);
    DigitsLexOrder(ZeroPad(a, w), ZeroPad(b, w));
  }

  /** Padding a digit string is the same as padding the number it denotes. */
  lemma ZeroPadCanonical(s: string, w: nat)
    requires AllDigits(s) && 1 <= w && |s| <= w
    ensures ZeroPad(DigitsValue(s), w) == PadStart(s, w, '0')
  {
    PadDigits(s, w);
    PadNat(DigitsValue(s), w);
    DigitsLexOrder(ZeroPad(DigitsValue(s), w), PadStart(s, w, '0'));
  }

  /** `Number` reads a zero-padded number back. */
  lemma ZeroPadNumber(n: nat, w: nat)
    requires 1 <= w && n < Pow10(w)
    ensures NumberOf(ZeroPad(n, w)) == Some(n)
    ensures forall i :: 0 <= i < |ZeroPad(n, w)| ==> IsDigit(ZeroPad(n, w)[i])
  {
    PadNat(n, w);
  }

  /** `Number(s)` for strings the program builds from digits: `None`
      stands for `NaN` (any other shape). */
  function NumberOf(s: string): (r: Option<nat>)
    ensures r.Some? <==> AllDigits(s)
  {
    if AllDigits(s) then Some(DigitsValue(s)) else None
  }

  // ---------------------------------------------------------------------
  // `<` and `<=` on strings
  // ---------------------------------------------------------------------

  /** JavaScript's `a < b` on strings: the first differing character
      decides, and a proper prefix is smaller. */
  predicate LexLess(a: string, b: string) {
    if a == [] then b != []
    else if b == [] then false
    else if a[0] != b[0] then a[0] < b[0]
    else LexLess(a[1..], b[1..])
  }

  /** JavaScript's `a <= b` on strings, which is `!(b < a)`. */
  predicate LexLe(a: string, b: string) {
    !LexLess(b, a)
  }

  lemma {:induction false} LexLessIrreflexive(a: string)
    ensures !LexLess(a, a)
  {
    if a != [] { LexLessIrreflexive(a[1..]); }
  }

  lemma {:induction false} LexLessTransitive(a: string, b: string, c: string)
    requires LexLess(a, b) && LexLess(b, c)
    ensures LexLess(a, c)
  {
    if a != [] && a[0] == b[0] && b[0] == c[0] {
      LexLessTransitive(a[1..], b[1..], c[1..]);
    }
  }

  lemma LexLessAsymmetric(a: string, b: string)
    requires LexLess(a, b)
    ensures !LexLess(b, a)
  {
    if LexLess(b, a) {
      LexLessTransitive(a, b, a);
      LexLessIrreflexive(a);
    }
  }

  lemma {:induction false} LexLessTotal(a: string, b: string)
    ensures a == b || LexLess(a, b) || LexLess(b, a)
  {
    if a != [] && b != [] && a[0] == b[0] {
      LexLessTotal(a[1..], b[1..]);
      if a[1..] == b[1..] {
        assert a == [a[0]] + a[1..] && b == [b[0]] + b[1..];
      }
    }
  }

  /** `<=` on strings is transitive. */
  lemma LexLeTransitive(a: string, b: string, c: string)
    requires LexLe(a, b) && LexLe(b, c)
    ensures LexLe(a, c)
  {
    if LexLess(c, a) {
      LexLessTotal(a, b);
      if a == b {
      } else if LexLess(a, b) {
        LexLessTransitive(c, a, b);
      } else {
      }
    }
  }

  /** Comparing two strings that share a prefix compares what follows it. */
  lemma {:induction false} LexLessCommonPrefix(p: string, a: string, b: string)
    ensures LexLess(p + a, p + b) <==> LexLess(a, b)
  {
    if p == [] {
      assert p + a == a && p + b == b;
    } else {
      assert (p + a)[0] == p[0] == (p + b)[0];
      assert (p + a)[1..] == p[1..] + a;
      assert (p + b)[1..] == p[1..] + b;
      LexLessCommonPrefix(p[1..], a, b);
    }
  }

  /** For two strings of the same length, comparing `a + x` with `b + y` is
      decided by `a` versus `b` unless they are equal. */
  lemma {:induction false} LexLessConcat(a: string, x: string, b: string, y: string)
    requires |a| == |b|
    ensures LexLess(a + x, b + y) <==> LexLess(a, b) || (a == b && LexLess(x, y))
  {
    if a == [] {
      assert a + x == x && b + y == y;
    } else {
      assert (a + x)[1..] == a[1..] + x;
      assert (b + y)[1..] == b[1..] + y;
      assert (a + x)[0] == a[0] && (b + y)[0] == b[0];
      LexLessConcat(a[1..], x, b[1..], y);
      if a[0] == b[0] && a[1..] == b[1..] {
        assert a == [a[0]] + a[1..] && b == [b[0]] + b[1..];
      }
      if a == b { assert a[1..] == b[1..]; }
    }
  }

  /** Between digit strings of equal length, the string order is the
      numeric order: the reason fixed-width dates compare correctly. */
  lemma {:induction false} DigitsLexOrder(a: string, b: string)
    requires AllDigits(a) && AllDigits(b) && |a| == |b|
    ensures LexLess(a, b) <==> DigitsValue(a) < DigitsValue(b)
    ensures a == b <==> DigitsValue(a) == DigitsValue(b)
  {
    if a != [] {
      var a', b' := a[..|a| - 1], b[..|b| - 1];
      var x, y := a[|a| - 1], b[|b| - 1];
      DigitsLexOrder(a', b');
      assert a == a' + [x] && b == b' + [y];
      LexLessConcat(a', [x], b', [y]);
      assert LexLess([x], [y]) <==> x < y;
      if a' == b' && x == y { assert a == b; }
    }
  }

  // ---------------------------------------------------------------------
  // `split` / `join` with a one-character separator
  // ---------------------------------------------------------------------

  function IndexOf(s: string, c: char): (i: nat)
    requires c in s
    ensures i < |s| && s[i] == c && c !in s[..i]
  {
    if s[0] == c then 0 else 1 + IndexOf(s[1..], c)
  }

  /** `s.split(sep)`: the pieces between separators, at least one piece. */
  function Split(s: string, sep: char): (r: seq<string>)
    ensures |r| >= 1
    ensures forall k :: 0 <= k < |r| ==> sep !in r[k]
    decreases |s|
  {
    if sep !in s then [s]
    else
      var i := IndexOf(s, sep);
      [s[..i]] + Split(s[i + 1..], sep)
  }

  /** `parts.join(sep)`. */
  function Join(parts: seq<string>, sep: string): string {
    if |parts| == 0 then []
    else if |parts| == 1 then parts[0]
    else parts[0] + sep + Join(parts[1..], sep)
  }

  /** Joining the pieces of a split with the separator gives back the
      string. */
  lemma {:induction false} JoinSplit(s: string, sep: char)
    ensures Join(Split(s, sep), [sep]) == s
    decreases |s|
  {
    if sep in s {
      var i := IndexOf(s, sep);
      var rest := Split(s[i + 1..], sep);
      var parts := [s[..i]] + rest;
      assert Split(s, sep) == parts;
      assert parts[0] == s[..i] && parts[1..] == rest;
      JoinSplit(s[i + 1..], sep);
      assert Join(parts, [sep]) == s[..i] + [sep] + Join(rest, [sep]);
      assert s == s[..i] + [sep] + s[i + 1..];
    }
  }

  /** Splitting a separator-free piece followed by the separator peels off
      that piece. */
  lemma SplitCons(a: string, sep: char, b: string)
    requires sep !in a
    ensures Split(a + [sep] + b, sep) == [a] + Split(b, sep)
  {
    var s := a + [sep] + b;
    assert s[|a|] == sep;
    var i := IndexOf(s, sep);
    assert s[..|a|] == a;
    assert i == |a| by {
      assert forall j :: 0 <= j < |a| ==> s[j] == a[j];
      assert s[|a|] == sep;
    }
    assert s[..i] == a;
    assert s[i + 1..] == b;
  }

  /** Separator-free text in front joins the first piece. */
  lemma SplitFreePrefix(a: string, sep: char, s: string)
    requires sep !in a
    ensures Split(a + s, sep) == [a + Split(s, sep)[0]] + Split(s, sep)[1..]
  {
    if sep !in s {
      assert sep !in a + s;
    } else {
      var j := IndexOf(s, sep);
      var s2 := s[j + 1..];
      assert s == s[..j] + [sep] + s2;
      SplitCons(s[..j], sep, s2);
      assert a + s == (a + s[..j]) + [sep] + s2;
      SplitCons(a + s[..j], sep, s2);
    }
  }

  lemma SplitNone(a: string, sep: char)
    requires sep !in a
    ensures Split(a, sep) == [a]
  {
  }
}
