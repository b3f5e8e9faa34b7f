/** String helpers standing for the PHP functions the core calls: `sprintf('%04d')`,
    the `(int)` cast of a numeric string, `Str::afterLast`, `str_starts_with`-style
    LIKE prefixes, `trim`, `rtrim`, `strtolower`, and byte-wise string ordering. */
module Text {

  // ---------------------------------------------------------------- decimal digits

  predicate IsDigit(c: char) { '0' <= c <= '9' }

  predicate AllDigits(s: string) { forall i :: 0 <= i < |s| ==> IsDigit(s[i]) }

  function DigitChar(d: nat): (c: char)
    requires d < 10
    ensures IsDigit(c)
  {
    ('0' as int + d) as char
  }

  function DigitValue(c: char): (d: nat)
    requires IsDigit(c)
    ensures d < 10
  {
    c as int - '0' as int
  }

  function Pow10(n: nat): (p: nat)
    ensures p >= 1
  {
    if n == 0 then 1 else 10 * Pow10(n - 1)
  }

  /** `sprintf('%0{w}d', n)`: the decimal digits of `n`, left-padded with zeros to at
      least `w` characters (`w` = 0 or 1 is the plain rendering, as `(string) $n`). */
  function Padded(n: nat, w: nat): (s: string)
    ensures AllDigits(s) && |s| >= 1 && |s| >= w
    decreases n + w
  {
    if n < 10 && w <= 1 then [DigitChar(n)]
    else Padded(n / 10, if w == 0 then 0 else w - 1) + [DigitChar(n % 10)]
  }

  /** PHP's string-to-int conversion of a digit string. */
  function DigitsValue(s: string): nat
    requires AllDigits(s)
  {
    if s == [] then 0 else DigitsValue(s[..|s| - 1]) * 10 + DigitValue(s[|s| - 1])
  }

  lemma {:induction false} PaddedValue(n: nat, w: nat)
    ensures DigitsValue(Padded(n, w)) == n
    decreases n + w
  {
    var s := Padded(n, w);
    if n < 10 && w <= 1 {
    } else {
      var w' := if w == 0 then 0 else w - 1;
      var init := Padded(n / 10, w');
      assert s == init + [DigitChar(n % 10)];
      assert s[..|s| - 1] == init;
      PaddedValue(n / 10, w');
      assert DigitValue(DigitChar(n % 10)) == n % 10;
      assert DigitsValue(s) == DigitsValue(init) * 10 + n % 10;
    }
  }

  /** Padding never adds digits beyond the width when the number fits. */
  lemma {:induction false} PaddedLength(n: nat, w: nat)
    requires w >= 1 && n < Pow10(w)
    ensures |Padded(n, w)| == w
    decreases w
  {
    if n < 10 && w <= 1 {
    } else {
      PaddedLength(n / 10, w - 1);
    }
  }

  lemma {:induction false} PaddedLengthAtLeast(n: nat, w: nat)
    requires w >= 1 && n >= Pow10(w)
    ensures |Padded(n, w)| > w
    decreases w
  {
    if w == 1 {
      assert Padded(n, w) == Padded(n / 10, 0) + [DigitChar(n % 10)];
    } else {
      PaddedLengthAtLeast(n / 10, w - 1);
    }
  }

  /** Distinct numbers have distinct renderings. */
  lemma PaddedInjective(n: nat, m: nat, w: nat)
    requires Padded(n, w) == Padded(m, w)
    ensures n == m
  {
    PaddedValue(n, w);
    PaddedValue(m, w);
  }

  // ---------------------------------------------------------------- (int) cast

  function LeadingDigits(s: string): (r: string)
    ensures AllDigits(r) && |r| <= |s| && r == s[..|r|]
  {
    if s == [] || !IsDigit(s[0]) then [] else [s[0]] + LeadingDigits(s[1..])
  }

  /** `(int) $s` for a string without leading blanks or sign: the value of its leading digits. */
  function IntCast(s: string): nat
  {
    DigitsValue(LeadingDigits(s))
  }

  lemma {:induction false} LeadingDigitsOfDigits(s: string)
    requires AllDigits(s)
    ensures LeadingDigits(s) == s
  {
    if s != [] {
      LeadingDigitsOfDigits(s[1..]);
    }
  }

  lemma IntCastPadded(n: nat, w: nat)
    ensures IntCast(Padded(n, w)) == n
  {
    LeadingDigitsOfDigits(Padded(n, w));
    PaddedValue(n, w);
  }

  // ---------------------------------------------------------------- afterLast

  /** `Str::afterLast($s, c)`: the part after the last `c`, or all of `s` when there is none. */
  function AfterLast(s: string, c: char): (r: string)
    ensures c !in r
    ensures |r| <= |s| && r == s[|s| - |r|..]
    ensures c in s ==> s[|s| - |r| - 1] == c
  {
    if c !in s then s
    else if s[|s| - 1] == c then []
    else
      var init := s[..|s| - 1];
      assert s == init + [s[|s| - 1]];
      assert c in init;
      AfterLast(init, c) + [s[|s| - 1]]
  }

  lemma {:induction false} AfterLastOfJoin(p: string, c: char, t: string)
    requires c !in t
    ensures AfterLast(p + [c] + t, c) == t
  {
    var s := p + [c] + t;
    assert c == s[|p|];
    if t == [] {
      assert s[|s| - 1] == c;
    } else {
      var init := s[..|s| - 1];
      assert init == p + [c] + t[..|t| - 1];
      assert s[|s| - 1] == t[|t| - 1];
      AfterLastOfJoin(p, c, t[..|t| - 1]);
      assert t == t[..|t| - 1] + [t[|t| - 1]];
    }
  }

  // ---------------------------------------------------------------- prefixes, substrings

  predicate StartsWith(s: string, prefix: string)
  {
    |prefix| <= |s| && s[..|prefix|] == prefix
  }

  /** `LIKE '%sub%'`, reading `sub` literally. */
  predicate Contains(s: string, sub: string)
  {
    exists i :: 0 <= i <= |s| && OccursAt(s, sub, i)
  }

  predicate OccursAt(s: string, sub: string, i: nat)
  {
    i + |sub| <= |s| && s[i..i + |sub|] == sub
  }

  // ---------------------------------------------------------------- trim, rtrim

  /** The characters PHP's `trim` removes by default. */
  predicate IsTrimmed(c: char)
  {
    c == ' ' || c == '\t' || c == '\n' || c == '\r' || c == '\0' || c == '\U{0B}'
  }

  function TrimStart(s: string): (r: string)
    ensures |r| <= |s| && r == s[|s| - |r|..]
    ensures r == [] || !IsTrimmed(r[0])
    ensures forall i :: 0 <= i < |s| - |r| ==> IsTrimmed(s[i])
  {
    if s != [] && IsTrimmed(s[0]) then TrimStart(s[1..]) else s
  }

  function TrimEnd(s: string): (r: string)
    ensures |r| <= |s| && r == s[..|r|]
    ensures r == [] || !IsTrimmed(r[|r| - 1])
    ensures forall i :: |r| <= i < |s| ==> IsTrimmed(s[i])
  {
    if s != [] && IsTrimmed(s[|s| - 1]) then TrimEnd(s[..|s| - 1]) else s
  }

  /** PHP `trim($s)` */
  function Trim(s: string): string
  {
    TrimEnd(TrimStart(s))
  }

  /** PHP `rtrim($s, c)`: all trailing `c` removed. */
  function RTrimChar(s: string, c: char): (r: string)
    ensures |r| <= |s| && r == s[..|r|]
    ensures r == [] || r[|r| - 1] != c
    ensures forall i :: |r| <= i < |s| ==> s[i] == c
  {
    if s != [] && s[|s| - 1] == c then RTrimChar(s[..|s| - 1], c) else s
  }

  // ---------------------------------------------------------------- strtolower

  function LowerChar(c: char): char
  {
    if 'A' <= c <= 'Z' then (c as int + 32) as char else c
  }

  /** PHP 8 `strtolower`: ASCII letters only. */
  function Lower(s: string): (r: string)
    ensures |r| == |s|
    ensures forall i :: 0 <= i < |s| ==> r[i] == LowerChar(s[i])
  {
    if s == [] then [] else [LowerChar(s[0])] + Lower(s[1..])
  }

  lemma LowerIdempotent(s: string)
    ensures Lower(Lower(s)) == Lower(s)
  {
    var once := Lower(s);
    assert forall i :: 0 <= i < |s| ==> LowerChar(once[i]) == once[i];
  }

  // ---------------------------------------------------------------- byte-wise ordering

  /** String order under a binary collation: the first differing character decides,
      and a proper prefix sorts first. */
  predicate LexLt(a: string, b: string)
  {
    if a == [] then b != []
    else if b == [] then false
    else if a[0] != b[0] then a[0] < b[0]
    else LexLt(a[1..], b[1..])
  }

  predicate LexLe(a: string, b: string) { a == b || LexLt(a, b) }

  lemma {:induction false} LexLtIrreflexive(a: string)
    ensures !LexLt(a, a)
  {
    if a != [] {
      LexLtIrreflexive(a[1..]);
    }
  }

  lemma {:induction false} LexLtTransitive(a: string, b: string, c: string)
    requires LexLt(a, b) && LexLt(b, c)
    ensures LexLt(a, c)
  {
    if a != [] && b != [] && c != [] && a[0] == b[0] && b[0] == c[0] {
      LexLtTransitive(a[1..], b[1..], c[1..]);
    }
  }

  lemma {:induction false} LexLtTotal(a: string, b: string)
    requires a != b
    ensures LexLt(a, b) || LexLt(b, a)
  {
    if a != [] && b != [] && a[0] == b[0] {
      assert a == [a[0]] + a[1..] && b == [b[0]] + b[1..];
      LexLtTotal(a[1..], b[1..]);
    }
  }

  lemma LexLtAsymmetric(a: string, b: string)
    requires LexLt(a, b)
    ensures !LexLt(b, a)
  {
    if LexLt(b, a) {
      LexLtTransitive(a, b, a);
      LexLtIrreflexive(a);
    }
  }

  /** With a common prefix, the order of the rest decides. */
  lemma {:induction false} LexLtCommonPrefix(p: string, a: string, b: string)
    ensures LexLt(p + a, p + b) <==> LexLt(a, b)
  {
    if p == [] {
      assert p + a == a && p + b == b;
    } else {
      assert (p + a)[1..] == p[1..] + a;
      assert (p + b)[1..] == p[1..] + b;
      LexLtCommonPrefix(p[1..], a, b);
    }
  }

  /** Appending one character to strings of equal length: the heads decide first. */
  lemma {:induction false} LexLtSnoc(a: string, x: char, b: string, y: char)
    requires |a| == |b|
    ensures LexLt(a + [x], b + [y]) <==> LexLt(a, b) || (a == b && x < y)
  {
    if a == [] {
      assert a + [x] == [x] && b + [y] == [y];
    } else {
      assert (a + [x])[1..] == a[1..] + [x];
      assert (b + [y])[1..] == b[1..] + [y];
      LexLtSnoc(a[1..], x, b[1..], y);
      if a[0] == b[0] && a[1..] == b[1..] {
        assert a == [a[0]] + a[1..] && b == [b[0]] + b[1..];
      }
    }
  }

  /** For numbers that fit the width, zero-padded order is numeric order. */
  lemma {:induction false} PaddedOrder(n: nat, m: nat, w: nat)
    requires w >= 1 && n < Pow10(w) && m < Pow10(w)
    ensures LexLt(Padded(n, w), Padded(m, w)) <==> n < m
    decreases w
  {
    if w == 1 {
      assert Padded(n, w) == [DigitChar(n)] && Padded(m, w) == [DigitChar(m)];
    } else {
      var w' := w - 1;
      PaddedOrder(n / 10, m / 10, w');
      PaddedLength(n / 10, w');
      PaddedLength(m / 10, w');
      assert n >= 10 || w > 1;
      assert Padded(n, w) == Padded(n / 10, w') + [DigitChar(n % 10)];
      assert Padded(m, w) == Padded(m / 10, w') + [DigitChar(m % 10)];
      LexLtSnoc(Padded(n / 10, w'), DigitChar(n % 10), Padded(m / 10, w'), DigitChar(m % 10));
      if Padded(n / 10, w') == Padded(m / 10, w') {
        PaddedInjective(n / 10, m / 10, w');
      }
    }
  }
}
