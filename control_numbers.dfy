/** The daily control-number sequence of `Ticket::nextControlNo` and the model's
    `creating` hook: `YYYYMMDD-NNNN`, found by reading the greatest existing number
    with today's prefix and adding one to its numeric suffix. */
module ControlNumbers {
  import opened Wrappers
  import opened Seqs
  import opened Text
  import opened Records

  /** `now()->format('Ymd') . '-'` */
  function DayPrefix(d: Date): string
  {
    Padded(d.year, 4) + Padded(d.month, 2) + Padded(d.day, 2) + "-"
  }

  /** `sprintf('%s%04d', $prefix, $seq)` */
  function Format(d: Date, n: nat): string
  {
    DayPrefix(d) + Padded(n, 4)
  }

  /** `where('control_no', 'like', $prefix . '%')` as a row filter. */
  function OfDay(d: Date): string -> bool
  {
    (c: string) => StartsWith(c, DayPrefix(d))
  }

  function SameDay(existing: seq<string>, d: Date): seq<string>
  {
    Filter(existing, OfDay(d))
  }

  /** The first of the greatest strings, as `orderByDesc(...)->first()` returns it. */
  function LexMax(s: seq<string>): string
    requires s != []
  {
    if |s| == 1 then s[0]
    else
      var m := LexMax(s[1..]);
      if LexLt(m, s[0]) then s[0] else m
  }

  /** The sequence part of the next number: one more than the suffix of the greatest
      number with today's prefix, or 1 when there is none. */
  function NextSequence(existing: seq<string>, today: Date): nat
  {
    var same := SameDay(existing, today);
    if same == [] then 1 else IntCast(AfterLast(LexMax(same), '-')) + 1
  }

  /** `Ticket::nextControlNo()` over the control numbers already stored. */
  function NextControlNo(existing: seq<string>, today: Date): string
  {
    Format(today, NextSequence(existing, today))
  }

  /** PHP `empty()` of the control_no attribute: null, "" and "0" are all empty. */
  predicate IsEmptyAttribute(v: Option<string>)
  {
    v.None? || v.value == "" || v.value == "0"
  }

  /** The `creating` hook: a number is generated only when none was supplied. */
  function ControlNoOnCreate(supplied: Option<string>, existing: seq<string>, today: Date): (r: string)
    ensures !IsEmptyAttribute(supplied) ==> r == supplied.value
    ensures IsEmptyAttribute(supplied) ==> r == NextControlNo(existing, today)
  {
    if IsEmptyAttribute(supplied) then NextControlNo(existing, today) else supplied.value
  }

  /** The numbers `Format(d, 1)`, ..., `Format(d, n)`: a day's sequence so far. */
  function Issued(d: Date, n: nat): (r: seq<string>)
    ensures |r| == n
    ensures forall k :: 0 <= k < n ==> r[k] == Format(d, k + 1)
  {
    if n == 0 then [] else Issued(d, n - 1) + [Format(d, n)]
  }

  // ---------------------------------------------------------------- lemmas

  lemma {:induction false} LexMaxIsMax(s: seq<string>)
    requires s != []
    ensures LexMax(s) in s
    ensures forall k :: 0 <= k < |s| ==> LexLe(s[k], LexMax(s))
  {
    if |s| > 1 {
      var m := LexMax(s[1..]);
      LexMaxIsMax(s[1..]);
      assert forall k :: 1 <= k < |s| ==> s[k] == s[1..][k - 1];
      if LexLt(m, s[0]) {
        forall k | 1 <= k < |s| ensures LexLe(s[k], s[0]) {
          if s[k] != m {
            LexLtTransitive(s[k], m, s[0]);
          }
        }
      } else if s[0] != m {
        LexLtTotal(s[0], m);
      }
    }
  }

  /** A member that is greater than or equal to every member is the maximum. */
  lemma LexMaxUnique(s: seq<string>, x: string)
    requires x in s
    requires forall k :: 0 <= k < |s| ==> LexLe(s[k], x)
    ensures LexMax(s) == x
  {
    LexMaxIsMax(s);
    var m := LexMax(s);
    if m != x {
      assert LexLt(m, x) && LexLt(x, m);
      LexLtAsymmetric(m, x);
    }
  }

  lemma DayPrefixShape(d: Date)
    requires ValidDate(d)
    ensures |DayPrefix(d)| == 9 && DayPrefix(d)[8] == '-'
    ensures AllDigits(DayPrefix(d)[..8])
  {
    PaddedLength(d.year, 4);
    PaddedLength(d.month, 2);
    PaddedLength(d.day, 2);
  }

  /** The number parses back: digits, a '-', then the sequence of at least four digits. */
  lemma FormatParses(d: Date, n: nat)
    requires ValidDate(d)
    ensures var c := Format(d, n);
      && |c| >= 13
      && c[..9] == DayPrefix(d) && c[8] == '-'
      && AllDigits(c[..8]) && AllDigits(c[9..])
      && AfterLast(c, '-') == c[9..] == Padded(n, 4)
      && IntCast(AfterLast(c, '-')) == n
  {
    DayPrefixShape(d);
    var p := DayPrefix(d);
    var c := Format(d, n);
    assert c[..9] == p && c[9..] == Padded(n, 4);
    assert c[..8] == p[..8];
    assert p == p[..8] + ['-'];
    assert '-' !in Padded(n, 4);
    AfterLastOfJoin(p[..8], '-', Padded(n, 4));
    assert c == p[..8] + ['-'] + Padded(n, 4);
    IntCastPadded(n, 4);
  }

  /** Every generated number has today's prefix and a sequence of at least 1. */
  lemma {:induction false} NextControlNoFormat(existing: seq<string>, today: Date)
    requires ValidDate(today)
    ensures exists n: nat :: n >= 1 && NextControlNo(existing, today) == Format(today, n)
  {
    var n := NextSequence(existing, today);
    assert NextControlNo(existing, today) == Format(today, n);
  }

  /** The renderings the lemmas below name. */
  lemma PaddedConstants()
    ensures Padded(1, 4) == "0001" && Padded(2, 4) == "0002"
    ensures Padded(9999, 4) == "9999" && Padded(10000, 4) == "10000"
  {
    assert DigitChar(0) == '0' && DigitChar(1) == '1' && DigitChar(2) == '2' && DigitChar(9) == '9';
    assert Padded(0, 1) == "0";
    assert Padded(0, 2) == Padded(0, 1) + "0";
    assert Padded(0, 3) == Padded(0, 2) + "0";
    assert Padded(1, 4) == Padded(0, 3) + "1";
    assert Padded(2, 4) == Padded(0, 3) + "2";
    assert Padded(9, 1) == "9";
    assert Padded(99, 2) == Padded(9, 1) + "9";
    assert Padded(999, 3) == Padded(99, 2) + "9";
    assert Padded(9999, 4) == Padded(999, 3) + "9";
    assert Padded(1, 0) == "1";
    assert Padded(10, 1) == Padded(1, 0) + "0";
    assert Padded(100, 2) == Padded(10, 1) + "0";
    assert Padded(1000, 3) == Padded(100, 2) + "0";
    assert Padded(10000, 4) == Padded(1000, 3) + "0";
  }

  /** With no number carrying today's prefix the result is `YYYYMMDD-0001`. */
  lemma FirstOfTheDay(existing: seq<string>, today: Date)
    requires forall k :: 0 <= k < |existing| ==> !StartsWith(existing[k], DayPrefix(today))
    ensures NextControlNo(existing, today) == DayPrefix(today) + "0001"
  {
    forall k | 0 <= k < |existing| ensures !OfDay(today)(existing[k]) {
    }
    FilterNone(existing, OfDay(today));
    PaddedConstants();
  }

  /** Numbers of other days never influence the result. */
  lemma OtherDaysIgnored(existing: seq<string>, others: seq<string>, today: Date)
    requires forall k :: 0 <= k < |others| ==> !StartsWith(others[k], DayPrefix(today))
    ensures NextControlNo(existing + others, today) == NextControlNo(existing, today)
  {
    FilterAppend(existing, others, OfDay(today));
    forall k | 0 <= k < |others| ensures !OfDay(today)(others[k]) {
    }
    FilterNone(others, OfDay(today));
    assert SameDay(existing + others, today) == SameDay(existing, today);
  }

  lemma IssuedAreToday(d: Date, n: nat)
    ensures SameDay(Issued(d, n), d) == Issued(d, n)
  {
    var s := Issued(d, n);
    FilterAll(s, OfDay(d));
  }

  /** Same-day numbers compare as their sequences while those fit in four digits. */
  lemma FormatOrder(d: Date, n: nat, m: nat)
    requires n < 10000 && m < 10000
    ensures LexLt(Format(d, n), Format(d, m)) <==> n < m
  {
    assert Pow10(4) == 10000;
    PaddedOrder(n, m, 4);
    LexLtCommonPrefix(DayPrefix(d), Padded(n, 4), Padded(m, 4));
  }

  /** The greatest of a day's numbers 1..n is number n. */
  lemma IssuedMax(d: Date, n: nat)
    requires 1 <= n < 10000
    ensures LexMax(Issued(d, n)) == Format(d, n)
  {
    var s := Issued(d, n);
    forall k | 0 <= k < |s| ensures LexLe(s[k], Format(d, n)) {
      if k + 1 < n {
        FormatOrder(d, k + 1, n);
      }
    }
    LexMaxUnique(s, Format(d, n));
  }

  /** After numbers 1..n of a day (n up to 9999), and any numbers of other days, the
      generator returns number n + 1. */
  lemma NextAfterIssued(d: Date, n: nat, others: seq<string>)
    requires ValidDate(d) && n <= 9999
    requires forall k :: 0 <= k < |others| ==> !StartsWith(others[k], DayPrefix(d))
    ensures NextControlNo(Issued(d, n) + others, d) == Format(d, n + 1)
  {
    OtherDaysIgnored(Issued(d, n), others, d);
    IssuedAreToday(d, n);
    if n > 0 {
      IssuedMax(d, n);
      FormatParses(d, n);
    }
  }

  /** Sequential issuance: below 9999 the next number is n + 1 and is not yet taken, by
      the day's numbers or by any other day's. */
  lemma SequentialIssuance(d: Date, n: nat, others: seq<string>)
    requires ValidDate(d) && n < 9999
    requires forall k :: 0 <= k < |others| ==> !StartsWith(others[k], DayPrefix(d))
    ensures NextControlNo(Issued(d, n) + others, d) == Format(d, n + 1)
    ensures Format(d, n + 1) !in Issued(d, n) + others
  {
    FormatParses(d, n + 1);
    assert StartsWith(Format(d, n + 1), DayPrefix(d));
    NextAfterIssued(d, n, others);
    forall k | 0 <= k < n ensures Issued(d, n)[k] != Format(d, n + 1) {
      FormatOrder(d, k + 1, n + 1);
      LexLtIrreflexive(Format(d, n + 1));
    }
  }

  /** Two issuances on a fresh day give -0001 and then -0002. */
  lemma FirstTwoOfTheDay(d: Date)
    requires ValidDate(d)
    ensures NextControlNo([], d) == DayPrefix(d) + "0001"
    ensures NextControlNo([NextControlNo([], d)], d) == DayPrefix(d) + "0002"
  {
    SequentialIssuance(d, 0, []);
    SequentialIssuance(d, 1, []);
    assert Issued(d, 1) == [Format(d, 1)];
    PaddedConstants();
  }

  /** `-10000` sorts below `-9999`, so `-9999` stays the greatest of the day. */
  lemma NinetyNinetyNineStaysGreatest(d: Date)
    ensures LexMax(Issued(d, 9999) + [Format(d, 10000)]) == Format(d, 9999)
  {
    var s := Issued(d, 9999) + [Format(d, 10000)];
    PaddedConstants();
    assert LexLt("10000", "9999");
    LexLtCommonPrefix(DayPrefix(d), "10000", "9999");
    forall k | 0 <= k < |s| ensures LexLe(s[k], Format(d, 9999)) {
      if k < 9998 {
        FormatOrder(d, k + 1, 9999);
      }
    }
    assert s[9998] == Format(d, 9999);
    LexMaxUnique(s, Format(d, 9999));
  }

  /** The edge at 9999: the next number is `-10000`, which sorts below `-9999`, so from
      then on the generator keeps returning `-10000`, an existing number that the unique
      control_no column refuses. */
  lemma SequenceStallsAfter9999(d: Date, others: seq<string>)
    requires ValidDate(d)
    requires forall k :: 0 <= k < |others| ==> !StartsWith(others[k], DayPrefix(d))
    ensures NextControlNo(Issued(d, 9999) + others, d) == DayPrefix(d) + "10000"
    ensures NextControlNo(Issued(d, 9999) + [DayPrefix(d) + "10000"] + others, d) == DayPrefix(d) + "10000"
  {
    PaddedConstants();
    NextAfterIssued(d, 9999, others);
    StalledNext(d, others);
  }

  /** Once `-10000` is stored, the largest number of the day is still `-9999`. */
  lemma StalledNext(d: Date, others: seq<string>)
    requires ValidDate(d)
    requires forall k :: 0 <= k < |others| ==> !StartsWith(others[k], DayPrefix(d))
    ensures NextControlNo(Issued(d, 9999) + [Format(d, 10000)] + others, d) == Format(d, 10000)
  {
    var issued := Issued(d, 9999);
    var s := issued + [Format(d, 10000)];
    OtherDaysIgnored(s, others, d);
    IssuedAreToday(d, 9999);
    FilterAppend(issued, [Format(d, 10000)], OfDay(d));
    FormatParses(d, 10000);
    assert OfDay(d)(Format(d, 10000));
    assert Filter([Format(d, 10000)], OfDay(d)) == [Format(d, 10000)];
    assert SameDay(s, d) == s;
    NinetyNinetyNineStaysGreatest(d);
    FormatParses(d, 9999);
    assert NextSequence(s, d) == 10000;
  }
}
