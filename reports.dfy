/** `AdminReportsController`: the date range of the query string, the ticket summary, the
    collections (in the range and today), the daily trend and the per-violation table,
    as functions over the ledger. A collection is a recorded payment with a payment time;
    days are counted from 1970-01-01 in one fixed zone. */
module Reports {
  import opened Wrappers
  import opened Seqs
  import opened Records
  import opened Validation

  // ---------------------------------------------------------------- parseRange

  /** Both bounds, when present, as instants; a filter applies only when both are. */
  datatype Range = Range(from: Option<Instant>, to: Option<Instant>)

  function StartOfDay(d: Date): Instant
  {
    DaysFromCivil(d) * SecondsPerDay
  }

  function EndOfDay(d: Date): Instant
  {
    DaysFromCivil(d) * SecondsPerDay + SecondsPerDay - 1
  }

  /** A day's first and last second bound exactly the instants of that day. */
  lemma DayBounds(d: Date, t: Instant)
    ensures StartOfDay(d) <= t <= EndOfDay(d) <==> DayOf(t) == DaysFromCivil(d)
  {
    var q, r := t / SecondsPerDay, t % SecondsPerDay;
    assert t == q * SecondsPerDay + r && 0 <= r < SecondsPerDay;
    var n := DaysFromCivil(d);
    if q < n {
      assert q * SecondsPerDay <= (n - 1) * SecondsPerDay;
    } else if q > n {
      assert q * SecondsPerDay >= (n + 1) * SecondsPerDay;
    }
  }

  /** One bound of `parseRange`: `parseYmd` stands for `Carbon::createFromFormat('Y-m-d', ...)`
      and is None where that throws; the bound is the start or the end of the parsed day. */
  function ParseBound(s: Option<string>, parseYmd: string -> Option<Date>, end: bool): Option<Instant>
  {
    if !Truthy(s) then None
    else match parseYmd(s.value)
      case None => None
      case Some(d) => Some(if end then EndOfDay(d) else StartOfDay(d))
  }

  /** `parseRange` */
  function ParseRange(from: Option<string>, to: Option<string>, parseYmd: string -> Option<Date>): Range
  {
    Range(ParseBound(from, parseYmd, false), ParseBound(to, parseYmd, true))
  }

  /** `whereBetween(column, [$from, $to])` when both bounds are set, no filter otherwise. */
  predicate InRange(r: Range, t: Instant)
  {
    r.from.Some? && r.to.Some? ==> r.from.value <= t <= r.to.value
  }

  /** A missing, false-like or malformed parameter gives a null bound; a parsed one is the
      start (for `from`) or the end (for `to`) of its day. */
  lemma ParseRangeSpec(from: Option<string>, to: Option<string>, parseYmd: string -> Option<Date>)
    ensures var r := ParseRange(from, to, parseYmd);
      && (r.from.None? <==> !Truthy(from) || parseYmd(from.value).None?)
      && (r.to.None? <==> !Truthy(to) || parseYmd(to.value).None?)
      && (r.from.Some? ==> DayOf(r.from.value) == DaysFromCivil(parseYmd(from.value).value) && r.from.value % SecondsPerDay == 0)
      && (r.to.Some? ==> DayOf(r.to.value) == DaysFromCivil(parseYmd(to.value).value) && r.to.value % SecondsPerDay == SecondsPerDay - 1)
  {
    var r := ParseRange(from, to, parseYmd);
    if r.from.Some? {
      DayBounds(parseYmd(from.value).value, r.from.value);
    }
    if r.to.Some? {
      DayBounds(parseYmd(to.value).value, r.to.value);
    }
  }

  /** The same date for both bounds selects exactly the instants of that day. */
  lemma OneDayRange(s: string, parseYmd: string -> Option<Date>, t: Instant)
    requires Truthy(Some(s)) && parseYmd(s).Some?
    ensures InRange(ParseRange(Some(s), Some(s), parseYmd), t) <==> DayOf(t) == DaysFromCivil(parseYmd(s).value)
  {
    DayBounds(parseYmd(s).value, t);
  }

  // ---------------------------------------------------------------- the ticket summary

  function ApprehendedIn(r: Range): Ticket -> bool
  {
    (t: Ticket) => InRange(r, t.apprehendedAt)
  }

  function HasStatus(s: TicketStatus): Ticket -> bool
  {
    (t: Ticket) => t.status == s
  }

  datatype Summary = Summary(totalTickets: nat, openTickets: nat, paidTickets: nat, totalCollections: Cents, todayCollections: Cents)

  /** The three counts of `overview` over the tickets apprehended in the range. */
  function TicketCounts(tickets: seq<Ticket>, r: Range): (nat, nat, nat)
  {
    var inRange := Filter(tickets, ApprehendedIn(r));
    (|inRange|, |Filter(inRange, HasStatus(Unpaid))|, |Filter(inRange, HasStatus(Paid))|)
  }

  /** Open and paid tickets are disjoint parts of the tickets in the range. */
  lemma TicketCountsSpec(tickets: seq<Ticket>, r: Range)
    ensures var (total, open, paid) := TicketCounts(tickets, r);
      && open + paid <= total <= |tickets|
      && (r.from.None? || r.to.None? ==> total == |tickets|)
  {
    var inRange := Filter(tickets, ApprehendedIn(r));
    forall k | 0 <= k < |inRange| ensures !(HasStatus(Unpaid)(inRange[k]) && HasStatus(Paid)(inRange[k])) {
    }
    FilterDisjoint(inRange, HasStatus(Unpaid), HasStatus(Paid));
    if r.from.None? || r.to.None? {
      FilterAll(tickets, ApprehendedIn(r));
    }
  }

  // ---------------------------------------------------------------- collections

  /** `where('status', 'recorded')->whereNotNull('paid_at')` and the range on `paid_at`. */
  predicate IsCollected(r: Range, p: Payment)
  {
    p.status == Recorded && p.paidAt.Some? && InRange(r, p.paidAt.value)
  }

  function CollectedIn(r: Range): Payment -> bool
  {
    (p: Payment) => IsCollected(r, p)
  }

  function Collected(payments: seq<Payment>, r: Range): seq<Payment>
  {
    Filter(payments, CollectedIn(r))
  }

  function Amount(p: Payment): Cents { p.amount }

  /** `collectionsTotal` */
  function CollectionsTotal(payments: seq<Payment>, r: Range): Cents
  {
    SumOf(Collected(payments, r), Amount)
  }

  function PaidOn(day: int): Payment -> bool
  {
    (p: Payment) => p.status == Recorded && p.paidAt.Some? && DayOf(p.paidAt.value) == day
  }

  /** `collectionsToday`: `today` is the day of `Carbon::today()`; no range applies. */
  function CollectionsToday(payments: seq<Payment>, today: int): Cents
  {
    SumOf(Filter(payments, PaidOn(today)), Amount)
  }

  lemma {:induction false} FilterSame<T>(s: seq<T>, p: T -> bool, q: T -> bool)
    requires forall k :: 0 <= k < |s| ==> p(s[k]) == q(s[k])
    ensures Filter(s, p) == Filter(s, q)
  {
    if s != [] {
      FilterSame(s[1..], p, q);
    }
  }

  /** Today's collections are the collections of the one-day range of today, whatever
      range the request asked for. */
  lemma TodayIsOneDay(payments: seq<Payment>, s: string, parseYmd: string -> Option<Date>)
    requires Truthy(Some(s)) && parseYmd(s).Some?
    ensures CollectionsToday(payments, DaysFromCivil(parseYmd(s).value)) == CollectionsTotal(payments, ParseRange(Some(s), Some(s), parseYmd))
  {
    var r := ParseRange(Some(s), Some(s), parseYmd);
    var day := DaysFromCivil(parseYmd(s).value);
    forall k | 0 <= k < |payments| ensures PaidOn(day)(payments[k]) == CollectedIn(r)(payments[k]) {
      if payments[k].paidAt.Some? {
        OneDayRange(s, parseYmd, payments[k].paidAt.value);
      }
    }
    FilterSame(payments, PaidOn(day), CollectedIn(r));
  }

  /** A single bound filters nothing: every recorded payment with a time is collected. */
  lemma OneBoundCollectsAll(payments: seq<Payment>, r: Range)
    requires r.from.None? || r.to.None?
    ensures CollectionsTotal(payments, r) == CollectionsTotal(payments, Range(None, None))
  {
    forall k | 0 <= k < |payments| ensures CollectedIn(r)(payments[k]) == CollectedIn(Range(None, None))(payments[k]) {
    }
    FilterSame(payments, CollectedIn(r), CollectedIn(Range(None, None)));
  }

  lemma CollectionsNonNegative(db: Db, r: Range)
    requires Amounts(db)
    ensures CollectionsTotal(db.payments, r) >= 0
  {
    SumNonNegative(Collected(db.payments, r), Amount);
  }

  // ---------------------------------------------------------------- grouping

  function IntLt(a: int, b: int): bool { a < b }

  lemma IntLtStrictTotal(s: seq<int>)
    ensures StrictTotalOn(s, IntLt)
  {
  }

  /** `select distinct ... orderBy` on integers: each value once, ascending, nothing else. */
  lemma DistinctKeys(s: seq<int>)
    ensures var d := SortedDistinct(s, IntLt);
      && (forall i, j :: 0 <= i < j < |d| ==> d[i] < d[j])
      && (forall x :: x in d <==> x in s)
  {
    IntLtStrictTotal(s);
    SortedDistinctIncreasing(s, IntLt);
    var d := SortedDistinct(s, IntLt);
    forall x | x in s ensures x in d {
      var i :| 0 <= i < |s| && s[i] == x;
    }
    forall x | x in d ensures x in s {
      var i :| 0 <= i < |d| && d[i] == x;
    }
  }

  /** The sum of `f` over the elements whose key is `key`: one group's `SUM`. */
  function GroupSum<T>(s: seq<T>, key: T -> int, f: T -> int, k: int): int
  {
    if s == [] then 0 else (if key(s[0]) == k then f(s[0]) else 0) + GroupSum(s[1..], key, f, k)
  }

  /** The group sums of the keys `keys`, added up. */
  function GroupsSum<T>(keys: seq<int>, s: seq<T>, key: T -> int, f: T -> int): int
  {
    if keys == [] then 0 else GroupSum(s, key, f, keys[0]) + GroupsSum(keys[1..], s, key, f)
  }

  /** `a` counted once for every key equal to `v`. */
  function Hits(keys: seq<int>, v: int, a: int): int
  {
    if keys == [] then 0 else (if keys[0] == v then a else 0) + Hits(keys[1..], v, a)
  }

  lemma {:induction false} HitsOnce(keys: seq<int>, v: int, a: int)
    requires forall i, j :: 0 <= i < j < |keys| ==> keys[i] < keys[j]
    ensures Hits(keys, v, a) == if v in keys then a else 0
  {
    if keys != [] {
      assert forall i, j :: 0 <= i < j < |keys[1..]| ==> keys[1..][i] < keys[1..][j];
      HitsOnce(keys[1..], v, a);
      if keys[0] == v {
        assert v !in keys[1..] by {
          forall i | 0 <= i < |keys[1..]| ensures keys[1..][i] != v {
            assert keys[1..][i] == keys[i + 1];
          }
        }
      } else {
        assert v in keys <==> v in keys[1..];
      }
    }
  }

  lemma {:induction false} GroupsSumCons<T>(keys: seq<int>, x: T, s: seq<T>, key: T -> int, f: T -> int)
    ensures GroupsSum(keys, [x] + s, key, f) == Hits(keys, key(x), f(x)) + GroupsSum(keys, s, key, f)
  {
    assert ([x] + s)[1..] == s;
    if keys != [] {
      GroupsSumCons(keys[1..], x, s, key, f);
    }
  }

  /** Groups over distinct keys covering every element partition the sum. */
  lemma {:induction false} GroupsPartition<T>(keys: seq<int>, s: seq<T>, key: T -> int, f: T -> int)
    requires forall i, j :: 0 <= i < j < |keys| ==> keys[i] < keys[j]
    requires forall k :: 0 <= k < |s| ==> key(s[k]) in keys
    ensures GroupsSum(keys, s, key, f) == SumOf(s, f)
  {
    if s == [] {
      if keys != [] {
        GroupsPartition(keys[1..], s, key, f);
      }
    } else {
      assert s == [s[0]] + s[1..];
      GroupsSumCons(keys, s[0], s[1..], key, f);
      HitsOnce(keys, key(s[0]), f(s[0]));
      GroupsPartition(keys, s[1..], key, f);
    }
  }

  /** The members of one group, for `COUNT(DISTINCT ...)`. */
  function GroupMembers<T>(s: seq<T>, key: T -> int, member: T -> int, k: int): seq<int>
  {
    if s == [] then [] else (if key(s[0]) == k then [member(s[0])] else []) + GroupMembers(s[1..], key, member, k)
  }

  lemma {:induction false} GroupMembersSpec<T>(s: seq<T>, key: T -> int, member: T -> int, k: int)
    ensures forall m :: m in GroupMembers(s, key, member, k) <==> exists i :: 0 <= i < |s| && key(s[i]) == k && member(s[i]) == m
  {
    if s != [] {
      GroupMembersSpec(s[1..], key, member, k);
      forall m ensures m in GroupMembers(s, key, member, k) <==> exists i :: 0 <= i < |s| && key(s[i]) == k && member(s[i]) == m {
        if m in GroupMembers(s[1..], key, member, k) {
          var i :| 0 <= i < |s[1..]| && key(s[1..][i]) == k && member(s[1..][i]) == m;
          assert s[i + 1] == s[1..][i];
        }
        if exists i :: 0 <= i < |s| && key(s[i]) == k && member(s[i]) == m {
          var i :| 0 <= i < |s| && key(s[i]) == k && member(s[i]) == m;
          if i > 0 {
            assert s[1..][i - 1] == s[i];
          }
        }
      }
    }
  }

  /** `COUNT(DISTINCT member)` of a group. */
  function GroupCount<T>(s: seq<T>, key: T -> int, member: T -> int, k: int): nat
  {
    |SortedDistinct(GroupMembers(s, key, member, k), IntLt)|
  }

  /** The distinct members counted are exactly the group's members, each once. */
  lemma GroupCountSpec<T>(s: seq<T>, key: T -> int, member: T -> int, k: int)
    ensures var d := SortedDistinct(GroupMembers(s, key, member, k), IntLt);
      && GroupCount(s, key, member, k) == |d|
      && (forall i, j :: 0 <= i < j < |d| ==> d[i] != d[j])
      && (forall m :: m in d <==> exists i :: 0 <= i < |s| && key(s[i]) == k && member(s[i]) == m)
  {
    DistinctKeys(GroupMembers(s, key, member, k));
    GroupMembersSpec(s, key, member, k);
  }

  // ---------------------------------------------------------------- dailyCollections

  function PaidDay(p: Payment): int
  {
    match p.paidAt
    case Some(t) => DayOf(t)
    case None => 0
  }

  function PaymentTicket(p: Payment): int { p.ticketId }

  /** One row of `daily`: the day, `COUNT(DISTINCT ticket_id)` and `SUM(amount)`. */
  datatype DailyRow = DailyRow(date: int, tickets: nat, amount: Cents)

  function DailyRows(days: seq<int>, c: seq<Payment>): (rows: seq<DailyRow>)
    ensures |rows| == |days|
    ensures forall i :: 0 <= i < |days| ==>
      rows[i] == DailyRow(days[i], GroupCount(c, PaidDay, PaymentTicket, days[i]), GroupSum(c, PaidDay, Amount, days[i]))
  {
    if days == [] then []
    else [DailyRow(days[0], GroupCount(c, PaidDay, PaymentTicket, days[0]), GroupSum(c, PaidDay, Amount, days[0]))] + DailyRows(days[1..], c)
  }

  /** `dailyCollections`: grouped by `DATE(paid_at)`, ordered by date. */
  function Daily(payments: seq<Payment>, r: Range): seq<DailyRow>
  {
    var c := Collected(payments, r);
    DailyRows(SortedDistinct(Map(c, PaidDay), IntLt), c)
  }

  function RowAmount(row: DailyRow): Cents { row.amount }

  lemma {:induction false} DailyRowsAmount(days: seq<int>, c: seq<Payment>)
    ensures SumOf(DailyRows(days, c), RowAmount) == GroupsSum(days, c, PaidDay, Amount)
  {
    if days != [] {
      assert DailyRows(days, c)[1..] == DailyRows(days[1..], c);
      DailyRowsAmount(days[1..], c);
    }
  }

  /** The days of the trend: each collection day once, ascending. */
  lemma DailyDays(payments: seq<Payment>, r: Range)
    ensures var c := Collected(payments, r);
      var days := SortedDistinct(Map(c, PaidDay), IntLt);
      && (forall i, j :: 0 <= i < j < |days| ==> days[i] < days[j])
      && (forall k :: 0 <= k < |c| ==> PaidDay(c[k]) in days)
      && (forall i :: 0 <= i < |days| ==> exists k :: 0 <= k < |c| && PaidDay(c[k]) == days[i])
  {
    var c := Collected(payments, r);
    var days := SortedDistinct(Map(c, PaidDay), IntLt);
    DistinctKeys(Map(c, PaidDay));
    forall k | 0 <= k < |c| ensures PaidDay(c[k]) in days {
      assert Map(c, PaidDay)[k] == PaidDay(c[k]);
    }
    forall i | 0 <= i < |days| ensures exists k :: 0 <= k < |c| && PaidDay(c[k]) == days[i] {
      assert days[i] in Map(c, PaidDay);
      var k :| 0 <= k < |c| && Map(c, PaidDay)[k] == days[i];
    }
  }

  /** The rows come in ascending date order, one per day. */
  lemma DailyAscending(payments: seq<Payment>, r: Range)
    ensures var rows := Daily(payments, r);
      forall i, j :: 0 <= i < j < |rows| ==> rows[i].date < rows[j].date
  {
    DailyDays(payments, r);
  }

  /** Every day with a collection has its row. */
  lemma DailyCovers(payments: seq<Payment>, r: Range, k: nat)
    requires k < |Collected(payments, r)|
    ensures exists i :: 0 <= i < |Daily(payments, r)| && Daily(payments, r)[i].date == PaidDay(Collected(payments, r)[k])
  {
    var c := Collected(payments, r);
    var days := SortedDistinct(Map(c, PaidDay), IntLt);
    DailyDays(payments, r);
    var i :| 0 <= i < |days| && days[i] == PaidDay(c[k]);
    assert Daily(payments, r)[i].date == days[i];
  }

  /** Each row is a day with a collection; it counts the distinct tickets and sums the
      amounts collected that day. */
  lemma DailyRowSpec(payments: seq<Payment>, r: Range, i: nat)
    requires i < |Daily(payments, r)|
    ensures var row := Daily(payments, r)[i];
      var c := Collected(payments, r);
      && (exists k :: 0 <= k < |c| && PaidDay(c[k]) == row.date)
      && row.tickets == GroupCount(c, PaidDay, PaymentTicket, row.date)
      && row.amount == GroupSum(c, PaidDay, Amount, row.date)
  {
    DailyDays(payments, r);
  }

  /** For the same range, the daily amounts add up to `total_collections`. */
  lemma DailyAddsUp(payments: seq<Payment>, r: Range)
    ensures SumOf(Daily(payments, r), RowAmount) == CollectionsTotal(payments, r)
  {
    var c := Collected(payments, r);
    var days := SortedDistinct(Map(c, PaidDay), IntLt);
    DailyDays(payments, r);
    DailyRowsAmount(days, c);
    GroupsPartition(days, c, PaidDay, Amount);
  }

  // ---------------------------------------------------------------- byViolation

  const ByViolationLimit: nat := 20

  /** A collected payment joined to its ticket and to the ticket's primary violation. */
  datatype Joined = Joined(violationId: nat, violationName: string, ticketId: nat, amount: Cents)

  /** The inner joins `payments -> tickets -> violations` on `tickets.violation_id`. */
  function JoinPayments(c: seq<Payment>, tickets: seq<Ticket>, catalog: seq<Violation>): seq<Joined>
  {
    if c == [] then []
    else
      var rest := JoinPayments(c[1..], tickets, catalog);
      match FindTicket(tickets, c[0].ticketId)
      case None => rest
      case Some(k) =>
        match FindViolation(catalog, tickets[k].violationId)
        case None => rest
        case Some(j) => [Joined(catalog[j].id, catalog[j].name, tickets[k].id, c[0].amount)] + rest
  }

  function NameOf(catalog: seq<Violation>, id: nat): string
  {
    match FindViolation(catalog, id)
    case Some(j) => catalog[j].name
    case None => ""
  }

  /** A joined row names a ticket with that primary violation, and that violation's name. */
  ghost predicate FromLedger(x: Joined, tickets: seq<Ticket>, catalog: seq<Violation>)
  {
    && (exists k :: 0 <= k < |tickets| && tickets[k].id == x.ticketId && tickets[k].violationId == x.violationId)
    && FindViolation(catalog, x.violationId).Some?
    && x.violationName == NameOf(catalog, x.violationId)
  }

  lemma {:induction false} JoinPaymentsSpec(c: seq<Payment>, tickets: seq<Ticket>, catalog: seq<Violation>)
    ensures forall i :: 0 <= i < |JoinPayments(c, tickets, catalog)| ==> FromLedger(JoinPayments(c, tickets, catalog)[i], tickets, catalog)
  {
    if c != [] {
      JoinPaymentsSpec(c[1..], tickets, catalog);
      var rest := JoinPayments(c[1..], tickets, catalog);
      var found := FindTicket(tickets, c[0].ticketId);
      if found.Some? {
        var k := found.value;
        var v := FindViolation(catalog, tickets[k].violationId);
        if v.Some? {
          var x := Joined(catalog[v.value].id, catalog[v.value].name, tickets[k].id, c[0].amount);
          assert JoinPayments(c, tickets, catalog) == [x] + rest;
          assert FromLedger(x, tickets, catalog);
        }
      }
    }
  }

  function JoinedViolation(x: Joined): int { x.violationId }
  function JoinedTicket(x: Joined): int { x.ticketId }
  function JoinedAmount(x: Joined): int { x.amount }

  /** One row of `by_violation`. */
  datatype ViolationRow = ViolationRow(violationId: nat, violationName: string, count: nat, amount: Cents)

  function ViolationRows(ids: seq<nat>, js: seq<Joined>, catalog: seq<Violation>): (rows: seq<ViolationRow>)
    ensures |rows| == |ids|
    ensures forall i :: 0 <= i < |ids| ==>
      rows[i] == ViolationRow(ids[i], NameOf(catalog, ids[i]), GroupCount(js, JoinedViolation, JoinedTicket, ids[i]),
                              GroupSum(js, JoinedViolation, JoinedAmount, ids[i]))
  {
    if ids == [] then []
    else
      [ViolationRow(ids[0], NameOf(catalog, ids[0]), GroupCount(js, JoinedViolation, JoinedTicket, ids[0]),
                    GroupSum(js, JoinedViolation, JoinedAmount, ids[0]))]
      + ViolationRows(ids[1..], js, catalog)
  }

  /** `orderByDesc('count')` */
  predicate CountDescLe(a: ViolationRow, b: ViolationRow) { a.count >= b.count }

  lemma CountDescPreorder(s: seq<ViolationRow>)
    ensures TotalPreorderOn(s, CountDescLe)
  {
  }

  function ViolationIds(js: seq<Joined>): (ids: seq<nat>)
    ensures ids == SortedDistinct(Map(js, JoinedViolation), IntLt)
  {
    var ids := SortedDistinct(Map(js, JoinedViolation), IntLt);
    assert forall i :: 0 <= i < |ids| ==> ids[i] >= 0 by {
      forall i | 0 <= i < |ids| ensures ids[i] >= 0 {
        assert ids[i] in Map(js, JoinedViolation);
      }
    }
    ids
  }

  function Joins(db: Db, r: Range): seq<Joined>
  {
    JoinPayments(Collected(db.payments, r), db.tickets, db.catalog)
  }

  /** All the groups, by ascending violation id (the order among equal counts is the
      database's choice; this is one of them). */
  function ViolationGroups(db: Db, r: Range): seq<ViolationRow>
  {
    var js := Joins(db, r);
    ViolationRows(ViolationIds(js), js, db.catalog)
  }

  /** `byViolation` */
  function ByViolation(db: Db, r: Range): seq<ViolationRow>
  {
    Take(SortBy(ViolationGroups(db, r), CountDescLe), ByViolationLimit)
  }

  /** At most 20 groups, largest count first, each one of the groups and none listed
      twice. */
  lemma ByViolationSpec(db: Db, r: Range)
    ensures var rows := ByViolation(db, r);
      && |rows| <= ByViolationLimit
      && SortedBy(rows, CountDescLe)
      && (forall i :: 0 <= i < |rows| ==> rows[i] in ViolationGroups(db, r))
      && multiset(rows) <= multiset(ViolationGroups(db, r))
  {
    var groups := ViolationGroups(db, r);
    var s := SortBy(groups, CountDescLe);
    CountDescPreorder(groups);
    SortBySorted(groups, CountDescLe);
    TakeSubMultiset(s, ByViolationLimit);
    var rows := ByViolation(db, r);
    forall i | 0 <= i < |rows| ensures rows[i] in groups {
      assert rows[i] == s[i];
      assert s[i] in multiset(groups);
    }
  }

  lemma TopKeepsLargest(groups: seq<ViolationRow>, g: ViolationRow)
    requires g in groups && g !in Take(SortBy(groups, CountDescLe), ByViolationLimit)
    ensures var rows := Take(SortBy(groups, CountDescLe), ByViolationLimit);
      |rows| == ByViolationLimit && forall i :: 0 <= i < |rows| ==> rows[i].count >= g.count
  {
    var s := SortBy(groups, CountDescLe);
    CountDescPreorder(groups);
    SortBySorted(groups, CountDescLe);
    assert g in multiset(s);
    var j :| 0 <= j < |s| && s[j] == g;
    assert j >= ByViolationLimit;
  }

  /** A group is left out only when 20 groups with at least its count are listed. */
  lemma ByViolationKeepsLargest(db: Db, r: Range, g: ViolationRow)
    requires g in ViolationGroups(db, r) && g !in ByViolation(db, r)
    ensures var rows := ByViolation(db, r);
      |rows| == ByViolationLimit && forall i :: 0 <= i < |rows| ==> rows[i].count >= g.count
  {
    TopKeepsLargest(ViolationGroups(db, r), g);
  }

  /** The groups come by ascending violation id, one per primary violation that has a
      collected payment. */
  lemma ViolationGroupsKeys(db: Db, r: Range)
    ensures var groups := ViolationGroups(db, r);
      && (forall i, j :: 0 <= i < j < |groups| ==> groups[i].violationId < groups[j].violationId)
      && (forall x :: x in Joins(db, r) ==> exists i :: 0 <= i < |groups| && groups[i].violationId == x.violationId)
  {
    var js := Joins(db, r);
    var ids := ViolationIds(js);
    var groups := ViolationGroups(db, r);
    DistinctKeys(Map(js, JoinedViolation));
    forall x | x in js ensures exists i :: 0 <= i < |groups| && groups[i].violationId == x.violationId {
      var m :| 0 <= m < |js| && js[m] == x;
      assert Map(js, JoinedViolation)[m] == x.violationId;
      var i :| 0 <= i < |ids| && ids[i] == x.violationId;
      assert groups[i].violationId == ids[i];
    }
  }

  /** A group is keyed by a ticket's primary violation id that is in the catalog, names
      that violation, counts the distinct tickets with that primary violation and a
      collected payment, and sums their collected amounts. */
  lemma ViolationGroupsSpec(db: Db, r: Range, i: nat)
    requires i < |ViolationGroups(db, r)|
    ensures var g := ViolationGroups(db, r)[i];
      var js := Joins(db, r);
      && (exists k :: 0 <= k < |db.tickets| && db.tickets[k].violationId == g.violationId)
      && FindViolation(db.catalog, g.violationId).Some?
      && g.violationName == NameOf(db.catalog, g.violationId)
      && g.count == GroupCount(js, JoinedViolation, JoinedTicket, g.violationId)
      && g.amount == GroupSum(js, JoinedViolation, JoinedAmount, g.violationId)
  {
    var js := Joins(db, r);
    var ids := ViolationIds(js);
    JoinPaymentsSpec(Collected(db.payments, r), db.tickets, db.catalog);
    assert ids[i] in Map(js, JoinedViolation);
    var m :| 0 <= m < |js| && Map(js, JoinedViolation)[m] == ids[i];
    assert FromLedger(js[m], db.tickets, db.catalog);
  }
  // ---------------------------------------------------------------- overview

  datatype Overview = Overview(summary: Summary, byViolation: seq<ViolationRow>, daily: seq<DailyRow>)

  /** `overview`: `today` is the day of `Carbon::today()`. */
  function OverviewOf(db: Db, r: Range, today: int): Overview
  {
    var (total, open, paid) := TicketCounts(db.tickets, r);
    Overview(Summary(total, open, paid, CollectionsTotal(db.payments, r), CollectionsToday(db.payments, today)),
             ByViolation(db, r), Daily(db.payments, r))
  }

  /** The summary's open and paid counts fit in its total, and its collections are the sum
      of the daily trend. */
  lemma OverviewSpec(db: Db, r: Range, today: int)
    ensures var o := OverviewOf(db, r, today);
      && o.summary.openTickets + o.summary.paidTickets <= o.summary.totalTickets
      && o.summary.totalCollections == SumOf(o.daily, RowAmount)
      && |o.byViolation| <= ByViolationLimit
  {
    TicketCountsSpec(db.tickets, r);
    DailyAddsUp(db.payments, r);
    ByViolationSpec(db, r);
  }
}
