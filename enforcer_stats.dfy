/** `EnforcerStatsController::today`: the calling enforcer's citations of the day. */
module EnforcerStats {
  import opened Wrappers
  import opened Seqs
  import opened Records

  /** `today_citations`, `today_total_fines` and `last_citation_at`. */
  datatype Stats = Stats(todayCitations: nat, todayTotalFines: Cents, lastCitationAt: Option<Instant>)

  /** `where('enforcer_id', $user->id)->whereDate('apprehended_at', $today)` */
  predicate IssuedOn(t: Ticket, enforcerId: nat, today: int)
  {
    t.enforcerId == enforcerId && DayOf(t.apprehendedAt) == today
  }

  function IssuedBy(enforcerId: nat, today: int): Ticket -> bool
  {
    (t: Ticket) => IssuedOn(t, enforcerId, today)
  }

  function TotalAmount(t: Ticket): Cents { t.totalAmount }

  /** `orderByDesc('apprehended_at')->value('apprehended_at')`: the latest time, null for no rows. */
  function Latest(ts: seq<Ticket>): (r: Option<Instant>)
    ensures r.None? <==> ts == []
    ensures r.Some? ==> exists k :: 0 <= k < |ts| && ts[k].apprehendedAt == r.value
    ensures r.Some? ==> forall k :: 0 <= k < |ts| ==> ts[k].apprehendedAt <= r.value
  {
    if ts == [] then None
    else
      match Latest(ts[1..])
      case None => Some(ts[0].apprehendedAt)
      case Some(m) => Some(if ts[0].apprehendedAt >= m then ts[0].apprehendedAt else m)
  }

  /** `today`; `today` is the day of `now()->toDateString()`. */
  function Today(tickets: seq<Ticket>, enforcerId: nat, today: int): Stats
  {
    var mine := Filter(tickets, IssuedBy(enforcerId, today));
    Stats(|mine|, SumOf(mine, TotalAmount), Latest(mine))
  }

  /** The count, the fines and the latest time are taken over exactly the caller's tickets
      of that day; the latest time is null exactly when there are none. */
  lemma TodaySpec(tickets: seq<Ticket>, enforcerId: nat, today: int)
    ensures var s := Today(tickets, enforcerId, today);
      var mine := Filter(tickets, IssuedBy(enforcerId, today));
      && s.todayCitations == |mine|
      && s.todayTotalFines == SumOf(mine, TotalAmount)
      && (forall t :: t in mine <==> t in tickets && IssuedOn(t, enforcerId, today))
      && (s.lastCitationAt.None? <==> s.todayCitations == 0)
      && (s.lastCitationAt.Some? ==>
            && DayOf(s.lastCitationAt.value) == today
            && (exists k :: 0 <= k < |tickets| && IssuedOn(tickets[k], enforcerId, today) && tickets[k].apprehendedAt == s.lastCitationAt.value)
            && (forall k :: 0 <= k < |tickets| && IssuedOn(tickets[k], enforcerId, today) ==> tickets[k].apprehendedAt <= s.lastCitationAt.value))
  {
    var mine := Filter(tickets, IssuedBy(enforcerId, today));
    var s := Today(tickets, enforcerId, today);
    if s.lastCitationAt.Some? {
      var m :| 0 <= m < |mine| && mine[m].apprehendedAt == s.lastCitationAt.value;
      var k :| 0 <= k < |tickets| && tickets[k] == mine[m];
      forall j | 0 <= j < |tickets| && IssuedOn(tickets[j], enforcerId, today)
        ensures tickets[j].apprehendedAt <= s.lastCitationAt.value
      {
        assert IssuedBy(enforcerId, today)(tickets[j]);
        var i :| 0 <= i < |mine| && mine[i] == tickets[j];
      }
    }
  }

  /** Nothing issued by the caller that day gives zero citations, zero fines and no time;
      any such ticket gives a citation and a time. */
  lemma NoCitations(tickets: seq<Ticket>, enforcerId: nat, today: int)
    ensures Today(tickets, enforcerId, today) == Stats(0, 0, None)
       <==> forall k :: 0 <= k < |tickets| ==> !IssuedOn(tickets[k], enforcerId, today)
  {
    if forall k :: 0 <= k < |tickets| ==> !IssuedOn(tickets[k], enforcerId, today) {
      FilterNone(tickets, IssuedBy(enforcerId, today));
    } else {
      var k :| 0 <= k < |tickets| && IssuedOn(tickets[k], enforcerId, today);
      assert IssuedBy(enforcerId, today)(tickets[k]);
      assert tickets[k] in Filter(tickets, IssuedBy(enforcerId, today));
    }
  }

  /** Tickets of other enforcers or of other days do not change the stats. */
  lemma OthersIgnored(tickets: seq<Ticket>, other: seq<Ticket>, enforcerId: nat, today: int)
    requires forall k :: 0 <= k < |other| ==> !IssuedOn(other[k], enforcerId, today)
    ensures Today(tickets + other, enforcerId, today) == Today(tickets, enforcerId, today)
  {
    FilterAppend(tickets, other, IssuedBy(enforcerId, today));
    FilterNone(other, IssuedBy(enforcerId, today));
    assert Filter(tickets, IssuedBy(enforcerId, today)) + [] == Filter(tickets, IssuedBy(enforcerId, today));
  }
}
