/** Community events: patch releases, tournaments and contests, split into
    upcoming and past by comparing their date with the current time. */
module Events {
  import opened Wrappers
  import opened Queries
  import opened Accounts

  datatype Event = Event(
    id: int,
    title: string,
    eventType: string,
    date: int,
    endDate: Option<int>,
    isActive: bool)

  /** A new event is active unless the form says otherwise. */
  function NewEvent(id: int, title: string, eventType: string, date: int, endDate: Option<int>): (e: Event)
    ensures e.isActive && e.date == date && e.id == id
  {
    Event(id, title, eventType, date, endDate, true)
  }

  function Soonest(e: Event): (int, int) { (e.date, 0) }
  function Latest(e: Event): (int, int) { (-e.date, 0) }
  function IsActiveEvent(e: Event): bool { e.isActive }

  /** `EventListView`: the active events, by date. */
  function ActiveEvents(events: seq<Event>): (r: seq<Event>)
    ensures SortedBy(r, Soonest)
    ensures forall e :: e in r <==> e in events && e.isActive
  {
    var r := SortBy(Filter(events, IsActiveEvent), Soonest);
    assert forall e :: e in r <==> e in multiset(r);
    r
  }

  /** `EventCalendarView`: the active events, in table order (the query
      has no `order_by` and `Event` declares no ordering). */
  function CalendarEvents(events: seq<Event>): (r: seq<Event>)
    ensures forall e :: multiset(r)[e] == if e.isActive then multiset(events)[e] else 0
  {
    Filter(events, IsActiveEvent)
  }

  /** The calendar and the list show the same events, each as often; only
      the order differs. */
  lemma CalendarMatchesList(events: seq<Event>)
    ensures multiset(CalendarEvents(events)) == multiset(ActiveEvents(events))
  {
  }

  /** `UpcomingEventListView`: active events at or after `now`, soonest first. */
  function Upcoming(events: seq<Event>, now: int): (r: seq<Event>)
    ensures SortedBy(r, Soonest)
    ensures forall e :: e in r <==> e in events && e.isActive && e.date >= now
  {
    var r := SortBy(Filter(events, (e: Event) => e.isActive && e.date >= now), Soonest);
    assert forall e :: e in r <==> e in multiset(r);
    r
  }

  /** `PastEventListView`: active events before `now`, latest first. */
  function Past(events: seq<Event>, now: int): (r: seq<Event>)
    ensures SortedBy(r, Latest)
    ensures forall e :: e in r <==> e in events && e.isActive && e.date < now
  {
    var r := SortBy(Filter(events, (e: Event) => e.isActive && e.date < now), Latest);
    assert forall e :: e in r <==> e in multiset(r);
    r
  }

  /** Upcoming and past split the active events: each is in exactly one. */
  lemma UpcomingPastPartition(events: seq<Event>, now: int, e: Event)
    requires e in events
    ensures e in Upcoming(events, now) || e in Past(events, now) <==> e.isActive
    ensures !(e in Upcoming(events, now) && e in Past(events, now))
    ensures e in ActiveEvents(events) <==> e in Upcoming(events, now) || e in Past(events, now)
  {
  }

  /** The previews on the list page: the five soonest upcoming events and
      the five latest past ones, or all of them when there are fewer. */
  function Previews(events: seq<Event>, now: int): (r: (seq<Event>, seq<Event>))
    ensures |r.0| <= 5 && |r.1| <= 5
    ensures forall e :: e in r.0 ==> e in events && e.isActive && e.date >= now
    ensures forall e :: e in r.1 ==> e in events && e.isActive && e.date < now
    ensures |r.0| < 5 ==> forall e :: e in events && e.isActive && e.date >= now ==> e in r.0
    ensures |r.1| < 5 ==> forall e :: e in events && e.isActive && e.date < now ==> e in r.1
    ensures forall e, x :: e in events && e.isActive && e.date >= now && e !in r.0 && x in r.0 ==> x.date <= e.date
    ensures forall e, x :: e in events && e.isActive && e.date < now && e !in r.1 && x in r.1 ==> e.date <= x.date
  {
    var up := Upcoming(events, now);
    var past := Past(events, now);
    var r := (Prefix(up, 5), Prefix(past, 5));
    forall e, x | e in events && e.isActive && e.date >= now && e !in r.0 && x in r.0 ensures x.date <= e.date {
      PrefixOfSorted(up, 5, Soonest, x, e);
    }
    forall e, x | e in events && e.isActive && e.date < now && e !in r.1 && x in r.1 ensures e.date <= x.date {
      PrefixOfSorted(past, 5, Latest, x, e);
    }
    r
  }

  /** The `is_upcoming` flag of the detail page: strictly after `now`. */
  predicate IsUpcoming(e: Event, now: int) {
    e.date > now
  }

  /** The flag and the lists disagree only at the boundary: an active event
      flagged upcoming is listed as upcoming, but an event dated exactly
      `now` is listed as upcoming without being flagged. */
  lemma UpcomingFlagBoundary(events: seq<Event>, now: int, e: Event)
    requires e in events && e.isActive
    ensures IsUpcoming(e, now) ==> e in Upcoming(events, now)
    ensures e in Upcoming(events, now) && !IsUpcoming(e, now) <==> e.date == now
  {
  }

  /** `EventTypeListView`: active events of one type, soonest first. */
  function EventsOfType(events: seq<Event>, eventType: string): (r: seq<Event>)
    ensures SortedBy(r, Soonest)
    ensures forall e :: e in r <==> e in events && e.isActive && e.eventType == eventType
  {
    var r := SortBy(Filter(events, (e: Event) => e.isActive && e.eventType == eventType), Soonest);
    assert forall e :: e in r <==> e in multiset(r);
    r
  }

  /** `EventRegisterView`: 404 for an unknown event, otherwise a message and
      a redirect; nothing is recorded. */
  function Register(events: seq<Event>, id: int): (r: Result<seq<Event>, Refusal>)
    ensures r.Failure? <==> forall e :: e in events ==> e.id != id
    ensures r.Success? ==> r.value == events
  {
    if Find(events, (e: Event) => e.id, id).None? then Failure(NotFound) else Success(events)
  }

  /** Create, update and delete: moderators only, checked before the lookup. */
  function ManageGate(requester: User, found: bool): (r: Option<Refusal>)
    ensures r == None <==> IsModerator(requester) && found
    ensures !IsModerator(requester) ==> r == Some(Forbidden)
  {
    RoleGate(IsModerator(requester), found)
  }
}
