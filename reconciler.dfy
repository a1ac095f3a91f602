/** The calendar merge of `generate_ical`: every scraped entry becomes an event
    whose UID is its start time, and events of the previously written calendar
    are carried over when their UID is not new and they start within the last
    90 days. */
module Reconciler {
  import opened Wrappers
  import opened Clock
  import opened Extractor

  /** A DTSTART or DTEND value: a date-time, or a bare date. */
  datatype When = At(t: DateTime) | OnDay(d: Date)

  /** A calendar event, reduced to the properties the merge reads or writes. */
  datatype Event = Event(uid: Option<string>, start: Option<When>, end: Option<When>,
                         summary: string, location: Option<string>, description: Option<string>)

  /** The host part of every UID this service writes (section 3.8.4.7 of RFC 5545
      asks for a globally unique identifier; the service uses start time and host). */
  const UidDomain: string := "@timepool.boras.se"

  /** How far back previous events are kept. */
  const RetentionDays: int := 90

  /** The UID of a new event: `start.strftime('%Y%m%d%H%M%S')` and the host. */
  function Uid(t: DateTime): (u: string)
    requires ValidDateTime(t)
    ensures |u| == 14 + |UidDomain| && AllDigits(u[..14]) && u[14..] == UidDomain
  {
    assert (Compact(t) + UidDomain)[..14] == Compact(t);
    Compact(t) + UidDomain
  }

  /** A UID is fourteen digits that read back as the start, to the second,
      followed by the host. */
  lemma UidDecodes(t: DateTime)
    requires ValidDateTime(t)
    ensures |Uid(t)| == 14 + |UidDomain| && Uid(t)[14..] == UidDomain
    ensures ReadCompact(Uid(t)[..14]) == Some(t.(micro := 0))
  {
    CompactRoundTrip(t);
    assert Uid(t)[..14] == Compact(t);
  }

  /** Two starts get the same UID exactly when they agree to the second. */
  lemma UidInjective(a: DateTime, b: DateTime)
    requires ValidDateTime(a) && ValidDateTime(b)
    ensures Uid(a) == Uid(b) <==> a.(micro := 0) == b.(micro := 0)
  {
    CompactInjective(a, b);
    if Uid(a) == Uid(b) {
      assert Compact(a) == Uid(a)[..14] == Uid(b)[..14] == Compact(b);
    }
  }

  /** The dictionary key of a previous event: `str(component.get('uid'))`,
      which is "None" for an event without a UID. */
  function Key(e: Event): (k: string)
    ensures e.uid.Some? ==> k == e.uid.value
    ensures k == "None" <==> e.uid.None? || e.uid == Some("None")
  {
    if e.uid.Some? then e.uid.value else "None"
  }

  /** Entries whose start times are real `datetime` values. */
  predicate ValidEntries(entries: seq<Entry>)
  {
    forall i :: 0 <= i < |entries| ==> ValidDateTime(entries[i].start)
  }

  /** Every entry the block loop emits has a valid start. */
  lemma {:induction false} EntriesValid(blocks: seq<Block>)
    ensures ValidEntries(Entries(blocks))
  {
    if blocks != [] {
      EntriesValid(blocks[..|blocks| - 1]);
    }
  }

  /** The event written for one scraped entry; location and description are
      added only when non-empty. */
  function NewEvent(entry: Entry): (e: Event)
    requires ValidDateTime(entry.start)
    ensures Key(e) == Uid(entry.start)
    ensures e.start == Some(At(entry.start)) && e.end == Some(At(entry.end))
    ensures e.summary == entry.summary
    ensures e.location == (if entry.location != "" then Some(entry.location) else None)
    ensures e.description == (if entry.description != "" then Some(entry.description) else None)
  {
    Event(Some(Uid(entry.start)), Some(At(entry.start)), Some(At(entry.end)), entry.summary,
          if entry.location != "" then Some(entry.location) else None,
          if entry.description != "" then Some(entry.description) else None)
  }

  /** The new events, one per entry, in entry order. */
  function NewEvents(entries: seq<Entry>): (r: seq<Event>)
    requires ValidEntries(entries)
    ensures |r| == |entries|
    ensures forall i :: 0 <= i < |entries| ==> r[i] == NewEvent(entries[i])
  {
    if entries == [] then []
    else NewEvents(entries[..|entries| - 1]) + [NewEvent(entries[|entries| - 1])]
  }

  /** The set `new_event_uids`. */
  function NewUids(entries: seq<Entry>): (u: set<string>)
    requires ValidEntries(entries)
    ensures forall i :: 0 <= i < |entries| ==> Uid(entries[i].start) in u
  {
    if entries == [] then {}
    else NewUids(entries[..|entries| - 1]) + {Uid(entries[|entries| - 1].start)}
  }

  /** The new UIDs are exactly the UIDs of the entries' starts. */
  lemma {:induction false} NewUidsMembers(entries: seq<Entry>, k: string)
    requires ValidEntries(entries)
    ensures k in NewUids(entries) <==> exists i :: 0 <= i < |entries| && k == Uid(entries[i].start)
  {
    if entries != [] {
      var n := |entries| - 1;
      var init := entries[..n];
      NewUidsMembers(init, k);
      if k in NewUids(init) {
        var i :| 0 <= i < n && k == Uid(init[i].start);
        assert init[i] == entries[i];
      }
      if exists i :: 0 <= i < |entries| && k == Uid(entries[i].start) {
        var i :| 0 <= i < |entries| && k == Uid(entries[i].start);
        if i < n {
          assert init[i] == entries[i];
        }
      }
    }
  }

  /** The dictionary `existing_events` after the loading loop: each UID maps
      to the last event that carries it. */
  function Index(events: seq<Event>): (m: map<string, Event>)
    ensures forall k :: k in m ==> Key(m[k]) == k
    ensures forall i :: 0 <= i < |events| ==> Key(events[i]) in m
  {
    if events == [] then map[]
    else
      var last := events[|events| - 1];
      Index(events[..|events| - 1])[Key(last) := last]
  }

  /** The iteration order of `existing_events`: each UID where it first occurs. */
  function FirstSeen(events: seq<Event>): seq<string>
  {
    if events == [] then []
    else
      var keys := FirstSeen(events[..|events| - 1]);
      var k := Key(events[|events| - 1]);
      if k in keys then keys else keys + [k]
  }

  predicate NoDup(s: seq<string>)
  {
    forall i, j :: 0 <= i < j < |s| ==> s[i] != s[j]
  }

  /** No two events of the list share a UID. */
  predicate DistinctKeys(events: seq<Event>)
  {
    forall i, j :: 0 <= i < j < |events| ==> Key(events[i]) != Key(events[j])
  }

  /** The dictionary's iteration order lists each of its keys exactly once. */
  lemma {:induction false} FirstSeenKeys(events: seq<Event>)
    ensures NoDup(FirstSeen(events))
    ensures forall k :: k in FirstSeen(events) <==> k in Index(events)
  {
    if events != [] {
      FirstSeenKeys(events[..|events| - 1]);
    }
  }

  /** Event i is the last one in `events` with its UID. */
  predicate LastOfKey(events: seq<Event>, i: int)
    requires 0 <= i < |events|
  {
    forall j :: i < j < |events| ==> Key(events[j]) != Key(events[i])
  }

  /** A later event with the same UID overwrites an earlier one: the last
      event carrying a UID is what the dictionary holds under it. */
  lemma {:induction false} IndexLastWins(events: seq<Event>, i: int)
    requires 0 <= i < |events| && LastOfKey(events, i)
    ensures Index(events)[Key(events[i])] == events[i]
  {
    var n := |events| - 1;
    if i < n {
      var init := events[..n];
      assert LastOfKey(init, i) by {
        forall j | i < j < n
          ensures Key(init[j]) != Key(init[i])
        {
          assert init[j] == events[j];
        }
      }
      IndexLastWins(init, i);
    }
  }

  /** Conversely, whatever the dictionary holds under a UID is the last
      event carrying that UID. */
  lemma {:induction false} IndexHoldsLast(events: seq<Event>, k: string)
    requires k in Index(events)
    ensures exists i :: 0 <= i < |events| && events[i] == Index(events)[k] && Key(events[i]) == k && LastOfKey(events, i)
  {
    var n := |events| - 1;
    var init := events[..n];
    if k == Key(events[n]) {
      assert Index(events)[k] == events[n];
      assert LastOfKey(events, n);
    } else {
      assert Index(events)[k] == Index(init)[k];
      IndexHoldsLast(init, k);
      var i :| 0 <= i < n && init[i] == Index(init)[k] && Key(init[i]) == k && LastOfKey(init, i);
      assert events[i] == init[i];
      assert LastOfKey(events, i) by {
        forall j | i < j < |events|
          ensures Key(events[j]) != Key(events[i])
        {
          if j < n {
            assert events[j] == init[j];
          }
        }
      }
      assert 0 <= i < |events| && events[i] == Index(events)[k] && Key(events[i]) == k;
    }
  }

  /** The instant a start denotes: a date counts as its midnight. */
  function StartInstant(w: When): DateTime
  {
    match w
    case At(t) => t
    case OnDay(d) => Midnight(d)
  }

  /** `now - timedelta(days=90)`, on the microsecond time line. */
  function Cutoff(now: DateTime): int
  {
    Micros(now) - RetentionDays * MicrosPerDay
  }

  /** The retention test as written: `dtstart and hasattr(dtstart.dt, 'date')`
      holds only for a date-time start, since a bare `date` has no `date`
      attribute. */
  predicate KeepAsWritten(e: Event, now: DateTime)
    ensures KeepAsWritten(e, now) ==> e.start.Some? && e.start.value.At?
  {
    e.start.Some? && e.start.value.At? && Micros(e.start.value.t) >= Cutoff(now)
  }

  /** The retention test as intended: a start, taken at midnight when it is
      a bare date, no earlier than the cutoff. */
  predicate Keep(e: Event, now: DateTime)
    ensures e.start.None? ==> !Keep(e, now)
    ensures e.start.Some? && e.start.value.OnDay? ==> (Keep(e, now) <==> Micros(Midnight(e.start.value.d)) >= Cutoff(now))
  {
    e.start.Some? && Micros(StartInstant(e.start.value)) >= Cutoff(now)
  }

  /** Both tests agree on events that start at a date-time. */
  lemma KeepAgrees(e: Event, now: DateTime)
    requires e.start.Some? && e.start.value.At?
    ensures KeepAsWritten(e, now) <==> Keep(e, now)
  {
  }

  /** A previous all-day event on today's date is dropped by the test as
      written, although its day lies well inside the 90-day window. */
  lemma DateOnlyDropped(e: Event, now: DateTime)
    requires ValidDateTime(now)
    requires e.start == Some(OnDay(now.date))
    ensures !KeepAsWritten(e, now)
    ensures Keep(e, now)
  {
    assert Micros(now) - Micros(Midnight(now.date)) < MicrosPerDay;
  }

  /** The cutoff is inclusive, and a start later than a kept start is kept. */
  lemma KeepLater(a: DateTime, b: DateTime, now: DateTime)
    requires ValidDateTime(a) && ValidDateTime(b)
    requires Micros(a) >= Cutoff(now)
    requires a == b || Before(a, b)
    ensures Micros(b) >= Cutoff(now)
  {
    MicrosOrder(a, b);
  }

  /** As time passes the window only moves forward: what is kept at a later
      `now` was kept at an earlier one. */
  lemma KeepShrinks(e: Event, now0: DateTime, now1: DateTime)
    requires ValidDateTime(now0) && ValidDateTime(now1) && Before(now0, now1)
    requires Keep(e, now1)
    ensures Keep(e, now0)
  {
    MicrosOrder(now0, now1);
  }

  /** The second loop: the events under `keys` whose UID is not new and
      which pass the retention test, in key order. */
  function RetainedFrom(keys: seq<string>, index: map<string, Event>, uids: set<string>, now: DateTime): (r: seq<Event>)
    requires forall k :: k in keys ==> k in index
    ensures |r| <= |keys|
    ensures forall e :: e in r ==> Keep(e, now)
  {
    if keys == [] then []
    else
      var k := keys[|keys| - 1];
      RetainedFrom(keys[..|keys| - 1], index, uids, now)
      + (if k !in uids && Keep(index[k], now) then [index[k]] else [])
  }

  /** The previous events carried over: `previous` is None when there is no
      readable calendar file. */
  function Retained(entries: seq<Entry>, previous: Option<seq<Event>>, now: DateTime): (r: seq<Event>)
    requires ValidEntries(entries)
    ensures forall e :: e in r ==> Keep(e, now)
  {
    var prev := if previous.Some? then previous.value else [];
    FirstSeenKeys(prev);
    RetainedFrom(FirstSeen(prev), Index(prev), NewUids(entries), now)
  }

  /** The events of the calendar `generate_ical` writes, in order. */
  function Merge(entries: seq<Entry>, previous: Option<seq<Event>>, now: DateTime): (r: seq<Event>)
    requires ValidEntries(entries)
    ensures |r| >= |entries|
    ensures forall i :: 0 <= i < |entries| ==> r[i] == NewEvent(entries[i])
    ensures forall i :: |entries| <= i < |r| ==> Keep(r[i], now)
  {
    NewEvents(entries) + Retained(entries, previous, now)
  }

  /** The UIDs of a list of events, in order. */
  function KeysOf(events: seq<Event>): (keys: seq<string>)
    ensures |keys| == |events|
    ensures forall i :: 0 <= i < |events| ==> keys[i] == Key(events[i])
  {
    if events == [] then []
    else KeysOf(events[..|events| - 1]) + [Key(events[|events| - 1])]
  }

  /** The events of a list that pass the retention test at `now`. */
  function KeptAt(events: seq<Event>, now: DateTime): (r: seq<Event>)
    ensures |r| <= |events|
  {
    if events == [] then []
    else
      var last := events[|events| - 1];
      KeptAt(events[..|events| - 1], now) + (if Keep(last, now) then [last] else [])
  }

  /** The filter keeps exactly the events of the list that pass the test. */
  lemma {:induction false} KeptAtMembers(events: seq<Event>, now: DateTime, e: Event)
    ensures e in KeptAt(events, now) <==> e in events && Keep(e, now)
  {
    if events != [] {
      var n := |events| - 1;
      KeptAtMembers(events[..n], now, e);
      assert events == events[..n] + [events[n]];
    }
  }

  /** Filtering by the retention test keeps a list whose every event passes it. */
  lemma {:induction false} KeptAll(events: seq<Event>, now: DateTime)
    requires forall i :: 0 <= i < |events| ==> Keep(events[i], now)
    ensures KeptAt(events, now) == events
  {
    if events != [] {
      var n := |events| - 1;
      var init := events[..n];
      assert forall i :: 0 <= i < |init| ==> init[i] == events[i];
      KeptAll(init, now);
      assert init + [events[n]] == events;
    }
  }

  /** An event is carried over exactly when some key of the order, not a
      new UID, holds it and it passes the retention test. */
  lemma {:induction false} RetainedFromMembers(keys: seq<string>, index: map<string, Event>, uids: set<string>,
                                               now: DateTime, e: Event)
    requires forall k :: k in keys ==> k in index
    ensures e in RetainedFrom(keys, index, uids, now)
            <==> exists k :: k in keys && k !in uids && index[k] == e && Keep(e, now)
  {
    if keys != [] {
      var init := keys[..|keys| - 1];
      var last := keys[|keys| - 1];
      assert forall k :: k in keys <==> k in init || k == last;
      RetainedFromMembers(init, index, uids, now, e);
    }
  }

  /** Over a duplicate-free order of keys that index their own events, the
      carried-over events have distinct UIDs, none of them new. */
  lemma {:induction false} RetainedKeys(keys: seq<string>, index: map<string, Event>, uids: set<string>, now: DateTime)
    requires forall k :: k in keys ==> k in index && Key(index[k]) == k
    requires NoDup(keys)
    ensures DistinctKeys(RetainedFrom(keys, index, uids, now))
    ensures forall e :: e in RetainedFrom(keys, index, uids, now) ==> Key(e) in keys && Key(e) !in uids
  {
    if keys != [] {
      var n := |keys| - 1;
      var init := keys[..n];
      var k := keys[n];
      forall x | x in init
        ensures x in index && Key(index[x]) == x
      {
        assert x in keys;
      }
      assert NoDup(init) by {
        forall i, j | 0 <= i < j < n
          ensures init[i] != init[j]
        {
          assert keys[i] != keys[j];
        }
      }
      RetainedKeys(init, index, uids, now);
      var r0 := RetainedFrom(init, index, uids, now);
      assert k !in init by {
        forall i | 0 <= i < n
          ensures init[i] != k
        {
          assert keys[i] != keys[n];
        }
      }
      if k !in uids && Keep(index[k], now) {
        var r := r0 + [index[k]];
        forall i, j | 0 <= i < j < |r|
          ensures Key(r[i]) != Key(r[j])
        {
          if j == |r0| {
            assert r[i] in r0;
          } else {
            assert r[i] == r0[i] && r[j] == r0[j];
          }
        }
        forall e | e in r
          ensures Key(e) in keys && Key(e) !in uids
        {
          if e in r0 {
            assert Key(e) in init;
          }
        }
      } else {
        forall e | e in r0
          ensures Key(e) in keys
        {
          assert Key(e) in init;
        }
      }
    }
  }

  lemma {:induction false} RetainedAppend(keys1: seq<string>, keys2: seq<string>, index: map<string, Event>,
                                          uids: set<string>, now: DateTime)
    requires forall k :: k in keys1 + keys2 ==> k in index
    ensures RetainedFrom(keys1 + keys2, index, uids, now)
            == RetainedFrom(keys1, index, uids, now) + RetainedFrom(keys2, index, uids, now)
  {
    if keys2 == [] {
      assert keys1 + keys2 == keys1;
    } else {
      var init := keys2[..|keys2| - 1];
      assert (keys1 + keys2)[..|keys1 + keys2| - 1] == keys1 + init;
      RetainedAppend(keys1, init, index, uids, now);
    }
  }

  lemma {:induction false} RetainedNone(keys: seq<string>, index: map<string, Event>, uids: set<string>, now: DateTime)
    requires forall k :: k in keys ==> k in index && k in uids
    ensures RetainedFrom(keys, index, uids, now) == []
  {
    if keys != [] {
      RetainedNone(keys[..|keys| - 1], index, uids, now);
    }
  }

  /** Walking an event list's own UIDs through an index that holds exactly
      those events keeps the events that pass the retention test. */
  lemma {:induction false} RetainedOwnKeys(events: seq<Event>, index: map<string, Event>, uids: set<string>, now: DateTime)
    requires forall i :: 0 <= i < |events| ==> Key(events[i]) in index && index[Key(events[i])] == events[i]
    requires forall i :: 0 <= i < |events| ==> Key(events[i]) !in uids
    ensures forall k :: k in KeysOf(events) ==> k in index
    ensures RetainedFrom(KeysOf(events), index, uids, now) == KeptAt(events, now)
  {
    if events != [] {
      var init := events[..|events| - 1];
      RetainedOwnKeys(init, index, uids, now);
      assert KeysOf(events)[..|events| - 1] == KeysOf(init);
    }
  }

  lemma {:induction false} FirstSeenFrom(events: seq<Event>, k: string)
    requires k in FirstSeen(events)
    ensures exists i :: 0 <= i < |events| && Key(events[i]) == k
  {
    var n := |events| - 1;
    if k != Key(events[n]) {
      FirstSeenFrom(events[..n], k);
      var i :| 0 <= i < n && Key(events[..n][i]) == k;
      assert events[i] == events[..n][i];
    }
  }

  /** Appending events with unseen, distinct UIDs appends their UIDs to the
      dictionary's order. */
  lemma {:induction false} FirstSeenExtend(a: seq<Event>, b: seq<Event>)
    requires DistinctKeys(b)
    requires forall i :: 0 <= i < |b| ==> Key(b[i]) !in FirstSeen(a)
    ensures FirstSeen(a + b) == FirstSeen(a) + KeysOf(b)
  {
    if b == [] {
      assert a + b == a;
    } else {
      var n := |b| - 1;
      var init := b[..n];
      var e := b[n];
      FreshPrefix(a, b, init);
      FirstSeenExtend(a, init);
      LastKeyFresh(a, b);
      assert b == init + [e];
      FirstSeenStep(a, init, e);
    }
  }

  /** A run of distinct, unseen UIDs stays one without its last event. */
  lemma FreshPrefix(a: seq<Event>, b: seq<Event>, init: seq<Event>)
    requires b != [] && DistinctKeys(b) && init == b[..|b| - 1]
    requires forall i :: 0 <= i < |b| ==> Key(b[i]) !in FirstSeen(a)
    ensures DistinctKeys(init)
    ensures forall i :: 0 <= i < |init| ==> Key(init[i]) !in FirstSeen(a)
  {
    assert forall i :: 0 <= i < |init| ==> init[i] == b[i];
  }

  /** One step of the extension: an unseen UID after a run already in order. */
  lemma FirstSeenStep(a: seq<Event>, init: seq<Event>, e: Event)
    requires FirstSeen(a + init) == FirstSeen(a) + KeysOf(init)
    requires Key(e) !in FirstSeen(a) + KeysOf(init)
    ensures FirstSeen(a + (init + [e])) == FirstSeen(a) + KeysOf(init + [e])
  {
    calc {
      FirstSeen(a + (init + [e]));
      { AppendAssoc(a, init, [e]); }
      FirstSeen((a + init) + [e]);
      { FirstSeenSnoc(a + init, e); }
      (FirstSeen(a) + KeysOf(init)) + [Key(e)];
      { AppendAssoc(FirstSeen(a), KeysOf(init), [Key(e)]); }
      FirstSeen(a) + (KeysOf(init) + [Key(e)]);
      { KeysOfLast(init + [e]); assert (init + [e])[..|init|] == init; }
      FirstSeen(a) + KeysOf(init + [e]);
    }
  }

  /** The last of a run of distinct, unseen UIDs is neither seen before the
      run nor among the run's earlier UIDs. */
  lemma LastKeyFresh(a: seq<Event>, b: seq<Event>)
    requires b != [] && DistinctKeys(b)
    requires forall i :: 0 <= i < |b| ==> Key(b[i]) !in FirstSeen(a)
    ensures Key(b[|b| - 1]) !in FirstSeen(a) + KeysOf(b[..|b| - 1])
  {
    var n := |b| - 1;
    forall j | 0 <= j < n
      ensures KeysOf(b[..n])[j] != Key(b[n])
    {
      assert b[..n][j] == b[j];
    }
  }

  lemma AppendAssoc<T>(x: seq<T>, y: seq<T>, z: seq<T>)
    ensures (x + y) + z == x + (y + z)
  {
  }

  /** The keys of a list are those of all but its last event, then the last one's. */
  lemma KeysOfLast(events: seq<Event>)
    requires events != []
    ensures KeysOf(events) == KeysOf(events[..|events| - 1]) + [Key(events[|events| - 1])]
  {
  }

  /** An event with an unseen UID appends that UID to the order. */
  lemma FirstSeenSnoc(events: seq<Event>, e: Event)
    requires Key(e) !in FirstSeen(events)
    ensures FirstSeen(events + [e]) == FirstSeen(events) + [Key(e)]
  {
    assert (events + [e])[..|events|] == events;
  }

  /** Events appended with distinct UIDs are what the dictionary holds
      under those UIDs. */
  lemma IndexAppendedAt(a: seq<Event>, b: seq<Event>, i: int)
    requires DistinctKeys(b) && 0 <= i < |b|
    ensures Key(b[i]) in Index(a + b) && Index(a + b)[Key(b[i])] == b[i]
  {
    var m := a + b;
    var p := |a| + i;
    assert m[p] == b[i];
    forall j | p < j < |m|
      ensures Key(m[j]) != Key(m[p])
    {
      assert m[j] == b[j - |a|];
      assert Key(b[i]) != Key(b[j - |a|]);
    }
    assert LastOfKey(m, p);
    IndexLastWins(m, p);
  }

  lemma IndexAppended(a: seq<Event>, b: seq<Event>)
    requires DistinctKeys(b)
    ensures forall i :: 0 <= i < |b| ==> Key(b[i]) in Index(a + b) && Index(a + b)[Key(b[i])] == b[i]
  {
    forall i | 0 <= i < |b|
      ensures Key(b[i]) in Index(a + b) && Index(a + b)[Key(b[i])] == b[i]
    {
      IndexAppendedAt(a, b, i);
    }
  }

  /** With no readable previous calendar, the result is the new events alone. */
  lemma MergeWithoutHistory(entries: seq<Entry>, now: DateTime)
    requires ValidEntries(entries)
    ensures Merge(entries, None, now) == NewEvents(entries)
  {
    assert Merge(entries, None, now) == NewEvents(entries) + [];
  }

  /** A previous event is carried over exactly when it is the last one with
      its UID, that UID is not a new one, and it passes the retention test. */
  lemma MergeRetainedIff(entries: seq<Entry>, previous: seq<Event>, now: DateTime, e: Event)
    requires ValidEntries(entries)
    ensures e in Retained(entries, Some(previous), now)
            <==> && (exists i :: 0 <= i < |previous| && previous[i] == e && LastOfKey(previous, i))
                 && Key(e) !in NewUids(entries)
                 && Keep(e, now)
  {
    var index := Index(previous);
    var uids := NewUids(entries);
    FirstSeenKeys(previous);
    RetainedFromMembers(FirstSeen(previous), index, uids, now, e);
    if e in Retained(entries, Some(previous), now) {
      var k :| k in FirstSeen(previous) && k !in uids && index[k] == e && Keep(e, now);
      IndexHoldsLast(previous, k);
    }
    if exists i :: 0 <= i < |previous| && previous[i] == e && LastOfKey(previous, i) {
      var i :| 0 <= i < |previous| && previous[i] == e && LastOfKey(previous, i);
      IndexLastWins(previous, i);
    }
  }

  /** The new events and the carried-over ones never share a UID, and none
      of the carried-over ones share one among themselves. */
  lemma RetainedFresh(entries: seq<Entry>, previous: Option<seq<Event>>, now: DateTime)
    requires ValidEntries(entries)
    ensures DistinctKeys(Retained(entries, previous, now))
    ensures forall e :: e in Retained(entries, previous, now) ==> Key(e) !in NewUids(entries)
  {
    var prev := if previous.Some? then previous.value else [];
    FirstSeenKeys(prev);
    RetainedKeys(FirstSeen(prev), Index(prev), NewUids(entries), now);
  }

  /** When the entries start at distinct times (to the second), every event
      of the merged calendar has its own UID. */
  lemma MergeDistinctKeys(entries: seq<Entry>, previous: Option<seq<Event>>, now: DateTime)
    requires ValidEntries(entries)
    requires forall i, j :: 0 <= i < j < |entries| ==> entries[i].start.(micro := 0) != entries[j].start.(micro := 0)
    ensures DistinctKeys(Merge(entries, previous, now))
  {
    var added := NewEvents(entries);
    var kept := Retained(entries, previous, now);
    var m := added + kept;
    RetainedFresh(entries, previous, now);
    forall i, j | 0 <= i < j < |m|
      ensures Key(m[i]) != Key(m[j])
    {
      if j < |entries| {
        UidInjective(entries[i].start, entries[j].start);
      } else if i < |entries| {
        assert kept[j - |entries|] in kept;
        assert Key(m[i]) in NewUids(entries);
      } else {
        assert Key(kept[i - |entries|]) != Key(kept[j - |entries|]);
      }
    }
  }

  /** A calendar made of events whose UIDs are all new, followed by events
      with distinct UIDs none of which is new, carries over exactly the
      latter that pass the retention test. */
  lemma RemergeParts(added: seq<Event>, kept: seq<Event>, uids: set<string>, now: DateTime)
    requires forall i :: 0 <= i < |added| ==> Key(added[i]) in uids
    requires DistinctKeys(kept)
    requires forall i :: 0 <= i < |kept| ==> Key(kept[i]) !in uids
    ensures forall k :: k in FirstSeen(added + kept) ==> k in Index(added + kept)
    ensures RetainedFrom(FirstSeen(added + kept), Index(added + kept), uids, now) == KeptAt(kept, now)
  {
    var m := added + kept;
    FirstSeenKeys(m);
    forall i | 0 <= i < |kept|
      ensures Key(kept[i]) !in FirstSeen(added)
    {
      if Key(kept[i]) in FirstSeen(added) {
        FirstSeenFrom(added, Key(kept[i]));
      }
    }
    FirstSeenExtend(added, kept);
    IndexAppended(added, kept);
    RetainedOwnKeys(kept, Index(m), uids, now);
    forall k | k in FirstSeen(added)
      ensures k in Index(m) && k in uids
    {
      FirstSeenFrom(added, k);
      var i :| 0 <= i < |added| && Key(added[i]) == k;
      assert m[i] == added[i];
    }
    RetainedNone(FirstSeen(added), Index(m), uids, now);
    RetainedAppend(FirstSeen(added), KeysOf(kept), Index(m), uids, now);
  }

  /** Running the merge again on its own output with the same entries keeps
      the new events and re-applies the retention test to the carried-over
      ones at the new time. */
  lemma Remerge(entries: seq<Entry>, previous: Option<seq<Event>>, t0: DateTime, t1: DateTime)
    requires ValidEntries(entries)
    ensures Merge(entries, Some(Merge(entries, previous, t0)), t1)
            == NewEvents(entries) + KeptAt(Retained(entries, previous, t0), t1)
  {
    var added := NewEvents(entries);
    var kept := Retained(entries, previous, t0);
    RetainedFresh(entries, previous, t0);
    forall i | 0 <= i < |kept|
      ensures Key(kept[i]) !in NewUids(entries)
    {
      assert kept[i] in kept;
    }
    RemergeParts(added, kept, NewUids(entries), t1);
  }

  /** Re-running the merge at the same instant with the same entries
      reproduces the calendar it wrote. */
  lemma MergeIdempotent(entries: seq<Entry>, previous: Option<seq<Event>>, now: DateTime)
    requires ValidEntries(entries)
    ensures Merge(entries, Some(Merge(entries, previous, now)), now) == Merge(entries, previous, now)
  {
    Remerge(entries, previous, now, now);
    var kept := Retained(entries, previous, now);
    forall i | 0 <= i < |kept|
      ensures Keep(kept[i], now)
    {
      assert kept[i] in kept;
    }
    KeptAll(kept, now);
  }

  /** Loads the previous calendar's events into the dictionary, keeping the
      dictionary's insertion order beside it. */
  method LoadPrevious(events: seq<Event>) returns (existing: map<string, Event>, order: seq<string>)
    ensures existing == Index(events) && order == FirstSeen(events)
  {
    existing, order := map[], [];
    for i := 0 to |events|
      invariant existing == Index(events[..i]) && order == FirstSeen(events[..i])
    {
      assert events[..i + 1][..i] == events[..i];
      FirstSeenKeys(events[..i]);
      var uid := Key(events[i]);
      if uid !in existing {
        order := order + [uid];
      }
      existing := existing[uid := events[i]];
    }
    assert events[..|events|] == events;
  }

  /** The new events and their UID set, built entry by entry. */
  method AddNewEvents(entries: seq<Entry>) returns (cal: seq<Event>, newUids: set<string>)
    requires ValidEntries(entries)
    ensures cal == NewEvents(entries) && newUids == NewUids(entries)
  {
    cal, newUids := [], {};
    for i := 0 to |entries|
      invariant cal == NewEvents(entries[..i]) && newUids == NewUids(entries[..i])
    {
      assert entries[..i + 1][..i] == entries[..i];
      var uid := Uid(entries[i].start);
      cal := cal + [NewEvent(entries[i])];
      newUids := newUids + {uid};
    }
    assert entries[..|entries|] == entries;
  }

  /** The second loop: appends each previous event whose UID is not new and
      which passes the retention test, counting them. */
  method MergeHistory(cal0: seq<Event>, existing: map<string, Event>, order: seq<string>,
                      newUids: set<string>, now: DateTime)
    returns (cal: seq<Event>, merged: nat)
    requires forall k :: k in order ==> k in existing
    ensures cal == cal0 + RetainedFrom(order, existing, newUids, now)
    ensures merged == |RetainedFrom(order, existing, newUids, now)|
  {
    cal, merged := cal0, 0;
    for i := 0 to |order|
      invariant cal == cal0 + RetainedFrom(order[..i], existing, newUids, now)
      invariant merged == |RetainedFrom(order[..i], existing, newUids, now)|
    {
      assert order[..i + 1][..i] == order[..i];
      var uid := order[i];
      if uid !in newUids {
        var prior := existing[uid];
        if Keep(prior, now) {
          cal := cal + [prior];
          merged := merged + 1;
        }
      }
    }
    assert order[..|order|] == order;
  }

  /** `generate_ical`: returns the calendar's events and `merged_count`. */
  method GenerateCalendar(entries: seq<Entry>, previous: Option<seq<Event>>, now: DateTime)
    returns (cal: seq<Event>, merged: nat)
    requires ValidEntries(entries)
    ensures cal == Merge(entries, previous, now)
    ensures |cal| == |entries| + merged
  {
    var existing: map<string, Event> := map[];
    var order: seq<string> := [];
    if previous.Some? {
      existing, order := LoadPrevious(previous.value);
    }
    FirstSeenKeys(if previous.Some? then previous.value else []);
    var added, newUids := AddNewEvents(entries);
    cal, merged := MergeHistory(added, existing, order, newUids, now);
  }
}
