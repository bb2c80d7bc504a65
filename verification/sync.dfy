/**
 * One synchronisation run: collect the events of the matching messages, keep
 * the latest revision of each, drop the ones that ended too long ago, order
 * the rest by start, and decide for each whether the destination calendar
 * entry is created, updated, deleted or left alone, counting the outcomes.
 */
module Sync {
  import opened Base
  import opened Text
  import opened Time
  import opened IcsParser
  import opened CalendarClient
  import opened GmailClient

  // ---------------------------------------------------------------- decisions

  /** An entry found in the destination calendar by the event's uid: its id and its `status`, if any. */
  datatype Existing = Existing(id: string, status: Option<string>)

  /** Which counter an event moves. */
  datatype Outcome = Created | Updated | Deleted | Skipped

  /** A change sent to the calendar: delete an entry, patch it with a body, or import a new one under the event's uid. */
  datatype Mutation =
    | DeleteEntry(id: string)
    | PatchEntry(id: string, body: Body)
    | ImportEntry(body: Body, iCalUid: string)

  /** What the loop does with one event: the counter it moves and the change it sends, if any. */
  datatype Decision = Decision(outcome: Outcome, mutation: Option<Mutation>)

  /** The status the parser gives a withdrawn Meetup event. */
  const CancelledEvent: string := "CANCELLED"
  /** The status Google Calendar gives an entry that has already been deleted. */
  const CancelledEntry: string := "cancelled"

  /** An existing entry that is still live, i.e. one a real run would delete. */
  predicate Live(existing: Option<Existing>) {
    existing.Some? && existing.value.status != Some(CancelledEntry)
  }

  /**
   * The body of the loop over eligible events. A cancelled event deletes a
   * live entry and is otherwise skipped; any other event patches the entry
   * found or imports a new one. A dry run decides the same way, except that it
   * counts a cancelled event as deleted whenever any entry is found, and it
   * sends nothing.
   */
  function Decide(e: Event, existing: Option<Existing>, dryRun: bool): (d: Decision)
    ensures dryRun ==> d.mutation.None?
    ensures e.status == CancelledEvent && !dryRun ==>
      if Live(existing) then d == Decision(Deleted, Some(DeleteEntry(existing.value.id))) else d == Decision(Skipped, None)
    ensures e.status == CancelledEvent && dryRun ==> d.outcome == if existing.Some? then Deleted else Skipped
    ensures e.status != CancelledEvent ==> d.outcome == if existing.Some? then Updated else Created
    ensures e.status != CancelledEvent && !dryRun && existing.Some? ==> d.mutation == Some(PatchEntry(existing.value.id, BuildBody(e)))
    ensures e.status != CancelledEvent && !dryRun && existing.None? ==> d.mutation == Some(ImportEntry(BuildBody(e), e.uid))
  {
    if e.status == CancelledEvent then
      if dryRun then Decision(if existing.Some? then Deleted else Skipped, None)
      else if Live(existing) then Decision(Deleted, Some(DeleteEntry(existing.value.id)))
      else Decision(Skipped, None)
    else
      var body := BuildBody(e);
      if dryRun then Decision(if existing.Some? then Updated else Created, None)
      else if existing.Some? then Decision(Updated, Some(PatchEntry(existing.value.id, body)))
      else Decision(Created, Some(ImportEntry(body, e.uid)))
  }

  /**
   * A dry run predicts the real run's outcome for every event but one kind: a
   * cancelled event whose entry is already cancelled, which the dry run counts
   * as deleted and the real run as skipped.
   */
  lemma DryRunPredicts(e: Event, existing: Option<Existing>)
    ensures Decide(e, existing, true).outcome == Decide(e, existing, false).outcome
      <==> !(e.status == CancelledEvent && existing.Some? && !Live(existing))
  {
  }

  /** Every change a real run sends concerns the entry that was found, or imports under the event's own uid. */
  lemma MutationTargets(e: Event, existing: Option<Existing>)
    ensures var m := Decide(e, existing, false).mutation;
      m.Some? ==> match m.value
        case DeleteEntry(id) => existing.Some? && id == existing.value.id
        case PatchEntry(id, body) => existing.Some? && id == existing.value.id && body.privateProperties["meetup_uid"] == e.uid
        case ImportEntry(body, uid) => existing.None? && uid == e.uid && body.privateProperties["meetup_uid"] == e.uid
  {
  }

  // ---------------------------------------------------------------- counters

  /** `SyncStats`: the run's counters and whether it was a dry run. */
  datatype SyncStats = SyncStats(
    parsed: nat,
    deduped: nat,
    processed: nat,
    created: nat,
    updated: nat,
    deleted: nat,
    skipped: nat,
    dryRun: bool)

  /** The number of events the loop has acted on, whatever the outcome. */
  function Acted(s: SyncStats): nat {
    s.created + s.updated + s.deleted + s.skipped
  }

  /** Moving the counter of one outcome. */
  function Tally(s: SyncStats, o: Outcome): (r: SyncStats)
    ensures Acted(r) == Acted(s) + 1
    ensures r.parsed == s.parsed && r.deduped == s.deduped && r.processed == s.processed && r.dryRun == s.dryRun
  {
    match o
    case Created => s.(created := s.created + 1)
    case Updated => s.(updated := s.updated + 1)
    case Deleted => s.(deleted := s.deleted + 1)
    case Skipped => s.(skipped := s.skipped + 1)
  }

  /** The counters and the changes sent after a stretch of the loop. */
  datatype Progress = Progress(stats: SyncStats, mutations: seq<Mutation>)

  /**
   * The loop over the ordered eligible events: each one is looked up by uid
   * through `lookup`, decided, counted, and its change, if any, sent in turn.
   */
  function Reconcile(events: seq<Event>, lookup: string -> Option<Existing>, dryRun: bool, start: SyncStats): (r: Progress)
    ensures Acted(r.stats) == Acted(start) + |events|
    ensures r.stats.parsed == start.parsed && r.stats.deduped == start.deduped
    ensures r.stats.processed == start.processed && r.stats.dryRun == start.dryRun
    ensures |r.mutations| <= |events|
    ensures dryRun ==> r.mutations == []
    ensures !dryRun ==> r.mutations == Mutations(events, lookup)
    decreases |events|
  {
    if events == [] then Progress(start, [])
    else
      var d := Decide(events[0], lookup(events[0].uid), dryRun);
      var rest := Reconcile(events[1..], lookup, dryRun, Tally(start, d.outcome));
      Progress(rest.stats, (if d.mutation.Some? then [d.mutation.value] else []) + rest.mutations)
  }

  /**
   * The changes a real run sends for `events`, each event's own change in
   * loop order, whatever the counters read.
   */
  function Mutations(events: seq<Event>, lookup: string -> Option<Existing>): seq<Mutation>
    decreases |events|
  {
    if events == [] then []
    else
      var m := Decide(events[0], lookup(events[0].uid), false).mutation;
      (if m.Some? then [m.value] else []) + Mutations(events[1..], lookup)
  }

  /** A real run sends exactly one change for every event it does not skip. */
  lemma {:induction false} MutationsCount(events: seq<Event>, lookup: string -> Option<Existing>)
    ensures |Mutations(events, lookup)| + Count(Outcomes(events, lookup, false), Skipped) == |events|
    decreases |events|
  {
    if events != [] {
      MutationsCount(events[1..], lookup);
      assert Outcomes(events, lookup, false)[1..] == Outcomes(events[1..], lookup, false);
    }
  }

  /** The outcome of each event, in loop order. */
  function Outcomes(events: seq<Event>, lookup: string -> Option<Existing>, dryRun: bool): (os: seq<Outcome>)
    ensures |os| == |events|
    ensures forall i :: 0 <= i < |events| ==> os[i] == Decide(events[i], lookup(events[i].uid), dryRun).outcome
  {
    seq(|events|, i requires 0 <= i < |events| => Decide(events[i], lookup(events[i].uid), dryRun).outcome)
  }

  function Count(os: seq<Outcome>, o: Outcome): (n: nat)
    ensures n <= |os|
  {
    if os == [] then 0 else (if os[0] == o then 1 else 0) + Count(os[1..], o)
  }

  /** Each counter grows by exactly the number of events decided its way. */
  lemma {:induction false} ReconcileCounts(events: seq<Event>, lookup: string -> Option<Existing>, dryRun: bool, start: SyncStats)
    ensures var s, os := Reconcile(events, lookup, dryRun, start).stats, Outcomes(events, lookup, dryRun);
      && s.created == start.created + Count(os, Created)
      && s.updated == start.updated + Count(os, Updated)
      && s.deleted == start.deleted + Count(os, Deleted)
      && s.skipped == start.skipped + Count(os, Skipped)
  {
    ReconcileTallies(events, lookup, dryRun, start);
    TalliedCounts(start, Outcomes(events, lookup, dryRun));
  }

  /** The counters after tallying a sequence of outcomes in turn. */
  function Tallied(start: SyncStats, os: seq<Outcome>): SyncStats
    decreases |os|
  {
    if os == [] then start else Tallied(Tally(start, os[0]), os[1..])
  }

  lemma {:induction false} TalliedCounts(start: SyncStats, os: seq<Outcome>)
    ensures var s := Tallied(start, os);
      && s.created == start.created + Count(os, Created)
      && s.updated == start.updated + Count(os, Updated)
      && s.deleted == start.deleted + Count(os, Deleted)
      && s.skipped == start.skipped + Count(os, Skipped)
    decreases |os|
  {
    if os != [] {
      TalliedCounts(Tally(start, os[0]), os[1..]);
    }
  }

  /** The loop's counters are its events' outcomes tallied in order. */
  lemma {:induction false} ReconcileTallies(events: seq<Event>, lookup: string -> Option<Existing>, dryRun: bool, start: SyncStats)
    ensures Reconcile(events, lookup, dryRun, start).stats == Tallied(start, Outcomes(events, lookup, dryRun))
    decreases |events|
  {
    if events != [] {
      var o := Decide(events[0], lookup(events[0].uid), dryRun).outcome;
      ReconcileTallies(events[1..], lookup, dryRun, Tally(start, o));
      assert Outcomes(events, lookup, dryRun)[1..] == Outcomes(events[1..], lookup, dryRun);
    }
  }

  /** The cancelled events whose entry exists but is already cancelled: the only events a dry run miscounts. */
  function StaleCancellations(events: seq<Event>, lookup: string -> Option<Existing>): (n: nat)
    ensures n <= |events|
  {
    if events == [] then 0
    else
      var e := events[0];
      var x := lookup(e.uid);
      (if e.status == CancelledEvent && x.Some? && !Live(x) then 1 else 0) + StaleCancellations(events[1..], lookup)
  }

  /**
   * Dry and real runs over the same events and calendar agree on created and
   * updated; the dry run counts each stale cancellation as deleted where the
   * real run counts it as skipped.
   */
  lemma DryRunCounts(events: seq<Event>, lookup: string -> Option<Existing>, dry: SyncStats, wet: SyncStats)
    ensures var d, r := Reconcile(events, lookup, true, dry).stats, Reconcile(events, lookup, false, wet).stats;
      && d.created - dry.created == r.created - wet.created
      && d.updated - dry.updated == r.updated - wet.updated
      && (d.deleted - dry.deleted) == (r.deleted - wet.deleted) + StaleCancellations(events, lookup)
      && (d.skipped - dry.skipped) + StaleCancellations(events, lookup) == (r.skipped - wet.skipped)
  {
    ReconcileCounts(events, lookup, true, dry);
    ReconcileCounts(events, lookup, false, wet);
    OutcomeDifference(events, lookup);
  }

  /** The dry and real outcome sequences differ exactly at the stale cancellations. */
  lemma {:induction false} OutcomeDifference(events: seq<Event>, lookup: string -> Option<Existing>)
    ensures var od, ow, n := Outcomes(events, lookup, true), Outcomes(events, lookup, false), StaleCancellations(events, lookup);
      && Count(od, Created) == Count(ow, Created)
      && Count(od, Updated) == Count(ow, Updated)
      && Count(od, Deleted) == Count(ow, Deleted) + n
      && Count(od, Skipped) + n == Count(ow, Skipped)
    decreases |events|
  {
    if events != [] {
      var e := events[0];
      DryRunStep(e, lookup(e.uid));
      OutcomeDifference(events[1..], lookup);
      assert Outcomes(events, lookup, true)[1..] == Outcomes(events[1..], lookup, true);
      assert Outcomes(events, lookup, false)[1..] == Outcomes(events[1..], lookup, false);
    }
  }

  /** One event's outcomes in a dry and a real run: equal, except for a stale cancellation. */
  lemma DryRunStep(e: Event, x: Option<Existing>)
    ensures var od, ow := Decide(e, x, true).outcome, Decide(e, x, false).outcome;
      if e.status == CancelledEvent && x.Some? && !Live(x) then od == Deleted && ow == Skipped else od == ow
  {
  }

  // ---------------------------------------------------------------- choosing and ordering

  /** The events not too old to sync, in their original order. */
  function Eligible(events: seq<Event>, lookbackDays: int, now: int): (r: seq<Event>)
    ensures |r| <= |events| && multiset(r) <= multiset(events)
    ensures forall e :: e in r <==> e in events && NotTooOld(e, lookbackDays, now)
    decreases |events|
  {
    if events == [] then []
    else
      assert events == [events[0]] + events[1..];
      (if NotTooOld(events[0], lookbackDays, now) then [events[0]] else []) + Eligible(events[1..], lookbackDays, now)
  }

  /** Filtering distributes over concatenation: each event is kept or dropped on its own. */
  lemma {:induction false} EligibleAppend(a: seq<Event>, b: seq<Event>, lookbackDays: int, now: int)
    ensures Eligible(a + b, lookbackDays, now) == Eligible(a, lookbackDays, now) + Eligible(b, lookbackDays, now)
    decreases |a|
  {
    if a == [] {
      assert a + b == b;
    } else {
      var head := if NotTooOld(a[0], lookbackDays, now) then [a[0]] else [];
      assert (a + b)[0] == a[0] && (a + b)[1..] == a[1..] + b;
      EligibleAppend(a[1..], b, lookbackDays, now);
      AppendAssoc(head, Eligible(a[1..], lookbackDays, now), Eligible(b, lookbackDays, now));
    }
  }

  /** The order the loop visits events in. */
  function StartKey(e: Event): int {
    SortKey(e.start)
  }

  predicate SortedByStart(events: seq<Event>) {
    forall i, j :: 0 <= i < j < |events| ==> StartKey(events[i]) <= StartKey(events[j])
  }

  /** Places `x` before the first event that does not start before it, so `x` precedes its equals. */
  function Insert(x: Event, sorted: seq<Event>): (r: seq<Event>)
    requires SortedByStart(sorted)
    ensures SortedByStart(r)
    ensures multiset(r) == multiset(sorted) + multiset{x}
    ensures r[0] == x || (sorted != [] && r[0] == sorted[0])
    decreases |sorted|
  {
    if sorted == [] || StartKey(x) <= StartKey(sorted[0]) then
      SortedCons(x, sorted);
      [x] + sorted
    else
      var rest := Insert(x, sorted[1..]);
      assert sorted == [sorted[0]] + sorted[1..];
      SortedCons(sorted[0], rest);
      [sorted[0]] + rest
  }

  /** An event that starts no later than the head of a sorted sequence can go in front of it. */
  lemma SortedCons(x: Event, sorted: seq<Event>)
    requires SortedByStart(sorted)
    requires sorted == [] || StartKey(x) <= StartKey(sorted[0])
    ensures SortedByStart([x] + sorted)
  {
    var r := [x] + sorted;
    forall i, j | 0 <= i < j < |r|
      ensures StartKey(r[i]) <= StartKey(r[j])
    {
      if i == 0 && j > 1 {
        assert StartKey(sorted[0]) <= StartKey(sorted[j - 1]);
      }
    }
  }

  /**
   * `list.sort(key=...)` by start: ordered by `event_start_sort_key` and,
   * Python's sort being stable, keeping events with equal keys in their
   * original order.
   */
  function SortByStart(events: seq<Event>): (r: seq<Event>)
    ensures SortedByStart(r)
    ensures multiset(r) == multiset(events)
    decreases |events|
  {
    if events == [] then []
    else
      assert events == [events[0]] + events[1..];
      Insert(events[0], SortByStart(events[1..]))
  }

  /** The events that start at `key`, in order. */
  function AtKey(events: seq<Event>, key: int): seq<Event>
    decreases |events|
  {
    if events == [] then []
    else (if StartKey(events[0]) == key then [events[0]] else []) + AtKey(events[1..], key)
  }

  lemma {:induction false} AtKeyAppend(a: seq<Event>, b: seq<Event>, key: int)
    ensures AtKey(a + b, key) == AtKey(a, key) + AtKey(b, key)
    decreases |a|
  {
    if a != [] {
      assert (a + b)[1..] == a[1..] + b;
      AtKeyAppend(a[1..], b, key);
    } else {
      assert a + b == b;
    }
  }

  /** An event that starts before `x` can be moved in front of it without changing what starts at `key`. */
  lemma AtKeySwap(x: Event, y: Event, rest: seq<Event>, tail: seq<Event>, key: int)
    requires StartKey(y) < StartKey(x)
    requires AtKey(rest, key) == AtKey([x], key) + AtKey(tail, key)
    ensures AtKey([y] + rest, key) == AtKey([x], key) + AtKey([y] + tail, key)
  {
    AtKeyAppend([y], rest, key);
    AtKeyAppend([y], tail, key);
    assert [x][1..] == [] && [y][1..] == [];
    if StartKey(y) == key {
      assert AtKey([x], key) == [];
    }
  }

  lemma {:induction false} InsertAtKey(x: Event, sorted: seq<Event>, key: int)
    requires SortedByStart(sorted)
    ensures AtKey(Insert(x, sorted), key) == AtKey([x], key) + AtKey(sorted, key)
    decreases |sorted|
  {
    if sorted == [] || StartKey(x) <= StartKey(sorted[0]) {
      AtKeyAppend([x], sorted, key);
    } else {
      var s0, tail := sorted[0], sorted[1..];
      assert sorted == [s0] + tail;
      assert Insert(x, sorted) == [s0] + Insert(x, tail);
      InsertAtKey(x, tail, key);
      AtKeySwap(x, s0, Insert(x, tail), tail, key);
    }
  }

  /** Stability: the events sharing any one start keep their relative order. */
  lemma {:induction false} SortByStartStable(events: seq<Event>, key: int)
    ensures AtKey(SortByStart(events), key) == AtKey(events, key)
    decreases |events|
  {
    if events != [] {
      SortByStartStable(events[1..], key);
      InsertAtKey(events[0], SortByStart(events[1..]), key);
      assert events == [events[0]] + events[1..];
      AtKeyAppend([events[0]], events[1..], key);
    }
  }

  // ---------------------------------------------------------------- the run

  /** The events the loop visits: the latest revision of each uid, if not too old, ordered by start. */
  function Plan(events: seq<Event>, lookbackDays: int, now: int): (plan: seq<Event>)
    ensures SortedByStart(plan)
    ensures |plan| <= |Dedupe(events)|
  {
    var eligible := Eligible(DedupedValues(events), lookbackDays, now);
    var plan := SortByStart(eligible);
    assert |plan| == |multiset(plan)| == |multiset(eligible)| == |eligible|;
    plan
  }

  /** An event is visited exactly when it is the kept revision of its uid and not too old. */
  lemma PlanMembers(events: seq<Event>, lookbackDays: int, now: int, e: Event)
    ensures e in Plan(events, lookbackDays, now) <==>
      e.uid in Dedupe(events) && Dedupe(events)[e.uid] == e && NotTooOld(e, lookbackDays, now)
  {
    var vs := DedupedValues(events);
    var eligible := Eligible(vs, lookbackDays, now);
    DedupedValuesAreWinners(events);
    assert e in Plan(events, lookbackDays, now) <==> e in multiset(eligible);
    if e.uid in Dedupe(events) && Dedupe(events)[e.uid] == e {
      assert e in vs;
    }
    if e in vs {
      var k :| 0 <= k < |vs| && vs[k] == e;
    }
  }

  /** A sequence whose events all have different uids holds each event at most once. */
  lemma {:induction false} DistinctUidsOnce(vs: seq<Event>, e: Event)
    requires forall i, j :: 0 <= i < j < |vs| ==> vs[i].uid != vs[j].uid
    ensures multiset(vs)[e] <= 1
    decreases |vs|
  {
    if vs != [] {
      assert vs == [vs[0]] + vs[1..];
      DistinctUidsOnce(vs[1..], e);
      if vs[0] == e {
        assert e !in vs[1..];
      }
    }
  }

  /** Two positions holding the same event make it occur twice. */
  lemma TwiceCounted(s: seq<Event>, i: int, j: int)
    requires 0 <= i < j < |s| && s[i] == s[j]
    ensures multiset(s)[s[i]] >= 2
  {
    assert s == s[..j] + [s[j]] + s[j + 1..];
    assert s[i] in s[..j];
  }

  /** No uid is visited twice, so no event's change can affect the lookup of another. */
  lemma PlanUidsDistinct(events: seq<Event>, lookbackDays: int, now: int)
    ensures var plan := Plan(events, lookbackDays, now);
      forall i, j :: 0 <= i < j < |plan| ==> plan[i].uid != plan[j].uid
  {
    var plan := Plan(events, lookbackDays, now);
    var vs := DedupedValues(events);
    DedupedValuesAreWinners(events);
    forall i, j | 0 <= i < j < |plan|
      ensures plan[i].uid != plan[j].uid
    {
      if plan[i].uid == plan[j].uid {
        PlanMembers(events, lookbackDays, now, plan[i]);
        PlanMembers(events, lookbackDays, now, plan[j]);
        TwiceCounted(plan, i, j);
        DistinctUidsOnce(vs, plan[i]);
        assert false;
      }
    }
  }

  /**
   * The run after collection: deduplicate, filter, sort, then reconcile from
   * zeroed counters.
   */
  function SyncEvents(events: seq<Event>, lookbackDays: int, now: int, lookup: string -> Option<Existing>, dryRun: bool): (r: Progress)
    ensures r.stats.parsed == |events| && r.stats.deduped == |Dedupe(events)|
    ensures r.stats.processed == |Plan(events, lookbackDays, now)|
    ensures r.stats.parsed >= r.stats.deduped >= r.stats.processed
    ensures Acted(r.stats) == r.stats.processed
    ensures r.stats.dryRun == dryRun && (dryRun ==> r.mutations == [])
    ensures !dryRun ==> r.mutations == Mutations(Plan(events, lookbackDays, now), lookup)
    ensures var os := Outcomes(Plan(events, lookbackDays, now), lookup, dryRun);
      && r.stats.created == Count(os, Created) && r.stats.updated == Count(os, Updated)
      && r.stats.deleted == Count(os, Deleted) && r.stats.skipped == Count(os, Skipped)
  {
    var plan := Plan(events, lookbackDays, now);
    var start := SyncStats(|events|, |Dedupe(events)|, |plan|, 0, 0, 0, 0, dryRun);
    DedupeSize(events);
    ReconcileCounts(plan, lookup, dryRun, start);
    Reconcile(plan, lookup, dryRun, start)
  }

  /**
   * Over the same events and calendar, a dry run reports the real run's
   * counters except for the stale cancellations, which it moves from skipped
   * to deleted.
   */
  lemma DryRunReport(events: seq<Event>, lookbackDays: int, now: int, lookup: string -> Option<Existing>)
    ensures var d, w := SyncEvents(events, lookbackDays, now, lookup, true).stats, SyncEvents(events, lookbackDays, now, lookup, false).stats;
      var stale := StaleCancellations(Plan(events, lookbackDays, now), lookup);
      && d.created == w.created && d.updated == w.updated
      && d.deleted == w.deleted + stale && d.skipped + stale == w.skipped
  {
    var plan := Plan(events, lookbackDays, now);
    DryRunCounts(plan, lookup,
      SyncStats(|events|, |Dedupe(events)|, |plan|, 0, 0, 0, 0, true),
      SyncStats(|events|, |Dedupe(events)|, |plan|, 0, 0, 0, 0, false));
  }

  // ---------------------------------------------------------------- collection

  /** A message fetched in full: its id, its `internalDate` text and its payload, if any. */
  datatype Message = Message(id: string, internalDate: Option<string>, payload: Option<Part>)

  /** A missing payload reads as an empty part. */
  const EmptyPart: Part := Part(None, None, None, [])

  /**
   * The events of one attachment: `decode` stands for the calendar library
   * reading the padded base64 text into VEVENT blocks, `None` when it cannot.
   * An attachment the library rejects, or one that fails to parse, yields
   * nothing. Links are searched for with `rule` (see `UrlRule`): `AsWritten`
   * is the program as it stands, `Intended` the corrected pattern.
   */
  function AttachmentEvents(payload: string, messageTs: int, decode: string -> Option<seq<VEvent>>, rule: UrlRule): (r: seq<Event>)
    ensures forall e :: e in r ==> WellFormed(e) && e.messageTs == messageTs
    ensures decode(payload).Some? && ParseIcs(decode(payload).value, messageTs, rule).Ok? ==>
      r == ParseIcs(decode(payload).value, messageTs, rule).value
    ensures decode(payload).None? || ParseIcs(decode(payload).value, messageTs, rule).Err? ==> r == []
  {
    match decode(payload)
    case None => []
    case Some(comps) =>
      match ParseIcs(comps, messageTs, rule)
      case Ok(es) => es
      case Err(_) => []
  }

  /** The events of a message's attachments, one attachment after another, failures skipped. */
  function PayloadEvents(payloads: seq<string>, messageTs: int, decode: string -> Option<seq<VEvent>>, rule: UrlRule): (r: seq<Event>)
    ensures forall e :: e in r ==> WellFormed(e) && e.messageTs == messageTs
    decreases |payloads|
  {
    if payloads == [] then []
    else
      var here := AttachmentEvents(payloads[0], messageTs, decode, rule);
      var rest := PayloadEvents(payloads[1..], messageTs, decode, rule);
      assert forall e :: e in here + rest ==> e in here || e in rest;
      here + rest
  }

  /** Attachments contribute in arrival order. */
  lemma {:induction false} PayloadEventsAppend(a: seq<string>, b: seq<string>, messageTs: int, decode: string -> Option<seq<VEvent>>, rule: UrlRule)
    ensures PayloadEvents(a + b, messageTs, decode, rule) == PayloadEvents(a, messageTs, decode, rule) + PayloadEvents(b, messageTs, decode, rule)
    decreases |a|
  {
    if a != [] {
      assert (a + b)[1..] == a[1..] + b;
      PayloadEventsAppend(a[1..], b, messageTs, decode, rule);
    } else {
      assert a + b == b;
    }
  }

  /** A single attachment contributes its own events, and none when it fails to parse. */
  lemma PayloadEventsOne(payload: string, messageTs: int, decode: string -> Option<seq<VEvent>>, rule: UrlRule)
    ensures PayloadEvents([payload], messageTs, decode, rule) == AttachmentEvents(payload, messageTs, decode, rule)
    ensures decode(payload).None? || ParseIcs(decode(payload).value, messageTs, rule).Err? ==>
      PayloadEvents([payload], messageTs, decode, rule) == []
  {
    assert [payload][1..] == [];
  }

  /** An attachment that fails to parse is passed over: the others' events are kept, in order. */
  lemma FailedAttachmentSkipped(before: seq<string>, bad: string, after: seq<string>, messageTs: int, decode: string -> Option<seq<VEvent>>, rule: UrlRule)
    requires decode(bad).None? || ParseIcs(decode(bad).value, messageTs, rule).Err?
    ensures PayloadEvents(before + [bad] + after, messageTs, decode, rule)
      == PayloadEvents(before, messageTs, decode, rule) + PayloadEvents(after, messageTs, decode, rule)
  {
    PayloadEventsAppend(before + [bad], after, messageTs, decode, rule);
    PayloadEventsAppend(before, [bad], messageTs, decode, rule);
    PayloadEventsOne(bad, messageTs, decode, rule);
  }

  /**
   * The events of one message: its timestamp, then every calendar
   * attachment's events. An unreadable `internalDate` is not caught and stops
   * the run.
   */
  function MessageEvents(m: Message, now: int, fetch: (string, string) -> Option<string>, decode: string -> Option<seq<VEvent>>, rule: UrlRule): (r: Result<seq<Event>, TimestampError>)
    ensures r.Ok? <==> ParseMessageTs(m.internalDate, now).Ok?
    ensures r.Ok? ==> forall e :: e in r.value ==> WellFormed(e) && e.messageTs == ParseMessageTs(m.internalDate, now).value
    ensures r.Ok? ==> r.value == PayloadEvents(MessagePayloads(m, fetch), ParseMessageTs(m.internalDate, now).value, decode, rule)
  {
    match ParseMessageTs(m.internalDate, now)
    case Err(err) => Err(err)
    case Ok(ts) => Ok(PayloadEvents(MessagePayloads(m, fetch), ts, decode, rule))
  }

  /** Attachment bodies of message `m` are fetched by `m`'s id. */
  function MessageFetch(fetch: (string, string) -> Option<string>, id: string): string -> Option<string> {
    a => fetch(id, a)
  }

  /** The calendar payloads of one message, in part order. */
  function MessagePayloads(m: Message, fetch: (string, string) -> Option<string>): seq<string> {
    LoadIcsPayloads(m.payload.GetOr(EmptyPart), MessageFetch(fetch, m.id))
  }

  /** `collect_events`: the events of all messages, in message order. */
  function CollectEvents(messages: seq<Message>, now: int, fetch: (string, string) -> Option<string>, decode: string -> Option<seq<VEvent>>, rule: UrlRule): (r: Result<seq<Event>, TimestampError>)
    ensures r.Ok? <==> forall i :: 0 <= i < |messages| ==> ParseMessageTs(messages[i].internalDate, now).Ok?
    ensures r.Ok? ==> forall e :: e in r.value ==> WellFormed(e)
    decreases |messages|
  {
    if messages == [] then Ok([])
    else
      ReadableStep(messages, now);
      match MessageEvents(messages[0], now, fetch, decode, rule)
      case Err(err) => Err(err)
      case Ok(here) =>
        match CollectEvents(messages[1..], now, fetch, decode, rule)
        case Err(err) => Err(err)
        case Ok(rest) =>
          assert forall e :: e in here + rest ==> e in here || e in rest;
          Ok(here + rest)
  }

  /** Every timestamp is readable exactly when the first one is and every later one is. */
  lemma ReadableStep(messages: seq<Message>, now: int)
    requires messages != []
    ensures (forall i :: 0 <= i < |messages| ==> ParseMessageTs(messages[i].internalDate, now).Ok?) <==>
      ParseMessageTs(messages[0].internalDate, now).Ok? &&
      forall i :: 0 <= i < |messages[1..]| ==> ParseMessageTs(messages[1..][i].internalDate, now).Ok?
  {
    assert forall i :: 0 <= i < |messages[1..]| ==> messages[1..][i] == messages[i + 1];
  }

  /** Messages contribute in order, and the first unreadable timestamp decides the error. */
  lemma {:induction false} CollectEventsAppend(a: seq<Message>, b: seq<Message>, now: int, fetch: (string, string) -> Option<string>, decode: string -> Option<seq<VEvent>>, rule: UrlRule)
    ensures CollectEvents(a, now, fetch, decode, rule).Err? ==> CollectEvents(a + b, now, fetch, decode, rule) == CollectEvents(a, now, fetch, decode, rule)
    ensures CollectEvents(a, now, fetch, decode, rule).Ok? && CollectEvents(b, now, fetch, decode, rule).Ok? ==>
      CollectEvents(a + b, now, fetch, decode, rule) == Ok(CollectEvents(a, now, fetch, decode, rule).value + CollectEvents(b, now, fetch, decode, rule).value)
    decreases |a|
  {
    if a == [] {
      assert a + b == b;
      var cb := CollectEvents(b, now, fetch, decode, rule);
      assert cb.Ok? ==> [] + cb.value == cb.value;
    } else {
      var ab := a + b;
      assert ab[0] == a[0] && ab[1..] == a[1..] + b;
      CollectEventsAppend(a[1..], b, now, fetch, decode, rule);
      CollectEventsStep(a, ab, now, fetch, decode, rule);
      var ca, cb := CollectEvents(a, now, fetch, decode, rule), CollectEvents(b, now, fetch, decode, rule);
      if ca.Ok? && cb.Ok? {
        var here := MessageEvents(a[0], now, fetch, decode, rule).value;
        var rest := CollectEvents(a[1..], now, fetch, decode, rule);
        assert rest.Ok? && ca.value == here + rest.value;
        assert CollectEvents(ab[1..], now, fetch, decode, rule) == Ok(rest.value + cb.value);
        AppendAssoc(here, rest.value, cb.value);
        assert CollectEvents(ab, now, fetch, decode, rule) == Ok(here + (rest.value + cb.value));
      }
    }
  }

  /** Two lists with the same first message and the same collected rest collect alike. */
  lemma CollectEventsStep(a: seq<Message>, ab: seq<Message>, now: int, fetch: (string, string) -> Option<string>, decode: string -> Option<seq<VEvent>>, rule: UrlRule)
    requires a != [] && ab != [] && ab[0] == a[0]
    ensures MessageEvents(a[0], now, fetch, decode, rule).Err? ==> CollectEvents(ab, now, fetch, decode, rule) == CollectEvents(a, now, fetch, decode, rule)
    ensures MessageEvents(a[0], now, fetch, decode, rule).Ok? ==>
      var here := MessageEvents(a[0], now, fetch, decode, rule).value;
      && (CollectEvents(a, now, fetch, decode, rule) == match CollectEvents(a[1..], now, fetch, decode, rule) case Err(err) => Err(err) case Ok(rest) => Ok(here + rest))
      && (CollectEvents(ab, now, fetch, decode, rule) == match CollectEvents(ab[1..], now, fetch, decode, rule) case Err(err) => Err(err) case Ok(rest) => Ok(here + rest))
  {
  }

  /** The messages the search yields, each fetched in full with `getMessage`. */
  function Fetched(search: Request -> Page, getMessage: string -> Message, maxMessages: int): (ms: seq<Message>)
    ensures |ms| == |ListMessages(search, maxMessages).ids|
    ensures forall i :: 0 <= i < |ms| ==> ms[i] == getMessage(ListMessages(search, maxMessages).ids[i])
  {
    var ids := ListMessages(search, maxMessages).ids;
    seq(|ids|, i requires 0 <= i < |ids| => getMessage(ids[i]))
  }

  /**
   * `run_sync` after the credential and calendar set-up: page through the
   * search, fetch each message with `getMessage`, collect and sync. The same
   * `now` serves as the clock throughout.
   */
  function RunSync(
    search: Request -> Page, getMessage: string -> Message, fetch: (string, string) -> Option<string>,
    decode: string -> Option<seq<VEvent>>, rule: UrlRule,
    maxMessages: int, lookbackDays: int, now: int, lookup: string -> Option<Existing>, dryRun: bool): (r: Result<Progress, TimestampError>)
    ensures r.Ok? <==> CollectEvents(Fetched(search, getMessage, maxMessages), now, fetch, decode, rule).Ok?
    ensures r.Ok? ==> r.value.stats.parsed >= r.value.stats.deduped >= r.value.stats.processed
    ensures r.Ok? ==> Acted(r.value.stats) == r.value.stats.processed
    ensures r.Ok? && dryRun ==> r.value.mutations == []
    ensures maxMessages <= 0 ==> r.Ok? && r.value.stats.parsed == 0
    ensures r.Ok? ==>
      var plan := Plan(CollectEvents(Fetched(search, getMessage, maxMessages), now, fetch, decode, rule).value, lookbackDays, now);
      var os := Outcomes(plan, lookup, dryRun);
      && (!dryRun ==> r.value.mutations == Mutations(plan, lookup))
      && r.value.stats.created == Count(os, Created) && r.value.stats.updated == Count(os, Updated)
      && r.value.stats.deleted == Count(os, Deleted) && r.value.stats.skipped == Count(os, Skipped)
  {
    match CollectEvents(Fetched(search, getMessage, maxMessages), now, fetch, decode, rule)
    case Err(err) => Err(err)
    case Ok(events) => Ok(SyncEvents(events, lookbackDays, now, lookup, dryRun))
  }

  /**
   * Over the same mailbox and calendar, a dry run fails exactly when the real
   * run does, and otherwise reports its counters but for the stale
   * cancellations among the events it would visit.
   */
  lemma RunSyncDryRun(
    search: Request -> Page, getMessage: string -> Message, fetch: (string, string) -> Option<string>,
    decode: string -> Option<seq<VEvent>>, rule: UrlRule,
    maxMessages: int, lookbackDays: int, now: int, lookup: string -> Option<Existing>)
    ensures var d := RunSync(search, getMessage, fetch, decode, rule, maxMessages, lookbackDays, now, lookup, true);
      var w := RunSync(search, getMessage, fetch, decode, rule, maxMessages, lookbackDays, now, lookup, false);
      var c := CollectEvents(Fetched(search, getMessage, maxMessages), now, fetch, decode, rule);
      && (d.Ok? <==> w.Ok?)
      && (d.Ok? ==> var stale := StaleCancellations(Plan(c.value, lookbackDays, now), lookup);
            && d.value.stats.created == w.value.stats.created && d.value.stats.updated == w.value.stats.updated
            && d.value.stats.deleted == w.value.stats.deleted + stale && d.value.stats.skipped + stale == w.value.stats.skipped)
  {
    var c := CollectEvents(Fetched(search, getMessage, maxMessages), now, fetch, decode, rule);
    if c.Ok? {
      DryRunReport(c.value, lookbackDays, now, lookup);
    }
  }
}
