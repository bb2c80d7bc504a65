/**
 * Meetup invitations: turning the VEVENT blocks of one calendar attachment into
 * event records, and keeping the most recent revision of each event
 * (section 2.1.5 of RFC 5546, ranking by SEQUENCE, then DTSTAMP, then the
 * carrying message's time).
 */
module IcsParser {
  import opened Base
  import opened Text
  import opened Time

  /** SEQUENCE as the calendar library hands it over: a number, or a value `int()` rejects. */
  datatype SequenceValue = Numeral(n: int) | NotNumeric

  /**
   * One decoded VEVENT block. Each field is the property of that name, absent
   * (`None`) when the block does not carry it.
   */
  datatype VEvent = VEvent(
    uid: Option<string>,
    status: Option<string>,
    sequence: Option<SequenceValue>,
    dtstamp: Option<When>,
    dtstart: Option<When>,
    dtend: Option<When>,
    summary: Option<string>,
    description: Option<string>,
    location: Option<string>)

  /** One revision of a Meetup event, as carried by one message. */
  datatype Event = Event(
    uid: string,
    sequence: int,
    dtstamp: int,
    messageTs: int,
    status: string,
    summary: string,
    description: string,
    location: string,
    start: When,
    end: When,
    meetupUrl: string)

  /** The only way a decoded calendar fails to parse: a kept VEVENT without DTSTART. */
  datatype ParseError = MissingDtstart

  const DefaultStatus: string := "CONFIRMED"
  const DefaultSummary: string := "Meetup event"
  const DefaultDuration: int := 7_200_000_000

  /**
   * `str(value).strip()`, with an absent value read as the empty string: what
   * is left of the value once an all-whitespace prefix and an all-whitespace
   * suffix are cut off, with no whitespace left at either end, and empty
   * exactly when the value is absent or all whitespace.
   */
  function NormalizeText(value: Option<string>): (r: string)
    ensures value.None? ==> r == ""
    ensures value.Some? ==> Contains(value.value, r)
    ensures r == [] || (!IsSpace(r[0]) && !IsSpace(r[|r| - 1]))
    ensures r == "" <==> value.None? || AllSpace(value.value)
    ensures value.Some? ==> exists i, j ::
      && 0 <= i <= j <= |value.value|
      && r == value.value[i..j]
      && AllSpace(value.value[..i]) && AllSpace(value.value[j..])
  {
    StripIsInfixOf(value);
    StripBoundsOf(value);
    match value
    case None => ""
    case Some(s) => Strip(s)
  }

  /** Python's `value or default`: an absent or empty value gives way to `default`. */
  function OrDefault(value: Option<string>, default: string): string {
    if value.Some? && value.value != "" then value.value else default
  }

  lemma StripBoundsOf(value: Option<string>)
    ensures value.Some? ==> exists i, j ::
      && 0 <= i <= j <= |value.value|
      && Strip(value.value) == value.value[i..j]
      && AllSpace(value.value[..i]) && AllSpace(value.value[j..])
  {
    if value.Some? {
      StripShape(value.value);
    }
  }

  lemma StripIsInfixOf(value: Option<string>)
    ensures value.Some? ==> Contains(value.value, Strip(value.value))
  {
    if value.Some? {
      StripIsInfix(value.value);
    }
  }

  /**
   * A date-time normalised to UTC: the instant whose wall-clock reading at the
   * value's offset (none meaning UTC) is the value. Anything else, a plain
   * date included, gives `fallback`.
   */
  function ToDateTimeUtc(value: Option<When>, fallback: int): (r: int)
    ensures value.Some? && value.value.DateTime? ==> r + value.value.offset.GetOr(0) == value.value.wall
    ensures value.Some? && value.value.DateTime? && value.value.offset.None? ==> r == value.value.wall
    ensures value.None? || value.value.Date? ==> r == fallback
  {
    match value
    case Some(DateTime(wall, offset)) => UtcOf(wall, offset)
    case _ => fallback
  }

  /** The end the parser supplies when DTEND is missing. */
  function DefaultEnd(start: When): When {
    match start
    case DateTime(wall, offset) => DateTime(wall + DefaultDuration, offset)
    case Date(day) => Date(day + 1)
  }

  // ---------------------------------------------------------------- URL search

  /**
   * Which pattern the description is searched with: `AsWritten` is the
   * pattern literally in the source, `https?://\\S+`, whose doubled backslash
   * makes it match a backslash followed by letters `S`; `Intended` is
   * `https?://\S+`, a scheme followed by a run of non-whitespace.
   */
  datatype UrlRule = AsWritten | Intended

  /** Length of a leading "https://" or "http://", 0 when `s` starts with neither. */
  function SchemeLength(s: string): (n: nat)
    ensures n <= |s|
  {
    if StartsWith(s, "https://") then 8
    else if StartsWith(s, "http://") then 7
    else 0
  }

  /** Number of leading letters 'S' of `s`. */
  function RunOfS(s: string): (n: nat)
    ensures n <= |s|
  {
    if |s| > 0 && s[0] == 'S' then 1 + RunOfS(s[1..]) else 0
  }

  /** Length of the rule's (greedy) match anchored at the start of `s`; 0 when it does not match there. */
  function MatchLength(rule: UrlRule, s: string): (n: nat)
    ensures n <= |s|
  {
    var k := SchemeLength(s);
    if k == 0 then 0
    else
      match rule
      case AsWritten =>
        if k < |s| && s[k] == '\\' && RunOfS(s[k + 1..]) > 0 then k + 1 + RunOfS(s[k + 1..]) else 0
      case Intended =>
        var w := WordLength(s[k..]);
        if w > 0 then k + w else 0
  }

  /** `re.search` from position `i`: the leftmost match at or after `i`, or "" when there is none. */
  function FindUrlFrom(rule: UrlRule, s: string, i: nat): (r: string)
    requires i <= |s|
    ensures r == "" || Contains(s, r)
    decreases |s| - i
  {
    if i == |s| then ""
    else
      var n := MatchLength(rule, s[i..]);
      if n > 0 then
        ContainsSlice(s, i, i + n);
        s[i..i + n]
      else
        FindUrlFrom(rule, s, i + 1)
  }

  /** The `meetup_url` of a description: the first match of the pattern, or "". */
  function FindUrl(rule: UrlRule, description: string): (r: string)
    ensures r == "" || Contains(description, r)
  {
    FindUrlFrom(rule, description, 0)
  }

  lemma {:induction false} AsWrittenNeedsBackslashFrom(s: string, i: nat)
    requires i <= |s|
    requires forall j :: 0 <= j < |s| ==> s[j] != '\\'
    ensures FindUrlFrom(AsWritten, s, i) == ""
    decreases |s| - i
  {
    if i < |s| {
      var t := s[i..];
      var k := SchemeLength(t);
      assert k < |t| ==> t[k] == s[i + k];
      assert MatchLength(AsWritten, t) == 0;
      AsWrittenNeedsBackslashFrom(s, i + 1);
    }
  }

  /** As written, the pattern finds nothing in a description without a backslash. */
  lemma AsWrittenNeedsBackslash(s: string)
    requires forall j :: 0 <= j < |s| ==> s[j] != '\\'
    ensures FindUrl(AsWritten, s) == ""
  {
    AsWrittenNeedsBackslashFrom(s, 0);
  }

  /** The intended pattern returns a whole description that is a single URL. */
  lemma IntendedFindsUrl(s: string)
    requires StartsWith(s, "https://") || StartsWith(s, "http://")
    requires NoSpace(s) && |s| > 8
    ensures FindUrl(Intended, s) == s
  {
    var k := SchemeLength(s);
    assert s[k..] + [] == s[k..];
    WordLengthOfWord(s[k..], []);
    assert MatchLength(Intended, s) == |s|;
    assert s[0..|s|] == s;
  }

  /** Every match starts with the letter 'h' of its scheme. */
  lemma NoMatchWithoutH(rule: UrlRule, s: string)
    requires s == [] || s[0] != 'h'
    ensures MatchLength(rule, s) == 0
  {
  }

  /** The search passes over a stretch without the letter 'h'. */
  lemma {:induction false} FindUrlSkips(rule: UrlRule, s: string, i: nat, j: nat)
    requires i <= j <= |s|
    requires forall k :: i <= k < j ==> s[k] != 'h'
    ensures FindUrlFrom(rule, s, i) == FindUrlFrom(rule, s, j)
    decreases j - i
  {
    if i < j {
      assert s[i..][0] == s[i];
      NoMatchWithoutH(rule, s[i..]);
      FindUrlSkips(rule, s, i + 1, j);
    }
  }

  /** The intended pattern matches a whole link that is followed by whitespace or by nothing. */
  lemma IntendedMatchesLink(u: string, rest: string)
    requires StartsWith(u, "https://") || StartsWith(u, "http://")
    requires NoSpace(u) && |u| > 8
    requires rest == [] || IsSpace(rest[0])
    ensures MatchLength(Intended, u + rest) == |u|
  {
    var s := u + rest;
    var k := SchemeLength(u);
    assert s[..8] == u[..8] && s[..7] == u[..7];
    assert SchemeLength(s) == k;
    assert s[k..] == u[k..] + rest;
    assert NoSpace(u[k..]) by {
      forall i | 0 <= i < |u| - k
        ensures !IsSpace(u[k..][i])
      {
        assert u[k..][i] == u[k + i];
      }
    }
    WordLengthOfWord(u[k..], rest);
  }

  /**
   * `re.search` returns the leftmost, greedy match: with the intended pattern,
   * a link that follows text without the letter 'h' and ends at whitespace or
   * at the end of the description is found whole.
   */
  lemma IntendedFindsFirstLink(a: string, u: string, rest: string)
    requires forall k :: 0 <= k < |a| ==> a[k] != 'h'
    requires StartsWith(u, "https://") || StartsWith(u, "http://")
    requires NoSpace(u) && |u| > 8
    requires rest == [] || IsSpace(rest[0])
    ensures FindUrl(Intended, a + u + rest) == u
  {
    var s := a + u + rest;
    SplitAfterPrefix(a, u, rest);
    FindUrlSkips(Intended, s, 0, |a|);
    IntendedMatchesLink(u, rest);
    FindUrlMatchAt(Intended, s, |a|, u);
  }

  /** Where the pieces of `a + u + rest` sit, when `a` has no letter 'h'. */
  lemma SplitAfterPrefix(a: string, u: string, rest: string)
    requires forall k :: 0 <= k < |a| ==> a[k] != 'h'
    ensures forall k :: 0 <= k < |a| ==> (a + u + rest)[k] != 'h'
    ensures (a + u + rest)[|a|..] == u + rest
    ensures (a + u + rest)[|a|..|a| + |u|] == u
  {
    assert forall k :: 0 <= k < |a| ==> (a + u + rest)[k] == a[k];
  }

  lemma FindUrlMatchAt(rule: UrlRule, s: string, i: nat, u: string)
    requires i + |u| <= |s| && u != [] && s[i..i + |u|] == u
    requires MatchLength(rule, s[i..]) == |u|
    ensures FindUrlFrom(rule, s, i) == u
  {
  }

  /** A typical Meetup event link, as it appears alone in an invitation's DESCRIPTION. */
  const TestLink: string := "https://www.meetup.com/x/events/1"

  lemma TestLinkShape()
    ensures forall j :: 0 <= j < |TestLink| ==> TestLink[j] != '\\'
    ensures StartsWith(TestLink, "https://") && NoSpace(TestLink) && |TestLink| > 8
  {
    PrintableNoSpace(TestLink);
  }

  /**
   * A description that is just a Meetup link: as written the search yields "",
   * so such an event gets no `meetup_url`; the intended pattern yields the link.
   */
  lemma MeetupLinkMissedAsWritten()
    ensures FindUrl(AsWritten, TestLink) == ""
    ensures FindUrl(Intended, TestLink) == TestLink
  {
    TestLinkShape();
    AsWrittenNeedsBackslash(TestLink);
    IntendedFindsUrl(TestLink);
  }

  // ---------------------------------------------------------------- parsing

  /** Fields every parsed event satisfies. */
  predicate WellFormed(e: Event) {
    && e.uid != ""
    && Strip(e.uid) == e.uid
    && (e.meetupUrl == "" || Contains(e.description, e.meetupUrl))
  }

  /** A VEVENT the parser keeps (its UID is not blank) but cannot complete (no DTSTART). */
  predicate Fails(v: VEvent) {
    NormalizeText(v.uid) != "" && v.dtstart.None?
  }

  /** SEQUENCE: `int(raw)` when present, 0 when absent or when `int()` raises. */
  function SequenceOf(v: VEvent): int {
    match v.sequence
    case Some(Numeral(n)) => n
    case _ => 0
  }

  /** STATUS: `(status or "CONFIRMED").strip().upper()`. */
  function StatusOf(v: VEvent): string {
    Upper(Strip(OrDefault(v.status, DefaultStatus)))
  }

  /** SUMMARY: `(summary or "Meetup event").strip()`. */
  function SummaryOf(v: VEvent): string {
    Strip(OrDefault(v.summary, DefaultSummary))
  }

  /** DTEND when present, otherwise the default end of `start`. */
  function EndOf(v: VEvent, start: When): When {
    if v.dtend.Some? then v.dtend.value else DefaultEnd(start)
  }

  /** The per-block body of `parse_ics_bytes`: `Ok(None)` for a dropped block. */
  function ParseVEvent(v: VEvent, messageTs: int, rule: UrlRule): (r: Result<Option<Event>, ParseError>)
    ensures r == Ok(None) <==> NormalizeText(v.uid) == ""
    ensures r.Err? <==> Fails(v)
    ensures r.Ok? && r.value.Some? ==> WellFormed(r.value.value) && r.value.value.messageTs == messageTs
    ensures r.Ok? && r.value.Some? ==> Contains(v.uid.value, r.value.value.uid)
    ensures r.Ok? && r.value.Some? ==> v.uid.Some? && r.value.value.uid == Strip(v.uid.value)
    ensures r.Ok? && r.value.Some? ==> r.value.value.meetupUrl == FindUrl(rule, r.value.value.description)
    ensures r.Ok? && r.value.Some? ==> forall i :: 0 <= i < |r.value.value.status| ==> !('a' <= r.value.value.status[i] <= 'z')
  {
    var uid := NormalizeText(v.uid);
    if uid == "" then Ok(None)
    else if v.dtstart.None? then Err(MissingDtstart)
    else
      StripIdempotent(v.uid.value);
      StripIsInfix(v.uid.value);
      var start := v.dtstart.value;
      var description := NormalizeText(v.description);
      Ok(Some(Event(
        uid := uid,
        sequence := SequenceOf(v),
        dtstamp := ToDateTimeUtc(v.dtstamp, messageTs),
        messageTs := messageTs,
        status := StatusOf(v),
        summary := SummaryOf(v),
        description := description,
        location := NormalizeText(v.location),
        start := start,
        end := EndOf(v, start),
        meetupUrl := FindUrl(rule, description))))
  }

  /** SEQUENCE is its number when `int()` accepts it, and 0 when it is absent or not a number. */
  lemma SequenceDefaults(v: VEvent, messageTs: int, rule: UrlRule, e: Event)
    requires ParseVEvent(v, messageTs, rule) == Ok(Some(e))
    ensures v.sequence.Some? && v.sequence.value.Numeral? ==> e.sequence == v.sequence.value.n
    ensures v.sequence.None? || v.sequence == Some(NotNumeric) ==> e.sequence == 0
  {
  }

  /** Where each field of a parsed event comes from. */
  lemma ParsedFields(v: VEvent, messageTs: int, rule: UrlRule, e: Event)
    requires ParseVEvent(v, messageTs, rule) == Ok(Some(e))
    ensures v.dtstart == Some(e.start) && e.end == EndOf(v, e.start)
    ensures e.sequence == SequenceOf(v) && e.dtstamp == ToDateTimeUtc(v.dtstamp, messageTs)
  {
  }

  lemma DefaultStatusTrimmed()
    ensures Strip(DefaultStatus) == DefaultStatus
  {
    StripTrimmed(DefaultStatus);
  }

  lemma DefaultStatusUpper()
    ensures Upper(DefaultStatus) == DefaultStatus
  {
    UpperOfUpperCase(DefaultStatus);
  }

  lemma DefaultSummaryTrimmed()
    ensures Strip(DefaultSummary) == DefaultSummary
  {
    StripTrimmed(DefaultSummary);
  }

  /**
   * STATUS falls back to "CONFIRMED" when absent or empty and is upper-cased;
   * the fallback is chosen before trimming, so a value of only whitespace
   * becomes "" rather than the default.
   */
  lemma StatusDefaults(v: VEvent, messageTs: int, rule: UrlRule, e: Event)
    requires ParseVEvent(v, messageTs, rule) == Ok(Some(e))
    ensures v.status.None? || v.status == Some("") ==> e.status == DefaultStatus
    ensures v.status.Some? && v.status.value != "" && AllSpace(v.status.value) ==> e.status == ""
    ensures v.status.Some? && v.status.value != "" ==> e.status == Upper(Strip(v.status.value))
  {
    assert e.status == StatusOf(v);
    DefaultStatusTrimmed();
    DefaultStatusUpper();
  }

  /** SUMMARY falls back to "Meetup event" the same way, before trimming. */
  lemma SummaryDefaults(v: VEvent, messageTs: int, rule: UrlRule, e: Event)
    requires ParseVEvent(v, messageTs, rule) == Ok(Some(e))
    ensures v.summary.None? || v.summary == Some("") ==> e.summary == DefaultSummary
    ensures v.summary.Some? && v.summary.value != "" && AllSpace(v.summary.value) ==> e.summary == ""
    ensures v.summary.Some? && v.summary.value != "" ==> e.summary == Strip(v.summary.value)
  {
    assert e.summary == SummaryOf(v);
    DefaultSummaryTrimmed();
  }

  /** DESCRIPTION and LOCATION are trimmed and empty when absent; no description means no URL. */
  lemma FreeTextDefaults(v: VEvent, messageTs: int, rule: UrlRule, e: Event)
    requires ParseVEvent(v, messageTs, rule) == Ok(Some(e))
    ensures v.description.None? ==> e.description == "" && e.meetupUrl == ""
    ensures v.description.Some? ==> e.description == Strip(v.description.value)
    ensures v.location.None? ==> e.location == ""
    ensures v.location.Some? ==> e.location == Strip(v.location.value)
  {
  }

  /**
   * DTSTAMP is normalised to UTC, a naive value read as UTC; when it is absent
   * or a plain date the message timestamp stands in.
   */
  lemma DtstampFallsBack(v: VEvent, messageTs: int, rule: UrlRule, e: Event)
    requires ParseVEvent(v, messageTs, rule) == Ok(Some(e))
    ensures v.dtstamp.None? || v.dtstamp.value.Date? ==> e.dtstamp == messageTs
    ensures v.dtstamp.Some? && v.dtstamp.value.DateTime? && v.dtstamp.value.offset.None? ==> e.dtstamp == v.dtstamp.value.wall
    ensures v.dtstamp.Some? && v.dtstamp.value.DateTime? && v.dtstamp.value.offset.Some? ==>
      e.dtstamp + v.dtstamp.value.offset.value == v.dtstamp.value.wall
  {
  }

  /**
   * With no DTEND the event lasts two hours from a date-time start (same
   * offset) and one day from a date start; a given DTEND is kept as is.
   */
  lemma EndDefaults(v: VEvent, messageTs: int, rule: UrlRule, e: Event)
    requires ParseVEvent(v, messageTs, rule) == Ok(Some(e))
    ensures v.dtstart == Some(e.start)
    ensures v.dtend.Some? ==> e.end == v.dtend.value
    ensures v.dtend.None? && e.start.DateTime? ==>
      e.end.DateTime? && e.end.offset == e.start.offset
      && UtcOf(e.end.wall, e.end.offset) == UtcOf(e.start.wall, e.start.offset) + 2 * MicrosPerHour
    ensures v.dtend.None? && e.start.Date? ==> e.end == Date(e.start.day + 1)
  {
    ParsedFields(v, messageTs, rule, e);
    if v.dtend.None? {
      assert e.end == DefaultEnd(e.start);
    }
  }

  predicate NoneFails(comps: seq<VEvent>) {
    forall k :: 0 <= k < |comps| ==> !Fails(comps[k])
  }

  lemma NoneFailsSplit(comps: seq<VEvent>)
    requires comps != []
    ensures NoneFails(comps) <==> !Fails(comps[0]) && NoneFails(comps[1..])
  {
    if !Fails(comps[0]) && NoneFails(comps[1..]) {
      forall k | 0 < k < |comps|
        ensures !Fails(comps[k])
      {
        assert comps[k] == comps[1..][k - 1];
      }
    }
  }

  /**
   * `parse_ics_bytes` over the VEVENT blocks of one decoded calendar, in
   * document order. One kept block without DTSTART makes the whole calendar
   * fail, discarding the events parsed before it.
   */
  function ParseIcs(comps: seq<VEvent>, messageTs: int, rule: UrlRule): (r: Result<seq<Event>, ParseError>)
    ensures r.Ok? <==> NoneFails(comps)
    ensures r.Ok? ==> |r.value| <= |comps|
    ensures r.Ok? ==> forall e :: e in r.value ==> WellFormed(e) && e.messageTs == messageTs
    decreases |comps|
  {
    if comps == [] then Ok([])
    else
      NoneFailsSplit(comps);
      match ParseVEvent(comps[0], messageTs, rule)
      case Err(err) => Err(err)
      case Ok(head) =>
        match ParseIcs(comps[1..], messageTs, rule)
        case Err(err) => Err(err)
        case Ok(rest) =>
          var here := if head.Some? then [head.value] else [];
          assert forall e :: e in here + rest ==> e in here || e in rest;
          Ok(here + rest)
  }

  /** Blocks whose UID is absent or blank are dropped without error. */
  lemma {:induction false} BlankUidsDropped(comps: seq<VEvent>, messageTs: int, rule: UrlRule)
    requires forall k :: 0 <= k < |comps| ==> NormalizeText(comps[k].uid) == ""
    ensures ParseIcs(comps, messageTs, rule) == Ok([])
    decreases |comps|
  {
    if comps != [] {
      BlankUidsDropped(comps[1..], messageTs, rule);
    }
  }

  /** A calendar of one block fails, yields nothing, or yields that block's event. */
  lemma ParseIcsOne(v: VEvent, messageTs: int, rule: UrlRule)
    ensures var r, p := ParseIcs([v], messageTs, rule), ParseVEvent(v, messageTs, rule);
      && (p.Err? ==> r == Err(p.error))
      && (p == Ok(None) ==> r == Ok([]))
      && (p.Ok? && p.value.Some? ==> r == Ok([p.value.value]))
  {
    var rest := ParseIcs([v][1..], messageTs, rule);
    assert rest == Ok([]) by {
      assert [v][1..] == [];
    }
    assert [v][0] == v;
    var p := ParseVEvent(v, messageTs, rule);
    if p.Ok? && p.value.Some? {
      assert [p.value.value] + [] == [p.value.value];
    }
  }

  /**
   * Blocks are parsed independently and in order: a calendar parses exactly
   * when both of its parts do, and its events are theirs, first part first.
   */
  lemma {:induction false} ParseIcsAppend(a: seq<VEvent>, b: seq<VEvent>, messageTs: int, rule: UrlRule)
    ensures ParseIcs(a + b, messageTs, rule).Ok? <==> ParseIcs(a, messageTs, rule).Ok? && ParseIcs(b, messageTs, rule).Ok?
    ensures ParseIcs(a, messageTs, rule).Ok? && ParseIcs(b, messageTs, rule).Ok? ==>
      ParseIcs(a + b, messageTs, rule).value == ParseIcs(a, messageTs, rule).value + ParseIcs(b, messageTs, rule).value
    decreases |a|
  {
    if a == [] {
      assert a + b == b;
    } else {
      assert (a + b)[0] == a[0];
      assert (a + b)[1..] == a[1..] + b;
      ParseIcsAppend(a[1..], b, messageTs, rule);
      var head := ParseVEvent(a[0], messageTs, rule);
      if head.Ok? && ParseIcs(a[1..], messageTs, rule).Ok? && ParseIcs(b, messageTs, rule).Ok? {
        var here := if head.value.Some? then [head.value.value] else [];
        AppendAssoc(here, ParseIcs(a[1..], messageTs, rule).value, ParseIcs(b, messageTs, rule).value);
      }
    }
  }

  // ---------------------------------------------------------------- revisions

  /**
   * `_rank(a) < _rank(b)`: tuples `(sequence, dtstamp, message_ts)` compared
   * lexicographically, so SEQUENCE decides, DTSTAMP breaks its ties and the
   * message time breaks theirs.
   */
  predicate RankLess(a: Event, b: Event): (r: bool)
    ensures a.sequence < b.sequence ==> r
    ensures a.sequence > b.sequence ==> !r
    ensures a.sequence == b.sequence && a.dtstamp != b.dtstamp ==> (r <==> a.dtstamp < b.dtstamp)
    ensures a.sequence == b.sequence && a.dtstamp == b.dtstamp ==> (r <==> a.messageTs < b.messageTs)
  {
    || a.sequence < b.sequence
    || (a.sequence == b.sequence && a.dtstamp < b.dtstamp)
    || (a.sequence == b.sequence && a.dtstamp == b.dtstamp && a.messageTs < b.messageTs)
  }

  predicate SameRank(a: Event, b: Event) {
    a.sequence == b.sequence && a.dtstamp == b.dtstamp && a.messageTs == b.messageTs
  }

  /** The rank order is a strict total order on rank triples. */
  lemma RankOrder(a: Event, b: Event, c: Event)
    ensures !RankLess(a, a)
    ensures RankLess(a, b) && RankLess(b, c) ==> RankLess(a, c)
    ensures RankLess(a, b) || RankLess(b, a) || SameRank(a, b)
  {
  }

  function UidsOf(events: seq<Event>): set<string> {
    set e | e in events :: e.uid
  }

  /**
   * One step of `dedupe_latest`: `e` replaces the stored event only when it
   * ranks strictly higher. Only the entry for `e.uid` can change, and it ends
   * up holding an event `e` does not outrank.
   */
  function Keep(m: map<string, Event>, e: Event): (r: map<string, Event>)
    ensures r.Keys == m.Keys + {e.uid}
    ensures forall u :: u in m && u != e.uid ==> r[u] == m[u]
    ensures !RankLess(r[e.uid], e)
    ensures r[e.uid] == e || (e.uid in m && r[e.uid] == m[e.uid])
    ensures e.uid in m && RankLess(m[e.uid], e) ==> r[e.uid] == e
  {
    if e.uid !in m || RankLess(m[e.uid], e) then m[e.uid := e] else m
  }

  /**
   * `dedupe_latest`: a left fold of `Keep` over the events, in order. Every
   * uid of the input gets one entry, an event of the input with that uid that
   * no event with that uid outranks.
   */
  function Dedupe(events: seq<Event>): (m: map<string, Event>)
    ensures m.Keys == UidsOf(events)
    ensures forall u :: u in m ==> m[u].uid == u && m[u] in events
    ensures forall i :: 0 <= i < |events| ==> !RankLess(m[events[i].uid], events[i])
    decreases |events|
  {
    if events == [] then map[]
    else
      var init, last := events[..|events| - 1], events[|events| - 1];
      assert events == init + [last];
      KeepStep(init, last, Dedupe(init));
      Keep(Dedupe(init), last)
  }

  /** One step of the fold keeps the three facts `Dedupe` promises, for the input grown by one event. */
  lemma KeepStep(init: seq<Event>, last: Event, m: map<string, Event>)
    requires m.Keys == UidsOf(init)
    requires forall u :: u in m ==> m[u].uid == u && m[u] in init
    requires forall i :: 0 <= i < |init| ==> init[i].uid in m && !RankLess(m[init[i].uid], init[i])
    ensures var k, events := Keep(m, last), init + [last];
      && k.Keys == UidsOf(events)
      && (forall u :: u in k ==> k[u].uid == u && k[u] in events)
      && (forall i :: 0 <= i < |events| ==> events[i].uid in k && !RankLess(k[events[i].uid], events[i]))
  {
    var k, events := Keep(m, last), init + [last];
    assert UidsOf(events) == UidsOf(init) + {last.uid};
    forall i | 0 <= i < |events|
      ensures events[i].uid in k && !RankLess(k[events[i].uid], events[i])
    {
      var u := events[i].uid;
      if i < |init| {
        assert events[i] == init[i];
        if u == last.uid && k[u] == last {
          RankOrder(init[i], m[u], last);
        }
      } else if u in m {
        RankOrder(last, m[u], last);
      }
    }
  }

  /** The fold stores one event per uid, each taken from the input, so it never outgrows the input. */
  lemma {:induction false} DedupeSize(events: seq<Event>)
    ensures |Dedupe(events)| <= |events|
    decreases |events|
  {
    if events != [] {
      var init, last := events[..|events| - 1], events[|events| - 1];
      DedupeSize(init);
      var m := Dedupe(init);
      assert Dedupe(events) == Keep(m, last);
      if last.uid !in m {
        assert |m[last.uid := last]| == |m| + 1;
      } else {
        assert Keep(m, last).Keys == m.Keys;
      }
    }
  }

  /**
   * `events[i]` is the first event of its uid that no event of its uid
   * outranks: every event of that uid ranks no higher, and every earlier one
   * strictly lower.
   */
  predicate FirstLatest(events: seq<Event>, i: int)
    requires 0 <= i < |events|
  {
    && (forall j :: 0 <= j < |events| && events[j].uid == events[i].uid ==> !RankLess(events[i], events[j]))
    && (forall j :: 0 <= j < i && events[j].uid == events[i].uid ==> RankLess(events[j], events[i]))
  }

  /** At most one event of each uid is the first latest. */
  lemma FirstLatestUnique(events: seq<Event>, i: int, j: int)
    requires 0 <= i < |events| && 0 <= j < |events|
    requires events[i].uid == events[j].uid
    requires FirstLatest(events, i) && FirstLatest(events, j)
    ensures i == j
  {
  }

  /** Appending an event of another uid, or one that does not outrank it, keeps a first latest. */
  lemma FirstLatestAppend(init: seq<Event>, last: Event, i: int)
    requires 0 <= i < |init| && FirstLatest(init, i)
    requires init[i].uid != last.uid || !RankLess(init[i], last)
    ensures FirstLatest(init + [last], i)
  {
    var events := init + [last];
    assert forall j :: 0 <= j < |init| ==> events[j] == init[j];
    assert events[|init|] == last;
  }

  /** An appended event that outranks every earlier event of its uid is its first latest. */
  lemma FirstLatestLast(init: seq<Event>, last: Event)
    requires forall j :: 0 <= j < |init| && init[j].uid == last.uid ==> RankLess(init[j], last)
    ensures FirstLatest(init + [last], |init|)
  {
    var events := init + [last];
    assert forall j :: 0 <= j < |init| ==> events[j] == init[j];
    assert events[|init|] == last;
    RankOrder(last, last, last);
    forall j | 0 <= j < |init| && init[j].uid == last.uid
      ensures !RankLess(last, init[j])
    {
      RankOrder(init[j], last, init[j]);
    }
  }

  lemma {:induction false} DedupeKeepsFirstLatest(events: seq<Event>, u: string)
    requires u in UidsOf(events)
    ensures exists i :: 0 <= i < |events| && FirstLatest(events, i) && events[i] == Dedupe(events)[u]
    decreases |events|
  {
    var init, last := events[..|events| - 1], events[|events| - 1];
    DedupeSnoc(events);
    var m0 := Dedupe(init);
    UidsOfAppend(init, last);
    if u != last.uid || (u in m0 && !RankLess(m0[u], last)) {
      DedupeKeepsFirstLatest(init, u);
      var i :| 0 <= i < |init| && FirstLatest(init, i) && init[i] == m0[u];
      OldWinnerFirstLatest(init, last, m0, u, i);
      assert FirstLatest(events, i) && events[i] == Dedupe(events)[u];
    } else {
      NewWinnerFirstLatest(init, last);
      assert FirstLatest(events, |init|) && events[|init|] == Dedupe(events)[u];
    }
  }

  /** The fold over a non-empty input is one `Keep` step after the fold over all but its last event. */
  lemma DedupeSnoc(events: seq<Event>)
    requires events != []
    ensures var init, last := events[..|events| - 1], events[|events| - 1];
      events == init + [last] && Dedupe(events) == Keep(Dedupe(init), last)
  {
    var init, last := events[..|events| - 1], events[|events| - 1];
    assert events == init + [last];
  }

  /** A stored event the appended one does not displace stays the first latest of its uid. */
  lemma OldWinnerFirstLatest(init: seq<Event>, last: Event, m: map<string, Event>, u: string, i: int)
    requires 0 <= i < |init| && FirstLatest(init, i) && u in m && init[i] == m[u] && u == init[i].uid
    requires u != last.uid || !RankLess(m[u], last)
    ensures FirstLatest(init + [last], i) && (init + [last])[i] == Keep(m, last)[u]
  {
    FirstLatestAppend(init, last, i);
  }

  lemma UidsOfAppend(init: seq<Event>, last: Event)
    ensures UidsOf(init + [last]) == UidsOf(init) + {last.uid}
  {
    var events := init + [last];
    forall e | e in events
      ensures e in init || e == last
    {
      var k :| 0 <= k < |events| && events[k] == e;
      if k < |init| {
        assert init[k] == e;
      }
    }
  }

  /** An appended event that the fold stores for its uid outranks every earlier event of that uid. */
  lemma NewWinnerFirstLatest(init: seq<Event>, last: Event)
    requires last.uid !in Dedupe(init) || RankLess(Dedupe(init)[last.uid], last)
    ensures FirstLatest(init + [last], |init|)
  {
    var m0 := Dedupe(init);
    forall j | 0 <= j < |init| && init[j].uid == last.uid
      ensures RankLess(init[j], last)
    {
      assert init[j] in init;
      assert !RankLess(m0[init[j].uid], init[j]);
      RankOrder(init[j], m0[last.uid], last);
    }
    FirstLatestLast(init, last);
  }

  /**
   * The winner `dedupe_latest` keeps for a uid is exactly the first event of
   * that uid with the highest rank: the fold agrees with this order-based
   * definition on every input.
   */
  lemma DedupeIsFirstLatest(events: seq<Event>, i: int)
    requires 0 <= i < |events| && FirstLatest(events, i)
    ensures events[i].uid in Dedupe(events) && Dedupe(events)[events[i].uid] == events[i]
  {
    var u := events[i].uid;
    assert u in UidsOf(events);
    DedupeKeepsFirstLatest(events, u);
    var k :| 0 <= k < |events| && FirstLatest(events, k) && events[k] == Dedupe(events)[u];
    FirstLatestUnique(events, i, k);
  }

  /** A higher SEQUENCE wins whichever revision arrives first. */
  lemma HigherSequenceWins(a: Event, b: Event)
    requires a.uid == b.uid && a.sequence < b.sequence
    ensures Dedupe([a, b]) == map[a.uid := b]
    ensures Dedupe([b, a]) == map[a.uid := b]
  {
    assert [a, b][..1] == [a] && [b, a][..1] == [b];
    assert [a][..0] == [] && [b][..0] == [];
  }

  /** With equal SEQUENCE and DTSTAMP the revision from the later message wins, in either order. */
  lemma LaterMessageBreaksTie(a: Event, b: Event)
    requires a.uid == b.uid && a.sequence == b.sequence && a.dtstamp == b.dtstamp
    requires a.messageTs < b.messageTs
    ensures Dedupe([a, b]) == map[a.uid := b]
    ensures Dedupe([b, a]) == map[a.uid := b]
  {
    assert [a, b][..1] == [a] && [b, a][..1] == [b];
    assert [a][..0] == [] && [b][..0] == [];
  }

  /** On a full rank tie the first-seen revision is kept, so then the result depends on arrival order. */
  lemma FullTieKeepsFirstSeen(a: Event, b: Event)
    requires a.uid == b.uid && SameRank(a, b)
    ensures Dedupe([a, b]) == map[a.uid := a]
    ensures Dedupe([b, a]) == map[a.uid := b]
  {
    assert [a, b][..1] == [a] && [b, a][..1] == [b];
    assert [a][..0] == [] && [b][..0] == [];
  }

  /** No two distinct events of one uid share a rank. */
  predicate NoRankTies(events: seq<Event>) {
    forall i, j ::
      0 <= i < |events| && 0 <= j < |events| && events[i].uid == events[j].uid && SameRank(events[i], events[j])
      ==> events[i] == events[j]
  }

  lemma SameMembers(xs: seq<Event>, ys: seq<Event>)
    requires multiset(xs) == multiset(ys)
    ensures forall e :: e in xs <==> e in ys
    ensures UidsOf(xs) == UidsOf(ys)
  {
    forall e
      ensures e in xs <==> e in ys
    {
      assert e in xs <==> e in multiset(xs);
      assert e in ys <==> e in multiset(ys);
    }
  }

  /** Two winners for one uid, each unbeaten in the other's input, tie on rank. */
  lemma WinnersTie(xs: seq<Event>, ys: seq<Event>, u: string)
    requires forall e :: e in xs <==> e in ys
    requires u in Dedupe(xs) && u in Dedupe(ys)
    ensures SameRank(Dedupe(xs)[u], Dedupe(ys)[u])
  {
    var a, b := Dedupe(xs)[u], Dedupe(ys)[u];
    assert a in ys && b in xs;
    var ia :| 0 <= ia < |ys| && ys[ia] == a;
    var ib :| 0 <= ib < |xs| && xs[ib] == b;
    assert !RankLess(Dedupe(ys)[ys[ia].uid], ys[ia]);
    assert !RankLess(Dedupe(xs)[xs[ib].uid], xs[ib]);
    RankOrder(a, b, a);
  }

  /** Without full rank ties, any reordering of the input gives the same map. */
  lemma DedupeOrderIndependent(xs: seq<Event>, ys: seq<Event>)
    requires multiset(xs) == multiset(ys)
    requires NoRankTies(xs)
    ensures Dedupe(xs) == Dedupe(ys)
  {
    var mx, my := Dedupe(xs), Dedupe(ys);
    SameMembers(xs, ys);
    assert mx.Keys == my.Keys;
    forall u | u in mx
      ensures mx[u] == my[u]
    {
      WinnersTie(xs, ys, u);
      var ia :| 0 <= ia < |xs| && xs[ia] == mx[u];
      var ib :| 0 <= ib < |xs| && xs[ib] == my[u];
      assert SameRank(xs[ia], xs[ib]);
    }
  }

  /** The uids in order of first appearance: the iteration order of the dictionary `dedupe_latest` builds. */
  function UidOrder(events: seq<Event>): (r: seq<string>)
    ensures forall i, j :: 0 <= i < j < |r| ==> r[i] != r[j]
    ensures forall u :: u in r <==> u in UidsOf(events)
    decreases |events|
  {
    if events == [] then []
    else
      var init, last := events[..|events| - 1], events[|events| - 1];
      assert events == init + [last];
      assert UidsOf(events) == UidsOf(init) + {last.uid};
      var o := UidOrder(init);
      if last.uid in o then o else o + [last.uid]
  }

  lemma {:induction false} DistinctCardinality(o: seq<string>)
    requires forall i, j :: 0 <= i < j < |o| ==> o[i] != o[j]
    ensures |set u | u in o| == |o|
    decreases |o|
  {
    if o != [] {
      var init := o[..|o| - 1];
      DistinctCardinality(init);
      assert (set u | u in o) == (set u | u in init) + {o[|o| - 1]};
      assert o[|o| - 1] !in init;
    }
  }

  /** Listing a map's values along an enumeration of its keys misses none of them. */
  lemma ListedValues(m: map<string, Event>, o: seq<string>, r: seq<Event>)
    requires forall u :: u in o <==> u in m
    requires |r| == |o| && forall k :: 0 <= k < |o| ==> o[k] in m && r[k] == m[o[k]]
    ensures forall u :: u in m ==> m[u] in r
  {
    forall u | u in m
      ensures m[u] in r
    {
      var k :| 0 <= k < |o| && o[k] == u;
      assert r[k] == m[u];
    }
  }

  lemma UidOrderCovers(events: seq<Event>)
    ensures |UidOrder(events)| == |Dedupe(events)|
    ensures forall u :: u in UidOrder(events) <==> u in Dedupe(events)
  {
    var o := UidOrder(events);
    DistinctCardinality(o);
    assert (set u | u in o) == Dedupe(events).Keys;
  }

  /** The values of `m` at the keys `o`, in that order. */
  function ValuesAlong(m: map<string, Event>, o: seq<string>): (r: seq<Event>)
    requires forall u :: u in o ==> u in m
    ensures |r| == |o| && forall k :: 0 <= k < |o| ==> r[k] == m[o[k]]
  {
    seq(|o|, k requires 0 <= k < |o| => m[o[k]])
  }

  /** `dedupe_latest(events).values()`, in the dictionary's iteration order. */
  function DedupedValues(events: seq<Event>): (r: seq<Event>)
    ensures |r| == |Dedupe(events)|
  {
    UidOrderCovers(events);
    ValuesAlong(Dedupe(events), UidOrder(events))
  }

  /** The listed values are exactly the winners, one per uid. */
  lemma DedupedValuesAreWinners(events: seq<Event>)
    ensures forall k :: 0 <= k < |DedupedValues(events)| ==>
      var e := DedupedValues(events)[k]; e.uid in Dedupe(events) && Dedupe(events)[e.uid] == e
    ensures forall u :: u in Dedupe(events) ==> Dedupe(events)[u] in DedupedValues(events)
    ensures forall i, j :: 0 <= i < j < |DedupedValues(events)| ==> DedupedValues(events)[i].uid != DedupedValues(events)[j].uid
  {
    var m, o, r := Dedupe(events), UidOrder(events), DedupedValues(events);
    UidOrderCovers(events);
    assert r == ValuesAlong(m, o);
    assert forall k :: 0 <= k < |o| ==> r[k].uid == o[k];
    ListedValues(m, o, r);
  }

  /** When no two events share a uid, the fold keeps every one of them. */
  lemma DedupeOfDistinct(vs: seq<Event>)
    requires forall i, j :: 0 <= i < j < |vs| ==> vs[i].uid != vs[j].uid
    ensures forall k :: 0 <= k < |vs| ==> vs[k].uid in Dedupe(vs) && Dedupe(vs)[vs[k].uid] == vs[k]
  {
    var m := Dedupe(vs);
    forall k | 0 <= k < |vs|
      ensures vs[k].uid in m && m[vs[k].uid] == vs[k]
    {
      assert vs[k] in vs;
      var u := vs[k].uid;
      var k' :| 0 <= k' < |vs| && vs[k'] == m[u];
      assert vs[k'].uid == u;
    }
  }

  lemma RedupeKeys(events: seq<Event>)
    ensures Dedupe(DedupedValues(events)).Keys == Dedupe(events).Keys
  {
    var m, vs := Dedupe(events), DedupedValues(events);
    DedupedValuesAreWinners(events);
    var m2 := Dedupe(vs);
    forall u
      ensures u in m2 <==> u in m
    {
      if u in m {
        assert m[u] in vs;
      }
      if u in m2 {
        var k :| 0 <= k < |vs| && vs[k] == m2[u];
      }
    }
  }

  /** Deduplicating the winners again changes nothing. */
  lemma DedupeIdempotent(events: seq<Event>)
    ensures Dedupe(DedupedValues(events)) == Dedupe(events)
  {
    var m, vs := Dedupe(events), DedupedValues(events);
    RedupeKeys(events);
    var m2 := Dedupe(vs);
    forall u | u in m
      ensures m2[u] == m[u]
    {
      DedupedValuesAreWinners(events);
      DedupeOfDistinct(vs);
      var k :| 0 <= k < |vs| && vs[k] == m[u];
    }
  }
}
