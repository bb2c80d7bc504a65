/**
 * The pure half of the Google Calendar client: which events are recent enough
 * to sync, the key they are ordered by, and the request body an event becomes.
 */
module CalendarClient {
  import opened Base
  import opened Text
  import opened Time
  import opened IcsParser

  // ---------------------------------------------------------------- eligibility

  /** The oldest end an event may have and still be synced: `now` minus `lookbackDays` whole days. */
  function Cutoff(lookbackDays: int, now: int): int {
    now - lookbackDays * MicrosPerDay
  }

  /**
   * `event_not_too_old`: a date-time end is compared as a UTC instant (naive
   * read as UTC), a date end as 00:00 UTC of that day; ending exactly at the
   * cutoff still counts.
   */
  predicate NotTooOld(e: Event, lookbackDays: int, now: int): (r: bool)
    ensures r <==> SortKey(e.end) >= Cutoff(lookbackDays, now)
  {
    var cutoff := Cutoff(lookbackDays, now);
    match e.end
    case DateTime(wall, offset) => UtcOf(wall, offset) >= cutoff
    case Date(day) => MidnightOf(day) >= cutoff
  }

  // ---------------------------------------------------------------- ordering

  /**
   * `event_start_sort_key`: the UTC instant a start denotes. A date-time's
   * wall clock reads the instant shifted by its offset (none meaning UTC); a
   * date is the 00:00 UTC that begins it.
   */
  function SortKey(value: When): (r: int)
    ensures value.DateTime? ==> r + value.offset.GetOr(0) == value.wall
    ensures value.Date? ==> r % MicrosPerDay == 0 && r / MicrosPerDay == value.day
  {
    match value
    case DateTime(wall, offset) => UtcOf(wall, offset)
    case Date(day) => MidnightOf(day)
  }

  /** A longer look-back never drops an event a shorter one keeps. */
  lemma NotTooOldMonotone(e: Event, shorter: int, longer: int, now: int)
    requires shorter <= longer
    ensures NotTooOld(e, shorter, now) ==> NotTooOld(e, longer, now)
  {
    assert shorter * MicrosPerDay <= longer * MicrosPerDay;
  }

  /** As the clock moves on, an ineligible event never becomes eligible again. */
  lemma NotTooOldLater(e: Event, lookbackDays: int, earlier: int, later: int)
    requires earlier <= later
    ensures NotTooOld(e, lookbackDays, later) ==> NotTooOld(e, lookbackDays, earlier)
  {
  }

  /**
   * A whole-day event that ends on the UTC date of the cutoff is eligible
   * exactly when the cutoff falls on midnight: any later time of day on that
   * date already excludes it.
   */
  lemma DateEndAtCutoffDay(e: Event, lookbackDays: int, now: int)
    requires e.end.Date? && e.end.day == Cutoff(lookbackDays, now) / MicrosPerDay
    ensures NotTooOld(e, lookbackDays, now) <==> Cutoff(lookbackDays, now) % MicrosPerDay == 0
  {
    var c := Cutoff(lookbackDays, now);
    assert c == (c / MicrosPerDay) * MicrosPerDay + c % MicrosPerDay;
  }

  /** A naive date-time is read as UTC: it is eligible exactly when the same wall time at offset zero is. */
  lemma NaiveEndIsUtc(e: Event, lookbackDays: int, now: int)
    requires e.end.DateTime? && e.end.offset.None?
    ensures NotTooOld(e, lookbackDays, now) <==> NotTooOld(e.(end := DateTime(e.end.wall, Some(0))), lookbackDays, now)
  {
  }

  /** The same instant written in two time zones sorts the same. */
  lemma SortKeyZoneInvariant(wall: int, offset: int, shift: int)
    ensures SortKey(DateTime(wall + shift, Some(offset + shift))) == SortKey(DateTime(wall, Some(offset)))
  {
  }

  /** A date sorts as a date-time at 00:00 UTC of that day, hence before anything later that day. */
  lemma SortKeyDateIsMidnight(day: int, wall: int)
    requires MidnightOf(day) <= wall < MidnightOf(day + 1)
    ensures SortKey(Date(day)) == SortKey(DateTime(MidnightOf(day), Some(0)))
    ensures SortKey(Date(day)) <= SortKey(DateTime(wall, None)) < SortKey(Date(day + 1))
  {
  }

  // ---------------------------------------------------------------- request bodies

  /**
   * The start/end object of a Google Calendar event: `{"date": …}` for a whole
   * day, `{"dateTime": …}` for a time with an explicit UTC offset. The ISO
   * text itself is not modelled; the fields it is printed from are.
   */
  datatype GoogleTime = GoogleDate(day: int) | GoogleDateTime(wall: int, offset: int)

  /** The only key of the object. */
  function KeyOf(g: GoogleTime): string {
    match g
    case GoogleDate(_) => "date"
    case GoogleDateTime(_, _) => "dateTime"
  }

  /** The instant a Google time denotes, a date meaning its 00:00 UTC. */
  function InstantOf(g: GoogleTime): int {
    match g
    case GoogleDate(day) => MidnightOf(day)
    case GoogleDateTime(wall, offset) => wall - offset
  }

  /** Reading a Google time back as a calendar value. */
  function WhenOf(g: GoogleTime): When {
    match g
    case GoogleDate(day) => Date(day)
    case GoogleDateTime(wall, offset) => DateTime(wall, Some(offset))
  }

  /**
   * `to_google_event_time`: a date stays a date; a date-time keeps its wall
   * time and offset, a naive one being given offset zero (UTC).
   */
  function ToGoogleEventTime(value: When): (g: GoogleTime)
    ensures KeyOf(g) == (if value.DateTime? then "dateTime" else "date")
    ensures InstantOf(g) == SortKey(value)
    ensures value.DateTime? ==> g.wall == value.wall
  {
    match value
    case DateTime(wall, offset) => GoogleDateTime(wall, offset.GetOr(0))
    case Date(day) => GoogleDate(day)
  }

  /** Every value other than a naive date-time survives the conversion unchanged. */
  lemma GoogleTimeRoundTrip(value: When)
    requires !(value.DateTime? && value.offset.None?)
    ensures WhenOf(ToGoogleEventTime(value)) == value
  {
  }

  /** A naive date-time is sent as the same wall time in UTC. */
  lemma GoogleTimeNaiveIsUtc(wall: int)
    ensures ToGoogleEventTime(DateTime(wall, None)) == ToGoogleEventTime(DateTime(wall, Some(0)))
  {
  }

  const Footer: string := "Auto-synced from Meetup Gmail invites"
  const FooterSeparator: string := "\n\n"
  const SyncSource: string := "meetup-gmail-sync"
  const SourceTitle: string := "Meetup"

  lemma FooterShape()
    ensures Footer != [] && !IsSpace(Footer[0]) && !IsSpace(Footer[|Footer| - 1])
    ensures AllSpace(FooterSeparator)
  {
  }

  /**
   * The provenance footer step of `build_calendar_body`: a description that
   * already mentions the footer is kept as it is; otherwise the footer is
   * appended after a blank line and the whole is stripped.
   */
  function WithFooter(description: string): (r: string)
    ensures Contains(r, Footer)
    ensures Contains(description, Footer) ==> r == description
  {
    if Contains(description, Footer) then description
    else
      FooterShape();
      assert description + FooterSeparator + Footer == (description + FooterSeparator) + Footer;
      StripKeepsTail(description + FooterSeparator, Footer);
      Strip(description + FooterSeparator + Footer)
  }

  /** Applying the footer step to its own output changes nothing. */
  lemma WithFooterIdempotent(description: string)
    ensures WithFooter(WithFooter(description)) == WithFooter(description)
  {
  }

  /**
   * What the appended form looks like: the description without its leading
   * whitespace, a blank line and the footer; a blank description becomes the
   * footer alone.
   */
  lemma WithFooterAppends(description: string)
    requires !Contains(description, Footer)
    ensures WithFooter(description) == if AllSpace(description) then Footer else StripLeft(description) + FooterSeparator + Footer
  {
    FooterShape();
    StripJoined(description, FooterSeparator, Footer);
  }

  /** The `source` link shown on the calendar entry. */
  datatype Source = Source(title: string, url: string)

  /** The request body `build_calendar_body` produces. */
  datatype Body = Body(
    summary: string,
    description: string,
    location: string,
    start: GoogleTime,
    end: GoogleTime,
    privateProperties: map<string, string>,
    source: Option<Source>)

  /**
   * `build_calendar_body`: the event's text and times, the footer-stamped
   * description, the private properties that mark the entry as synced from
   * this uid, and a Meetup source link when the event has a URL.
   */
  function BuildBody(e: Event): (b: Body)
    ensures b.summary == e.summary && b.location == e.location
    ensures Contains(b.description, Footer)
    ensures Contains(e.description, Footer) ==> b.description == e.description
    ensures !Contains(e.description, Footer) ==>
      b.description == if AllSpace(e.description) then Footer else StripLeft(e.description) + FooterSeparator + Footer
    ensures b.description == WithFooter(e.description)
    ensures InstantOf(b.start) == SortKey(e.start) && InstantOf(b.end) == SortKey(e.end)
    ensures b.start == ToGoogleEventTime(e.start) && b.end == ToGoogleEventTime(e.end)
    ensures b.privateProperties.Keys == {"sync_source", "meetup_uid"}
    ensures b.privateProperties["sync_source"] == SyncSource && b.privateProperties["meetup_uid"] == e.uid
    ensures b.source.Some? <==> e.meetupUrl != ""
    ensures b.source.Some? ==> b.source.value == Source(SourceTitle, e.meetupUrl)
  {
    assert !Contains(e.description, Footer) ==>
      WithFooter(e.description) == if AllSpace(e.description) then Footer else StripLeft(e.description) + FooterSeparator + Footer
    by {
      if !Contains(e.description, Footer) {
        WithFooterAppends(e.description);
      }
    }
    Body(
      e.summary,
      WithFooter(e.description),
      e.location,
      ToGoogleEventTime(e.start),
      ToGoogleEventTime(e.end),
      map["sync_source" := SyncSource, "meetup_uid" := e.uid],
      if e.meetupUrl != "" then Some(Source(SourceTitle, e.meetupUrl)) else None)
  }
}
