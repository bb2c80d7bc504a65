# meetup-gmail-calendar-sync, modelled in Dafny

The synchroniser reads Meetup invitation e-mails from Gmail and mirrors their
calendar attachments into a dedicated Google Calendar. This project models its
pure core and proves properties of the model:

- **ICS parsing** (`IcsParser`, `ics_parser.dfy`). The decoded VEVENT blocks of one
  attachment become `Event` records. Defaults are filled in the way
  `parse_ics_bytes` fills them. The Meetup link is searched for in the
  description. A block without DTSTART fails the whole attachment.
- **Revision selection** (`IcsParser`). `dedupe_latest` is a left fold that keeps, per uid,
  the revision with the highest `(sequence, dtstamp, message_ts)` rank. The
  model characterises it by an independent definition: the first revision of
  its uid that nothing outranks.
- **Calendar client** (`CalendarClient`, `calendar_client.dfy`). The look-back eligibility test, the
  start-time sort key, the Google start/end objects, and the request body with
  its provenance footer.
- **Gmail client** (`GmailClient`, `gmail_client.dfy`):
  - base64url re-padding;
  - the pre-order walk of a message's MIME part tree, with an equivalent
    explicit-stack method;
  - the choice of calendar parts and their payloads;
  - `internalDate` parsing;
  - the paging loop of the message search, with a method that is proved equal
    to its functional definition.
- **Credential scope check** (`Auth`, `auth.dfy`). Scope normalisation, "Gmail
  modify grants Gmail read", and the missing-scope computation that
  `build_credentials` refuses on.
- **The run** (`Sync`, `sync.dfy`):
  - message collection, where a bad attachment is skipped and an unreadable
    timestamp aborts the run;
  - deduplication, filtering, and a stable sort by start;
  - the per-event decision: create, update, delete or skip, with the change
    sent;
  - the counters, and how a dry run's counters relate to a real run's.

Supporting modules:

- `Base`: `Option` and `Result`.
- `Text`: the Python `str` operations used — `strip`, `upper`/`lower`, `in`,
  `split()`, `int()`.
- `Time`: instants as integer microseconds since the epoch; dates as day
  numbers; date-times as wall time plus an optional UTC offset, where `None`
  means naive.
- `Config`: the OAuth scope URLs.

The model takes everything the source gets from outside as a parameter:

- `now` is the clock, one value for the whole run.
- `search` is the Gmail message-list call.
- `getMessage` is the full-message fetch.
- `fetch` is the attachment fetch.
- `decode` is the calendar library reading padded base64 text into VEVENT
  blocks.
- `lookup` is `find_existing_event_by_uid`.

Where the source calls the Google APIs to change the calendar, the model returns
the list of `Mutation`s it would send.

## Model

| member | source | states |
|---|---|---|
| `Text.Strip` | src/meetup_gmail_calendar_sync/ics_parser.py:39-42 | `strip()` never lengthens, leaves no whitespace at either end, and gives "" exactly for all-whitespace text |
| `Text.StripIsInfix` | src/meetup_gmail_calendar_sync/ics_parser.py:42 | stripping only cuts at the ends: the stripped text occurs inside the original |
| `Text.StripIdempotent` | src/meetup_gmail_calendar_sync/ics_parser.py:42 | stripping stripped text changes nothing |
| `Text.StripShape` | src/meetup_gmail_calendar_sync/ics_parser.py:42 | `strip()` removes an all-whitespace prefix and an all-whitespace suffix and keeps exactly the text between them |
| `Text.StripJoined` | src/meetup_gmail_calendar_sync/calendar_client.py:67 | stripping text + whitespace separator + trimmed tail keeps separator and tail intact and only left-strips the text (all-whitespace text vanishes) |
| `Text.Upper` | src/meetup_gmail_calendar_sync/ics_parser.py:54 | upper-casing keeps the length and every non-letter, and turns each lower-case ASCII letter into its capital (code point minus 32) |
| `Text.Lower` | src/meetup_gmail_calendar_sync/gmail_client.py:23-24 | lower-casing keeps the length and every non-letter, and turns each capital ASCII letter into its lower-case letter (code point plus 32) |
| `Text.LowerOfUpper` | src/meetup_gmail_calendar_sync/gmail_client.py:23-25 | lower-casing forgets the original case: lower(upper(s)) == lower(s) |
| `Text.Words` | src/meetup_gmail_calendar_sync/auth.py:38 | `split()` yields only non-empty tokens free of whitespace |
| `Text.WordsOfJoined` | src/meetup_gmail_calendar_sync/auth.py:38 | `split()` inverts `" ".join` on such tokens |
| `Text.WordsOfSpace` | src/meetup_gmail_calendar_sync/auth.py:38 | all-whitespace text splits into no tokens |
| `Text.WordsSplitAtSpace` | src/meetup_gmail_calendar_sync/auth.py:38 | any non-empty whitespace run separates: the tokens of a + run + b are those of a followed by those of b |
| `Text.DecimalRoundTrip` | src/meetup_gmail_calendar_sync/gmail_client.py:29 | `int()` reads a non-negative number's decimal text back exactly |
| `IcsParser.ToDateTimeUtc` | src/meetup_gmail_calendar_sync/ics_parser.py:31-36 | a date-time becomes the UTC instant its wall clock and offset denote, a naive one read as UTC; anything else gives the fallback |
| `IcsParser.NormalizeText` | src/meetup_gmail_calendar_sync/ics_parser.py:39-42 | an absent value gives ""; otherwise the value with its leading and trailing whitespace removed (a slice `value[i..j]` with only whitespace outside it), empty exactly when the value is all whitespace |
| `IcsParser.FindUrl` | src/meetup_gmail_calendar_sync/ics_parser.py:76-77 | the link found is "" or text that occurs in the description |
| `IcsParser.AsWrittenNeedsBackslash` | src/meetup_gmail_calendar_sync/ics_parser.py:13 | with the pattern as written, a description containing no backslash never yields a link |
| `IcsParser.IntendedFindsUrl` | src/meetup_gmail_calendar_sync/ics_parser.py:13 | with the intended pattern, a description that is one whitespace-free http(s) URL yields the whole URL |
| `IcsParser.IntendedFindsFirstLink` | src/meetup_gmail_calendar_sync/ics_parser.py:76-77 | the search returns the leftmost, longest match: with the intended pattern, a link after text without the letter 'h' and ending at whitespace or the end of the description is found whole |
| `IcsParser.FindUrlSkips` | src/meetup_gmail_calendar_sync/ics_parser.py:76-77 | the search passes over text without the letter 'h', since every match begins with its scheme |
| `IcsParser.MeetupLinkMissedAsWritten` | src/meetup_gmail_calendar_sync/ics_parser.py:76-77 | a description that is just a Meetup event link yields "" as written and the whole link with the intended pattern |
| `IcsParser.ParseVEvent` | src/meetup_gmail_calendar_sync/ics_parser.py:49-93 | a block is dropped exactly when its UID is blank and fails exactly when kept without DTSTART; a kept event's uid is the stripped UID, it carries the message's time and an upper-case status, and its link is the pattern's first match in its stripped description |
| `IcsParser.SequenceDefaults` | src/meetup_gmail_calendar_sync/ics_parser.py:56-60 | SEQUENCE is its number when `int()` accepts it, 0 when absent or rejected |
| `IcsParser.StatusDefaults` | src/meetup_gmail_calendar_sync/ics_parser.py:54 | STATUS defaults to CONFIRMED when absent or empty and is stripped and upper-cased; whitespace-only becomes "" since the default is chosen before stripping |
| `IcsParser.SummaryDefaults` | src/meetup_gmail_calendar_sync/ics_parser.py:73 | SUMMARY defaults to "Meetup event" when absent or empty and is otherwise its stripped text, so whitespace-only becomes "" |
| `IcsParser.FreeTextDefaults` | src/meetup_gmail_calendar_sync/ics_parser.py:74-77 | DESCRIPTION and LOCATION are stripped and "" when absent; no description means no link |
| `IcsParser.DtstampFallsBack` | src/meetup_gmail_calendar_sync/ics_parser.py:62-63 | DTSTAMP is its UTC instant (naive read as UTC); when absent or a plain date the message time stands in |
| `IcsParser.EndDefaults` | src/meetup_gmail_calendar_sync/ics_parser.py:65-71 | DTEND is kept when given; otherwise two hours after a date-time start (same offset) or the next day after a date start |
| `IcsParser.ParseIcs` | src/meetup_gmail_calendar_sync/ics_parser.py:45-95 | an attachment parses exactly when no kept block lacks DTSTART; it yields at most one event per block, each well formed and stamped with the message time |
| `IcsParser.BlankUidsDropped` | src/meetup_gmail_calendar_sync/ics_parser.py:50-52 | blocks whose UID is absent or blank produce no events and no error |
| `IcsParser.ParseIcsOne` | src/meetup_gmail_calendar_sync/ics_parser.py:47-95 | a one-block calendar fails with that block's error, yields nothing for a dropped block, and otherwise yields that block's event |
| `IcsParser.ParseIcsAppend` | src/meetup_gmail_calendar_sync/ics_parser.py:47-95 | blocks are parsed in document order and independently: a calendar parses exactly when both parts do, and its events are the first part's followed by the second's |
| `IcsParser.RankLess` | src/meetup_gmail_calendar_sync/ics_parser.py:98-99 | the rank order is decided by SEQUENCE, then DTSTAMP, then message time |
| `IcsParser.RankOrder` | src/meetup_gmail_calendar_sync/ics_parser.py:98-99 | the rank comparison is irreflexive, transitive and total up to equal rank |
| `IcsParser.Keep` | src/meetup_gmail_calendar_sync/ics_parser.py:105-107 | one loop step touches only the event's uid, whose entry is the event or the previous one, never one the event outranks, and the event replaces a previous one it outranks |
| `IcsParser.Dedupe` | src/meetup_gmail_calendar_sync/ics_parser.py:102-108 | the map's keys are exactly the input's uids; each value is an input event of that uid that no input event of that uid outranks |
| `IcsParser.DedupeSize` | src/meetup_gmail_calendar_sync/ics_parser.py:102-108 | deduplication never yields more events than it was given |
| `IcsParser.DedupeIsFirstLatest` | src/meetup_gmail_calendar_sync/ics_parser.py:102-108 | the fold keeps for each uid exactly the first of its highest-ranked revisions (agreement with the order-based definition) |
| `IcsParser.HigherSequenceWins` | src/meetup_gmail_calendar_sync/ics_parser.py:106 | a higher SEQUENCE wins in either arrival order |
| `IcsParser.LaterMessageBreaksTie` | src/meetup_gmail_calendar_sync/ics_parser.py:98-99 | on equal SEQUENCE and DTSTAMP the later message wins in either arrival order |
| `IcsParser.FullTieKeepsFirstSeen` | src/meetup_gmail_calendar_sync/ics_parser.py:106 | the comparison is strict, so on a full rank tie the first-seen revision is kept and the result depends on arrival order |
| `IcsParser.DedupeOrderIndependent` | src/meetup_gmail_calendar_sync/ics_parser.py:102-108 | without full rank ties, any permutation of the input gives the same map |
| `IcsParser.UidOrder` | src/meetup_gmail_calendar_sync/ics_parser.py:102-108 | the dictionary's iteration order lists each input uid exactly once |
| `IcsParser.DedupedValuesAreWinners` | src/meetup_gmail_calendar_sync/sync.py:96-97 | `deduped.values()` lists exactly the winners, one per uid, no uid twice |
| `IcsParser.DedupeIdempotent` | src/meetup_gmail_calendar_sync/ics_parser.py:102-108 | deduplicating the winners again gives the same map |
| `CalendarClient.NotTooOld` | src/meetup_gmail_calendar_sync/calendar_client.py:41-47 | an event is eligible exactly when its end's sort key is at or after now minus the look-back |
| `CalendarClient.SortKey` | src/meetup_gmail_calendar_sync/calendar_client.py:50-54 | a date-time sorts at the UTC instant its wall clock and offset denote (naive as UTC); a date at 00:00 UTC of that day |
| `CalendarClient.NotTooOldMonotone` | src/meetup_gmail_calendar_sync/calendar_client.py:41-42 | a longer look-back keeps every event a shorter one keeps |
| `CalendarClient.NotTooOldLater` | src/meetup_gmail_calendar_sync/calendar_client.py:41-42 | as the clock advances an ineligible event never becomes eligible |
| `CalendarClient.DateEndAtCutoffDay` | src/meetup_gmail_calendar_sync/calendar_client.py:46-47 | a whole-day event ending on the cutoff's UTC date is eligible exactly when the cutoff is at midnight |
| `CalendarClient.NaiveEndIsUtc` | src/meetup_gmail_calendar_sync/calendar_client.py:43-45 | a naive end is judged as the same wall time in UTC |
| `CalendarClient.SortKeyZoneInvariant` | src/meetup_gmail_calendar_sync/calendar_client.py:50-54 | one instant written in two offsets sorts the same |
| `CalendarClient.SortKeyDateIsMidnight` | src/meetup_gmail_calendar_sync/calendar_client.py:50-54 | a date sorts as 00:00 UTC of that day: no later than any time that day and before the next day |
| `CalendarClient.ToGoogleEventTime` | src/meetup_gmail_calendar_sync/calendar_client.py:57-61 | a date-time becomes a `dateTime` object and a date a `date` object, denoting the instant the sort key gives, wall time kept |
| `CalendarClient.GoogleTimeRoundTrip` | src/meetup_gmail_calendar_sync/calendar_client.py:57-61 | dates and offset-aware date-times are read back unchanged |
| `CalendarClient.GoogleTimeNaiveIsUtc` | src/meetup_gmail_calendar_sync/calendar_client.py:58-60 | a naive date-time is sent as the same wall time at offset zero |
| `CalendarClient.WithFooter` | src/meetup_gmail_calendar_sync/calendar_client.py:65-67 | the description always ends up containing the footer, and one that already contains it is kept unchanged |
| `CalendarClient.WithFooterIdempotent` | src/meetup_gmail_calendar_sync/calendar_client.py:65-67 | re-applying the footer step changes nothing |
| `CalendarClient.WithFooterAppends` | src/meetup_gmail_calendar_sync/calendar_client.py:65-67 | otherwise the result is the left-stripped description, a blank line and the footer; a blank description gives the footer alone |
| `CalendarClient.BuildBody` | src/meetup_gmail_calendar_sync/calendar_client.py:64-84 | the body carries the event's summary and location, a description that is the event's own when it already has the footer, and otherwise the event's description without leading whitespace, a blank line and the footer (the footer alone for a blank description), start/end converted by `ToGoogleEventTime` (hence at the event's instants), private properties marking source and uid, and a Meetup source link exactly when the event has a URL |
| `GmailClient.PaddingLength` | src/meetup_gmail_calendar_sync/gmail_client.py:12 | at most three '=' and the padded length is a multiple of four |
| `GmailClient.PaddingMinimal` | src/meetup_gmail_calendar_sync/gmail_client.py:12 | no shorter padding reaches a multiple of four |
| `GmailClient.PadBase64Url` | src/meetup_gmail_calendar_sync/gmail_client.py:11-13 | the decoder receives the text followed only by '=' up to a multiple of four |
| `GmailClient.PadIdempotent` | src/meetup_gmail_calendar_sync/gmail_client.py:11-13 | padding padded text changes nothing |
| `GmailClient.PadAligned` | src/meetup_gmail_calendar_sync/gmail_client.py:12 | text already a multiple of four long is not padded |
| `GmailClient.PreOrder` | src/meetup_gmail_calendar_sync/gmail_client.py:16-19 | the walk starts with the part itself |
| `GmailClient.PreOrderSize` | src/meetup_gmail_calendar_sync/gmail_client.py:16-19 | the walk visits as many parts as the tree has nodes |
| `GmailClient.PreOrderMembers` | src/meetup_gmail_calendar_sync/gmail_client.py:16-19 | a part is walked exactly when it is the root or in a child's walk |
| `GmailClient.WalkParts` | src/meetup_gmail_calendar_sync/gmail_client.py:16-19 | an explicit-stack walk yields exactly the recursive pre-order walk |
| `GmailClient.ContainsCalendar` | src/meetup_gmail_calendar_sync/gmail_client.py:22-25 | a part is a calendar part exactly when its mime type is `text/calendar` or its file name ends in `.ics`, ignoring case; a part with neither field is not |
| `GmailClient.PdfIsNotCalendar` | src/meetup_gmail_calendar_sync/gmail_client.py:22-25 | a part of type `application/pdf` named `a.pdf` is not a calendar part, whatever its body and children |
| `GmailClient.ContainsCalendarIgnoresCase` | src/meetup_gmail_calendar_sync/gmail_client.py:22-25 | the calendar-part test does not depend on the case of mime type or file name |
| `GmailClient.MissingFieldsNoCalendar` | src/meetup_gmail_calendar_sync/gmail_client.py:22-25 | a part with neither mime type nor file name is not a calendar part |
| `GmailClient.PartPayload` | src/meetup_gmail_calendar_sync/gmail_client.py:42-60 | a calendar part gives a padded payload exactly when it has inline data, or an attachment id whose fetched data is non-empty; the payload is the padded inline data when there is any, and otherwise the padded fetched data |
| `GmailClient.InlineDataPreferred` | src/meetup_gmail_calendar_sync/gmail_client.py:46-48 | with inline data present the attachment store is never consulted |
| `GmailClient.PayloadsOf` | src/meetup_gmail_calendar_sync/gmail_client.py:38-62 | at most one payload per walked part, each of padded length |
| `GmailClient.PayloadsOfOne` | src/meetup_gmail_calendar_sync/gmail_client.py:38-62 | one part contributes its payload exactly when it is a calendar part that has one |
| `GmailClient.PayloadsOfAppend` | src/meetup_gmail_calendar_sync/gmail_client.py:38-62 | payloads come out in walk order |
| `GmailClient.SilentPartsContributeNothing` | src/meetup_gmail_calendar_sync/gmail_client.py:39-40 | non-calendar parts and calendar parts with nothing to offer add no payload |
| `GmailClient.LoadIcsPayloads` | src/meetup_gmail_calendar_sync/gmail_client.py:35-62 | a message yields no more payloads than its part tree has nodes |
| `GmailClient.LoadIcsPayloadsSplit` | src/meetup_gmail_calendar_sync/gmail_client.py:35-62 | the root's payload comes first, then its children's in order |
| `GmailClient.ParseMessageTs` | src/meetup_gmail_calendar_sync/gmail_client.py:28-32 | a missing or empty `internalDate` reads as "0"; the result fails exactly when `int()` rejects the text, is now for a count that is not positive, and is the count in microseconds otherwise |
| `GmailClient.MillisToMicros` | src/meetup_gmail_calendar_sync/gmail_client.py:30-32 | a count that is not positive means now; a positive count is that many milliseconds |
| `GmailClient.MessageTsRoundTrip` | src/meetup_gmail_calendar_sync/gmail_client.py:28-32 | a positive millisecond count in decimal is read back exactly |
| `GmailClient.Paginate` | src/meetup_gmail_calendar_sync/gmail_client.py:65-99 | no request once the budget is used; never more ids than the budget left; every request asks for 1 to 100 results |
| `GmailClient.ListMessages` | src/meetup_gmail_calendar_sync/gmail_client.py:65-99 | a budget of zero or less sends nothing; never more ids than the budget |
| `GmailClient.FirstRequest` | src/meetup_gmail_calendar_sync/gmail_client.py:66-80 | the first request has no page token and asks for min(100, budget) |
| `GmailClient.EmptyPageStops` | src/meetup_gmail_calendar_sync/gmail_client.py:82-84 | an empty first page ends the search with no ids |
| `GmailClient.LastPageStops` | src/meetup_gmail_calendar_sync/gmail_client.py:97-99 | a short first page without a next token is the whole result, after one request |
| `GmailClient.RequestsWithinBudget` | src/meetup_gmail_calendar_sync/gmail_client.py:76 | no request asks for more than the messages still wanted |
| `GmailClient.IterMessages` | src/meetup_gmail_calendar_sync/gmail_client.py:65-99 | the loop sends exactly the requests and yields exactly the ids of the paging definition |
| `GmailClient.SearchRound` | src/meetup_gmail_calendar_sync/gmail_client.py:69-99 | one round either finishes the trace or yields more ids and leaves the same trace to come |
| `GmailClient.TakeIds` | src/meetup_gmail_calendar_sync/gmail_client.py:86-95 | a page's ids are yielded in order up to the budget, and the count stops at the budget |
| `Auth.NonBlank` | src/meetup_gmail_calendar_sync/auth.py:40 | the kept list items are exactly the non-blank ones, unstripped |
| `Auth.NonBlankAppend` | src/meetup_gmail_calendar_sync/auth.py:40 | the kept items stay in input order |
| `Auth.NormalizeScopes` | src/meetup_gmail_calendar_sync/auth.py:36-41 | text gives its whitespace-separated tokens (`Words`, i.e. `split()`); a list keeps exactly its non-blank items, in order; anything else grants nothing |
| `Auth.ScopeTextSplit` | src/meetup_gmail_calendar_sync/auth.py:38 | any whitespace run separates scope text: the scopes of a + run + b are those of a followed by those of b |
| `Auth.ScopeListAppend` | src/meetup_gmail_calendar_sync/auth.py:39-40 | a scope list is normalised item by item: the scopes of a + b are those of a followed by those of b |
| `Auth.NormalizeIdempotent` | src/meetup_gmail_calendar_sync/auth.py:87 | normalising normalised scopes again changes nothing |
| `Auth.ScopeTextRoundTrip` | src/meetup_gmail_calendar_sync/auth.py:37-38 | space-separated scope text is read back as the original scopes |
| `Auth.ScopeNamesDistinct` | src/meetup_gmail_calendar_sync/config.py:12-14 | the three scope URLs differ |
| `Auth.ScopeSatisfied` | src/meetup_gmail_calendar_sync/auth.py:44-50 | a scope granted literally is satisfied; the only other way is Gmail read through Gmail modify |
| `Auth.ModifySatisfiesRead` | src/meetup_gmail_calendar_sync/auth.py:44-50 | Gmail modify satisfies Gmail read, not the other way round |
| `Auth.OnlyImplication` | src/meetup_gmail_calendar_sync/auth.py:44-50 | apart from that pair, a granted scope satisfies only itself |
| `Auth.SatisfiedMonotone` | src/meetup_gmail_calendar_sync/auth.py:44-50 | granting more scopes never unsatisfies one |
| `Auth.MissingScopes` | src/meetup_gmail_calendar_sync/auth.py:89 | the missing list holds exactly the required scopes not satisfied, and is empty exactly when all are satisfied |
| `Auth.MissingScopesAppend` | src/meetup_gmail_calendar_sync/auth.py:89 | missing scopes keep the required order |
| `Auth.CheckScopes` | src/meetup_gmail_calendar_sync/auth.py:87-94 | the check fails exactly when some required scope is unsatisfied, and its error lists exactly the unsatisfied required scopes in order; otherwise it passes with the normalised grant |
| `Auth.CheckPasses` | src/meetup_gmail_calendar_sync/auth.py:87-94 | a grant satisfying every required scope passes |
| `Auth.ModifyGrantPassesSync` | src/meetup_gmail_calendar_sync/sync.py:36-37 | a token whose scope list names the calendar and Gmail modify scopes passes the sync run's check, which asks for Gmail read |
| `Sync.Decide` | src/meetup_gmail_calendar_sync/sync.py:107-153 | cancelled events delete a live entry and are otherwise skipped; others patch the found entry or import under their uid; a dry run sends nothing and counts a cancelled event deleted whenever any entry exists |
| `Sync.DryRunPredicts` | src/meetup_gmail_calendar_sync/sync.py:110-139 | dry and real outcomes agree except exactly for a cancelled event whose entry is already cancelled |
| `Sync.MutationTargets` | src/meetup_gmail_calendar_sync/sync.py:119-153 | a real run only deletes or patches the entry found, and imports only under the event's own uid |
| `Sync.Reconcile` | src/meetup_gmail_calendar_sync/sync.py:107-153 | each event moves exactly one counter; other counters are untouched; a dry run sends no change, a real run sends each event's own change in loop order |
| `Sync.ReconcileCounts` | src/meetup_gmail_calendar_sync/sync.py:107-153 | each counter grows by exactly the number of events decided its way |
| `Sync.MutationsCount` | src/meetup_gmail_calendar_sync/sync.py:107-153 | a real run sends exactly one change for every event it does not skip |
| `Sync.DryRunCounts` | src/meetup_gmail_calendar_sync/sync.py:110-139 | over the same events and calendar a dry run's created and updated match a real run's, and the stale cancellations move from skipped to deleted |
| `Sync.DryRunStep` | src/meetup_gmail_calendar_sync/sync.py:110-128 | per event: equal outcomes, or dry deleted versus real skipped for a stale cancellation |
| `Sync.Eligible` | src/meetup_gmail_calendar_sync/sync.py:97 | the filter keeps exactly the not-too-old events, drawn from the input |
| `Sync.EligibleAppend` | src/meetup_gmail_calendar_sync/sync.py:97 | the filter keeps or drops each event on its own: filtering a + b gives the kept events of a followed by those of b |
| `Sync.SortByStart` | src/meetup_gmail_calendar_sync/sync.py:98 | the sort is a permutation ordered by start instant |
| `Sync.SortByStartStable` | src/meetup_gmail_calendar_sync/sync.py:98 | events with equal start keep their relative order |
| `Sync.Plan` | src/meetup_gmail_calendar_sync/sync.py:96-98 | the visited events are ordered by start and no more than the deduplicated ones |
| `Sync.PlanMembers` | src/meetup_gmail_calendar_sync/sync.py:96-98 | an event is visited exactly when it is its uid's kept revision and not too old |
| `Sync.PlanUidsDistinct` | src/meetup_gmail_calendar_sync/sync.py:96-108 | no uid is visited twice |
| `Sync.SyncEvents` | src/meetup_gmail_calendar_sync/sync.py:96-153 | parsed, deduped and processed count the collected, deduplicated and visited events (parsed ≥ deduped ≥ processed); created, updated, deleted and skipped count exactly the visited events decided each way; a real run sends exactly each visited event's own change, in visiting order; a dry run sends nothing |
| `Sync.DryRunReport` | src/meetup_gmail_calendar_sync/sync.py:100-153 | a dry run's counters equal the real run's except the stale cancellations, counted deleted instead of skipped |
| `Sync.AttachmentEvents` | src/meetup_gmail_calendar_sync/sync.py:58-62 | an attachment's events are those the parser yields for its decoded blocks, each well formed and carrying the message time; an attachment the library rejects or that fails to parse yields none |
| `Sync.PayloadEvents` | src/meetup_gmail_calendar_sync/sync.py:58-62 | a message's attachment events are well formed and carry the message time |
| `Sync.PayloadEventsAppend` | src/meetup_gmail_calendar_sync/sync.py:58-62 | attachments contribute in order |
| `Sync.FailedAttachmentSkipped` | src/meetup_gmail_calendar_sync/sync.py:58-62 | an attachment that fails to parse is passed over and the others' events are kept in order |
| `Sync.MessageEvents` | src/meetup_gmail_calendar_sync/sync.py:49-62 | a message fails exactly when its timestamp cannot be read; otherwise its events are those of its calendar payloads, in part order, each carrying that timestamp |
| `Sync.CollectEvents` | src/meetup_gmail_calendar_sync/sync.py:40-64 | collection fails exactly when some message's timestamp cannot be read; collected events are well formed |
| `Sync.CollectEventsAppend` | src/meetup_gmail_calendar_sync/sync.py:40-64 | messages contribute in order and the first unreadable timestamp decides the error |
| `Sync.RunSync` | src/meetup_gmail_calendar_sync/sync.py:67-155 | the run fails exactly when collection does; otherwise parsed ≥ deduped ≥ processed, each of created, updated, deleted and skipped counts exactly the visited collected events decided that way, a real run sends each visited event's own change in order, a dry run sends nothing, and a non-positive message budget parses nothing |
| `Sync.RunSyncDryRun` | src/meetup_gmail_calendar_sync/sync.py:90-155 | over the same mailbox and calendar a dry run fails exactly when the real run does, and otherwise differs only by the stale cancellations |

## Left out

- Gmail and Google Calendar I/O. These become parameters:
  - message search and fetch (`search`, `getMessage`);
  - attachment fetch (`fetch`);
  - the existing-entry lookup (`lookup`).

  `ensure_calendar`, HTTP errors and the execution of the returned mutations are
  not modelled.
- The calendar library. `Calendar.from_ical` and `walk("VEVENT")` are the
  `decode` parameter. Its typed property values are baked into the `VEvent`
  record.
- Base64 decoding itself. Only the padding is modelled. `urlsafe_b64decode`
  discards ASCII characters outside the alphabet; it raises only for non-ASCII
  text, for a count of alphabet characters of the form 4k+1, or for misplaced
  padding. Such a raise happens outside the `try` of `collect_events` and
  would abort the run. The model lets `decode` reject such text, so that
  attachment is skipped instead.
- Clock. One `now` serves the whole run. The source reads the clock separately
  in `parse_message_ts` and in each `event_not_too_old` call.
- Named time zones. Only fixed UTC offsets are modelled; DST arithmetic for
  named zones is not. The ISO text of `isoformat()` is not modelled either.
- Python `str` details:
  - `upper`/`lower` map ASCII letters only;
  - `int()` accepts no underscores and no non-ASCII digits;
  - `str()` of a non-string scope list item is taken to be the item's text.
- GmailClient.ParseMessageTs: the float division `internal_date_ms / 1000.0` is
  modelled as exact millisecond-to-microsecond scaling. The rounding of very
  large counts is not modelled.
- Credentials. The model does not cover:
  - `parse_token_file` and the field selection of `_authorized_user_info`;
  - credential validity and refresh;
  - `run_oauth_and_store_token`.

  `RunSync` starts after the credential check, which `Auth.CheckScopes`
  models on its own.
- Out of scope entirely: `cli.py`, configuration paths, and verbose and
  warning printing.
- A dry run does not report exactly the counters a real run would. It counts a
  cancelled event whose existing entry is already cancelled as deleted, where a
  real run counts it as skipped. `Sync.DryRunReport` states the difference.
- A whole-day event that ends on the cutoff's date is not always eligible. It is
  eligible only when the cutoff falls at 00:00 UTC
  (`CalendarClient.DateEndAtCutoffDay`).
- Python's `datetime` range (years 1 to 9999). Instants and days are unbounded
  integers here, so no arithmetic ever overflows. In the program:
  - a `timedelta` overflow while filling in a default end raises inside
    `parse_ics_bytes`, and that attachment is skipped;
  - an `internalDate` beyond the range makes `fromtimestamp` raise, which
    aborts the run;
  - a look-back large enough to reach before year 1 makes `event_not_too_old`
    raise.

## Findings

| source | as written | input that shows it | evidently intended | confidence | as-written member | corrected member |
|---|---|---|---|---|---|---|
| src/meetup_gmail_calendar_sync/ics_parser.py:13 | the raw pattern `r"https?://\\S+"` requires a literal backslash followed by letters `S` after the scheme, so no ordinary link is ever found and `meetup_url` is always "" | description `https://www.meetup.com/x/events/1` yields "" | `https?://\S+`: a scheme followed by a run of non-whitespace, yielding the whole link | high; not executed | `IcsParser.MeetupLinkMissedAsWritten` | `IcsParser.IntendedFindsUrl` |

The pattern is a parameter of the run: `rule` in `Sync.AttachmentEvents` and
everything above it, up to `Sync.RunSync`. `IcsParser.AsWritten` gives the
program as it stands; `IcsParser.Intended` gives the corrected behaviour.
