/**
 * The pure logic of the Gmail side: padding base64url text, walking a
 * message's MIME part tree, choosing the calendar attachments, paging through
 * a search and reading a message's timestamp. The Gmail API itself appears
 * only as function parameters standing for its answers.
 */
module GmailClient {
  import opened Base
  import opened Text

  // ---------------------------------------------------------------- base64url padding

  /** How many '=' characters `decode_base64url` appends to text of length `n`. */
  function PaddingLength(n: nat): (k: nat)
    ensures k <= 3 && (n + k) % 4 == 0
  {
    (4 - n % 4) % 4
  }

  /** No shorter padding would do. */
  lemma PaddingMinimal(n: nat, j: nat)
    requires j < PaddingLength(n)
    ensures (n + j) % 4 != 0
  {
  }

  /**
   * The padded text `decode_base64url` hands to the decoder (section 5 of
   * RFC 4648 allows the padding to be dropped; the decoder needs it back).
   */
  function PadBase64Url(value: string): (r: string)
    ensures |r| % 4 == 0 && |value| <= |r| <= |value| + 3
    ensures r[..|value|] == value
    ensures forall i :: |value| <= i < |r| ==> r[i] == '='
  {
    value + seq(PaddingLength(|value|), _ => '=')
  }

  /** The padding is the shortest that reaches a multiple of four: already padded text is left alone. */
  lemma PadIdempotent(value: string)
    ensures PadBase64Url(PadBase64Url(value)) == PadBase64Url(value)
  {
  }

  /** Text whose length is a multiple of four gets no padding at all. */
  lemma PadAligned(value: string)
    requires |value| % 4 == 0
    ensures PadBase64Url(value) == value
  {
  }

  // ---------------------------------------------------------------- the part tree

  /** The `body` of a MIME part: inline base64url `data`, or the id of an attachment to fetch. */
  datatype PartBody = PartBody(data: Option<string>, attachmentId: Option<string>)

  /**
   * One node of a Gmail message payload: its `mimeType`, `filename` and `body`,
   * each possibly missing, and its child `parts` (missing read as none).
   */
  datatype Part = Part(mimeType: Option<string>, filename: Option<string>, body: Option<PartBody>, parts: seq<Part>)

  /** `iter_payload_parts`: the part itself, then each child's walk in order. */
  function PreOrder(p: Part): (r: seq<Part>)
    ensures |r| >= 1 && r[0] == p
    decreases p, 1
  {
    [p] + PreOrderAll(p.parts)
  }

  /** The walks of a list of sibling parts, one after another. */
  function PreOrderAll(ps: seq<Part>): seq<Part>
    decreases ps, 0
  {
    if ps == [] then [] else PreOrder(ps[0]) + PreOrderAll(ps[1..])
  }

  /** The number of nodes of a part tree. */
  function Size(p: Part): nat
    decreases p, 1
  {
    1 + SizeAll(p.parts)
  }

  function SizeAll(ps: seq<Part>): nat
    decreases ps, 0
  {
    if ps == [] then 0 else Size(ps[0]) + SizeAll(ps[1..])
  }

  lemma {:induction false} SizeAllAppend(a: seq<Part>, b: seq<Part>)
    ensures SizeAll(a + b) == SizeAll(a) + SizeAll(b)
    decreases |a|
  {
    if a != [] {
      assert (a + b)[1..] == a[1..] + b;
      SizeAllAppend(a[1..], b);
    } else {
      assert a + b == b;
    }
  }

  lemma {:induction false} PreOrderAllAppend(a: seq<Part>, b: seq<Part>)
    ensures PreOrderAll(a + b) == PreOrderAll(a) + PreOrderAll(b)
    decreases |a|
  {
    if a != [] {
      assert (a + b)[1..] == a[1..] + b;
      PreOrderAllAppend(a[1..], b);
    } else {
      assert a + b == b;
    }
  }

  /** The walk yields every node once: as many parts as the tree has nodes. */
  lemma {:induction false} PreOrderSize(p: Part)
    ensures |PreOrder(p)| == Size(p)
    decreases p, 1
  {
    PreOrderAllSize(p.parts);
  }

  lemma {:induction false} PreOrderAllSize(ps: seq<Part>)
    ensures |PreOrderAll(ps)| == SizeAll(ps)
    decreases ps, 0
  {
    if ps != [] {
      PreOrderSize(ps[0]);
      PreOrderAllSize(ps[1..]);
    }
  }

  /** A part is walked exactly when it is the root or lies in the walk of one of the root's children. */
  lemma PreOrderMembers(p: Part, q: Part)
    ensures q in PreOrder(p) <==> q == p || exists i :: 0 <= i < |p.parts| && q in PreOrder(p.parts[i])
  {
    PreOrderAllMembers(p.parts, q);
  }

  lemma {:induction false} PreOrderAllMembers(ps: seq<Part>, q: Part)
    ensures q in PreOrderAll(ps) <==> exists i :: 0 <= i < |ps| && q in PreOrder(ps[i])
    decreases |ps|
  {
    if ps != [] {
      PreOrderAllMembers(ps[1..], q);
      if q in PreOrderAll(ps[1..]) {
        var i :| 0 <= i < |ps[1..]| && q in PreOrder(ps[1..][i]);
        assert q in PreOrder(ps[i + 1]);
      }
      if exists i :: 0 <= i < |ps| && q in PreOrder(ps[i]) {
        var i :| 0 <= i < |ps| && q in PreOrder(ps[i]);
        if i > 0 {
          assert ps[1..][i - 1] == ps[i];
        }
      }
    }
  }

  /**
   * The same walk with an explicit stack of parts still to visit, top first:
   * visiting a part pushes its children in order.
   */
  method WalkParts(p: Part) returns (walk: seq<Part>)
    ensures walk == PreOrder(p)
  {
    walk := [];
    var stack := [p];
    assert PreOrderAll(stack) == PreOrder(p) + PreOrderAll([]);
    while stack != []
      invariant walk + PreOrderAll(stack) == PreOrder(p)
      decreases SizeAll(stack)
    {
      var top := stack[0];
      assert stack == [top] + stack[1..];
      PreOrderAllAppend(top.parts, stack[1..]);
      SizeAllAppend(top.parts, stack[1..]);
      assert SizeAll(stack) == 1 + SizeAll(top.parts) + SizeAll(stack[1..]);
      walk := walk + [top];
      stack := top.parts + stack[1..];
    }
  }

  // ---------------------------------------------------------------- calendar parts

  /** Python's `field or ""`: a missing field reads as the empty string. */
  function FieldText(field: Option<string>): string {
    field.GetOr("")
  }

  const CalendarMimeType: string := "text/calendar"
  const CalendarExtension: string := ".ics"

  /**
   * `part_contains_calendar`: a `text/calendar` part, or a file named `*.ics`,
   * ignoring case, and no other part.
   */
  predicate ContainsCalendar(p: Part): (r: bool)
    ensures FieldText(p.mimeType) == CalendarMimeType ==> r
    ensures EndsWith(FieldText(p.filename), CalendarExtension) ==> r
    ensures p.mimeType.None? && p.filename.None? ==> !r
    ensures Lower(FieldText(p.mimeType)) != CalendarMimeType && !EndsWith(Lower(FieldText(p.filename)), CalendarExtension) ==> !r
  {
    LowerCaseNames(p);
    Lower(FieldText(p.mimeType)) == CalendarMimeType || EndsWith(Lower(FieldText(p.filename)), CalendarExtension)
  }

  /** The names looked for are already lower case, so lower-casing keeps them. */
  lemma LowerCaseNames(p: Part)
    ensures FieldText(p.mimeType) == CalendarMimeType ==> Lower(FieldText(p.mimeType)) == CalendarMimeType
    ensures EndsWith(FieldText(p.filename), CalendarExtension) ==> EndsWith(Lower(FieldText(p.filename)), CalendarExtension)
  {
    LowerOfLowerCase(CalendarMimeType);
    if EndsWith(FieldText(p.filename), CalendarExtension) {
      LowerKeepsSuffix(FieldText(p.filename), CalendarExtension);
    }
  }

  /** A PDF attachment is not a calendar part. */
  lemma PdfIsNotCalendar(body: Option<PartBody>, parts: seq<Part>)
    ensures !ContainsCalendar(Part(Some("application/pdf"), Some("a.pdf"), body, parts))
  {
    var name := "a.pdf";
    LowerOfLowerCase(name);
    assert Lower(name)[1..] != CalendarExtension by {
      assert Lower(name)[2] == 'p';
    }
    assert |Lower("application/pdf")| != |CalendarMimeType|;
  }

  /** The test ignores case: upper-casing the mime type and file name does not change it. */
  lemma ContainsCalendarIgnoresCase(p: Part)
    ensures ContainsCalendar(p) <==> ContainsCalendar(p.(mimeType := Some(Upper(FieldText(p.mimeType))), filename := Some(Upper(FieldText(p.filename)))))
  {
    LowerOfUpper(FieldText(p.mimeType));
    LowerOfUpper(FieldText(p.filename));
  }

  /** Parts with neither field are never calendar parts. */
  lemma MissingFieldsNoCalendar(p: Part)
    requires p.mimeType.None? && p.filename.None?
    ensures !ContainsCalendar(p)
  {
  }

  // ---------------------------------------------------------------- payload selection

  /** Python's `if value:` on an optional string. */
  predicate Present(value: Option<string>) {
    value.Some? && value.value != ""
  }

  /**
   * The payload one calendar part contributes: its inline data when present;
   * otherwise the data of its attachment, fetched by id through `fetch`, when
   * it has one and that data is present; otherwise nothing. The result is the
   * padded text the base64 decoder receives.
   */
  function PartPayload(p: Part, fetch: string -> Option<string>): (r: Option<string>)
    ensures r.Some? ==> |r.value| % 4 == 0
    ensures r.Some? <==> (var b := p.body.GetOr(PartBody(None, None)); Present(b.data) || (Present(b.attachmentId) && Present(fetch(b.attachmentId.value))))
    ensures var b := p.body.GetOr(PartBody(None, None));
      Present(b.data) ==> r == Some(PadBase64Url(b.data.value))
    ensures var b := p.body.GetOr(PartBody(None, None));
      !Present(b.data) && Present(b.attachmentId) && Present(fetch(b.attachmentId.value)) ==>
        r == Some(PadBase64Url(fetch(b.attachmentId.value).value))
  {
    var b := p.body.GetOr(PartBody(None, None));
    if Present(b.data) then Some(PadBase64Url(b.data.value))
    else if Present(b.attachmentId) then
      var a := fetch(b.attachmentId.value);
      if Present(a) then Some(PadBase64Url(a.value)) else None
    else None
  }

  /** Inline data wins: with data present, whatever the attachment store holds is never consulted. */
  lemma InlineDataPreferred(p: Part, fetch1: string -> Option<string>, fetch2: string -> Option<string>)
    requires p.body.Some? && Present(p.body.value.data)
    ensures PartPayload(p, fetch1) == PartPayload(p, fetch2) == Some(PadBase64Url(p.body.value.data.value))
  {
  }

  /** The payloads of a walk: each calendar part's payload, in walk order. */
  function PayloadsOf(parts: seq<Part>, fetch: string -> Option<string>): (r: seq<string>)
    ensures |r| <= |parts|
    ensures forall i :: 0 <= i < |r| ==> |r[i]| % 4 == 0
    decreases |parts|
  {
    if parts == [] then []
    else
      var here := if ContainsCalendar(parts[0]) then PartPayload(parts[0], fetch) else None;
      (if here.Some? then [here.value] else []) + PayloadsOf(parts[1..], fetch)
  }

  /** A single part contributes its payload exactly when it is a calendar part that has one. */
  lemma PayloadsOfOne(p: Part, fetch: string -> Option<string>)
    ensures PayloadsOf([p], fetch) ==
      if ContainsCalendar(p) && PartPayload(p, fetch).Some? then [PartPayload(p, fetch).value] else []
  {
    assert [p][1..] == [];
    assert [p][0] == p;
    if ContainsCalendar(p) && PartPayload(p, fetch).Some? {
      assert [PartPayload(p, fetch).value] + [] == [PartPayload(p, fetch).value];
    }
  }

  /** Payloads keep walk order: those of a split walk are the two halves' payloads, in order. */
  lemma {:induction false} PayloadsOfAppend(a: seq<Part>, b: seq<Part>, fetch: string -> Option<string>)
    ensures PayloadsOf(a + b, fetch) == PayloadsOf(a, fetch) + PayloadsOf(b, fetch)
    decreases |a|
  {
    if a != [] {
      assert (a + b)[1..] == a[1..] + b;
      PayloadsOfAppend(a[1..], b, fetch);
    } else {
      assert a + b == b;
    }
  }

  /** Parts that are not calendar parts, or calendar parts with nothing to offer, contribute nothing. */
  lemma {:induction false} SilentPartsContributeNothing(parts: seq<Part>, fetch: string -> Option<string>)
    requires forall i :: 0 <= i < |parts| ==> !ContainsCalendar(parts[i]) || PartPayload(parts[i], fetch).None?
    ensures PayloadsOf(parts, fetch) == []
    decreases |parts|
  {
    if parts != [] {
      SilentPartsContributeNothing(parts[1..], fetch);
    }
  }

  /** `load_ics_payloads`: the payloads of the calendar parts of the whole tree, in walk order. */
  function LoadIcsPayloads(payload: Part, fetch: string -> Option<string>): (r: seq<string>)
    ensures |r| <= Size(payload)
  {
    PreOrderSize(payload);
    PayloadsOf(PreOrder(payload), fetch)
  }

  /** The root's own payload, if any, comes first, followed by its children's in order. */
  lemma LoadIcsPayloadsSplit(payload: Part, fetch: string -> Option<string>)
    ensures LoadIcsPayloads(payload, fetch) == PayloadsOf([payload], fetch) + PayloadsOf(PreOrderAll(payload.parts), fetch)
  {
    PayloadsOfAppend([payload], PreOrderAll(payload.parts), fetch);
  }

  // ---------------------------------------------------------------- message timestamps

  /** `int()` rejected the `internalDate` text, so the run stops with an error. */
  datatype TimestampError = BadInternalDate(text: string)

  /**
   * `parse_message_ts`: `internalDate` is milliseconds since the epoch, as
   * text; a missing or empty value reads as "0", and a value that is not
   * positive gives the current time `now`.
   */
  function ParseMessageTs(internalDate: Option<string>, now: int): (r: Result<int, TimestampError>)
    ensures r.Ok? ==> r.value == now || (r.value > 0 && r.value % 1000 == 0)
    ensures !Present(internalDate) ==> r == Ok(now)
    ensures var n := ParseInt(InternalDateText(internalDate));
      && (r.Err? <==> n.None?)
      && (r.Err? ==> r.error == BadInternalDate(InternalDateText(internalDate)))
      && (n.Some? && n.value <= 0 ==> r == Ok(now))
      && (n.Some? && n.value > 0 ==> r == Ok(n.value * 1000))
  {
    var text := InternalDateText(internalDate);
    ZeroText();
    match ParseInt(text)
    case None => Err(BadInternalDate(text))
    case Some(ms) => Ok(MillisToMicros(ms, now))
  }

  /** The text `int()` is applied to: the value when present, "0" otherwise. */
  function InternalDateText(internalDate: Option<string>): string {
    if Present(internalDate) then internalDate.value else "0"
  }

  lemma ZeroText()
    ensures ParseInt("0") == Some(0)
  {
    DecimalRoundTrip(0);
  }

  /** A millisecond count as an instant; a count that is not positive means "now". */
  function MillisToMicros(ms: int, now: int): (t: int)
    ensures t == now || (t > 0 && t % 1000 == 0)
    ensures ms <= 0 ==> t == now
    ensures ms > 0 ==> t == ms * 1000
  {
    if ms <= 0 then now else ms * 1000
  }

  /** A positive millisecond count written in decimal is read back exactly, in microseconds. */
  lemma MessageTsRoundTrip(ms: nat, now: int)
    requires ms > 0
    ensures ParseMessageTs(Some(DecimalText(ms)), now) == Ok(ms * 1000)
  {
    DecimalRoundTrip(ms);
  }

  // ---------------------------------------------------------------- paging

  /** One answer of the message search: message ids and the token of the next page, if any. */
  datatype Page = Page(messages: seq<string>, nextPageToken: Option<string>)

  /** One search request: how many results to ask for, and which page. */
  datatype Request = Request(maxResults: int, pageToken: Option<string>)

  /** What `iter_messages` does: the requests it sends and the message ids it yields, in order. */
  datatype Trace = Trace(requests: seq<Request>, ids: seq<string>)

  const PageLimit: int := 100

  function Min(a: int, b: int): int {
    if a <= b then a else b
  }

  /** Whether the loop goes on to another page after one that was used up. */
  predicate HasNext(page: Page) {
    Present(page.nextPageToken)
  }

  /**
   * `iter_messages` from the point where `seen` messages have been yielded and
   * the next request carries `token`; `search` answers each request.
   */
  function Paginate(search: Request -> Page, maxMessages: int, seen: int, token: Option<string>): (t: Trace)
    ensures seen >= maxMessages ==> t == Trace([], [])
    ensures seen < maxMessages ==> |t.ids| <= maxMessages - seen
    ensures forall i :: 0 <= i < |t.requests| ==> 1 <= t.requests[i].maxResults <= PageLimit
    decreases maxMessages - seen
  {
    if seen >= maxMessages then Trace([], [])
    else
      var request := Request(Min(PageLimit, maxMessages - seen), token);
      var page := search(request);
      if page.messages == [] then Trace([request], [])
      else if |page.messages| >= maxMessages - seen then Trace([request], page.messages[..maxMessages - seen])
      else if !HasNext(page) then Trace([request], page.messages)
      else
        var rest := Paginate(search, maxMessages, seen + |page.messages|, page.nextPageToken);
        Trace([request] + rest.requests, page.messages + rest.ids)
  }

  /** The whole search: nothing seen yet, no page token. */
  function ListMessages(search: Request -> Page, maxMessages: int): (t: Trace)
    ensures maxMessages <= 0 ==> t == Trace([], [])
    ensures |t.ids| <= if maxMessages <= 0 then 0 else maxMessages
  {
    Paginate(search, maxMessages, 0, None)
  }

  /** The first request asks for the first page, for at most a hundred results. */
  lemma FirstRequest(search: Request -> Page, maxMessages: int)
    requires maxMessages > 0
    ensures ListMessages(search, maxMessages).requests[0] == Request(Min(PageLimit, maxMessages), None)
  {
  }

  /** An empty first page ends the search at once. */
  lemma EmptyPageStops(search: Request -> Page, maxMessages: int)
    requires maxMessages > 0 && search(Request(Min(PageLimit, maxMessages), None)).messages == []
    ensures ListMessages(search, maxMessages) == Trace([Request(Min(PageLimit, maxMessages), None)], [])
  {
  }

  /** A short first page without a next-page token is the whole result. */
  lemma LastPageStops(search: Request -> Page, maxMessages: int)
    requires maxMessages > 0
    requires var page := search(Request(Min(PageLimit, maxMessages), None));
      |page.messages| < maxMessages && !HasNext(page)
    ensures ListMessages(search, maxMessages).ids == search(Request(Min(PageLimit, maxMessages), None)).messages
    ensures |ListMessages(search, maxMessages).requests| == 1
  {
  }

  /** Every request asks for no more than the messages still wanted. */
  lemma {:induction false} RequestsWithinBudget(search: Request -> Page, maxMessages: int, seen: int, token: Option<string>)
    ensures forall i :: 0 <= i < |Paginate(search, maxMessages, seen, token).requests| ==>
      Paginate(search, maxMessages, seen, token).requests[i].maxResults <= maxMessages - seen
    decreases maxMessages - seen
  {
    if seen < maxMessages {
      var request := Request(Min(PageLimit, maxMessages - seen), token);
      var page := search(request);
      if page.messages != [] && |page.messages| < maxMessages - seen && HasNext(page) {
        RequestsWithinBudget(search, maxMessages, seen + |page.messages|, page.nextPageToken);
      }
    }
  }

  /**
   * The loop of `iter_messages` itself: ask for a page, yield its ids one at a
   * time until the budget is reached, and continue while there is a next
   * page token.
   */
  method IterMessages(search: Request -> Page, maxMessages: int) returns (requests: seq<Request>, ids: seq<string>)
    ensures Trace(requests, ids) == ListMessages(search, maxMessages)
    ensures |ids| <= if maxMessages <= 0 then 0 else maxMessages
    ensures forall i :: 0 <= i < |requests| ==> 1 <= requests[i].maxResults <= PageLimit
  {
    requests, ids := [], [];
    var token: Option<string> := None;
    var done := false;
    while !done && |ids| < maxMessages
      invariant done ==> Trace(requests, ids) == ListMessages(search, maxMessages)
      invariant !done ==> ListMessages(search, maxMessages) == Then(requests, ids, Paginate(search, maxMessages, |ids|, token))
      decreases maxMessages - |ids|, if done then 0 else 1
    {
      requests, ids, token, done := SearchRound(search, maxMessages, requests, ids, token);
    }
  }

  /**
   * One round of the search loop: request a page, take its ids, and either
   * finish or carry on with the page's next token.
   */
  method SearchRound(search: Request -> Page, maxMessages: int, requests: seq<Request>, ids: seq<string>, token: Option<string>)
    returns (requests': seq<Request>, ids': seq<string>, token': Option<string>, done: bool)
    requires |ids| < maxMessages
    ensures done ==> Then(requests, ids, Paginate(search, maxMessages, |ids|, token)) == Trace(requests', ids')
    ensures !done ==> |ids'| > |ids|
    ensures !done ==> Then(requests, ids, Paginate(search, maxMessages, |ids|, token)) == Then(requests', ids', Paginate(search, maxMessages, |ids'|, token'))
  {
    var request := Request(Min(PageLimit, maxMessages - |ids|), token);
    var page := search(request);
    PaginateStep(search, maxMessages, |ids|, token);
    ghost var t := Paginate(search, maxMessages, |ids|, token);
    requests' := requests + [request];
    token' := token;
    if page.messages == [] {
      ids' := ids;
      done := true;
      ThenJoin(requests, ids, [request], []);
    } else {
      var seen;
      ids', seen := TakeIds(ids, page.messages, maxMessages);
      if seen >= maxMessages || !HasNext(page) {
        assert t == Trace([request], ids'[|ids|..]);
        ThenJoin(requests, ids, [request], ids'[|ids|..]);
        done := true;
      } else {
        token' := page.nextPageToken;
        done := false;
        ThenAssoc(requests, ids, [request], page.messages, Paginate(search, maxMessages, |ids'|, token'));
      }
    }
  }

  lemma ThenJoin(r0: seq<Request>, i0: seq<string>, r1: seq<Request>, i1: seq<string>)
    ensures Then(r0, i0, Trace(r1, i1)) == Trace(r0 + r1, i0 + i1)
  {
  }

  lemma ThenAssoc(r0: seq<Request>, i0: seq<string>, r1: seq<Request>, i1: seq<string>, rest: Trace)
    ensures Then(r0, i0, Then(r1, i1, rest)) == Then(r0 + r1, i0 + i1, rest)
  {
    assert r0 + (r1 + rest.requests) == r0 + r1 + rest.requests;
    assert i0 + (i1 + rest.ids) == i0 + i1 + rest.ids;
  }

  /** One round of the search loop: the first request, then the rest of the trace after its page. */
  lemma PaginateStep(search: Request -> Page, maxMessages: int, seen: int, token: Option<string>)
    requires seen < maxMessages
    ensures var request := Request(Min(PageLimit, maxMessages - seen), token);
      var page := search(request);
      var t := Paginate(search, maxMessages, seen, token);
      && (page.messages == [] ==> t == Trace([request], []))
      && (page.messages != [] && |page.messages| >= maxMessages - seen ==> t == Trace([request], page.messages[..maxMessages - seen]))
      && (page.messages != [] && |page.messages| < maxMessages - seen && !HasNext(page) ==> t == Trace([request], page.messages))
      && (page.messages != [] && |page.messages| < maxMessages - seen && HasNext(page) ==>
            t == Then([request], page.messages, Paginate(search, maxMessages, seen + |page.messages|, page.nextPageToken)))
  {
  }

  /**
   * The inner loop of `iter_messages`: yield the ids of one page in order,
   * stopping as soon as `maxMessages` have been yielded in all.
   */
  method TakeIds(ids: seq<string>, messages: seq<string>, maxMessages: int) returns (out: seq<string>, seen: int)
    requires |ids| < maxMessages
    ensures seen == |out| <= maxMessages
    ensures |messages| >= maxMessages - |ids| ==> out == ids + messages[..maxMessages - |ids|] && seen == maxMessages
    ensures |messages| < maxMessages - |ids| ==> out == ids + messages && seen < maxMessages
  {
    out, seen := ids, |ids|;
    var k := 0;
    while k < |messages| && seen < maxMessages
      invariant 0 <= k <= |messages|
      invariant seen == |out| == |ids| + k <= maxMessages
      invariant out == ids + messages[..k]
      decreases |messages| - k
    {
      out := out + [messages[k]];
      seen := seen + 1;
      k := k + 1;
    }
    assert k == |messages| ==> messages[..k] == messages;
  }

  /** The trace that continues with `rest` after `requests` and `ids`. */
  function Then(requests: seq<Request>, ids: seq<string>, rest: Trace): Trace {
    Trace(requests + rest.requests, ids + rest.ids)
  }
}
