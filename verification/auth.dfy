/**
 * The scope check made before any Google API is used: the token's granted
 * scopes are normalised, and every required scope must be granted, either
 * literally or, for Gmail read access, through the broader modify scope.
 */
module Auth {
  import opened Base
  import opened Text
  import opened Config

  /**
   * The `scope`/`scopes` value of a stored token: one space-separated string,
   * a list (each item given by its `str()` rendering), or anything else.
   */
  datatype RawScopes = ScopeText(text: string) | ScopeList(items: seq<string>) | OtherValue

  /** The list items `normalize_scopes` keeps: those that are not blank, in order and unstripped. */
  function NonBlank(items: seq<string>): (r: seq<string>)
    ensures |r| <= |items|
    ensures forall i :: 0 <= i < |r| ==> Strip(r[i]) != ""
    ensures forall x :: x in r <==> x in items && Strip(x) != ""
  {
    if items == [] then []
    else (if Strip(items[0]) != "" then [items[0]] else []) + NonBlank(items[1..])
  }

  /** Filtering a list piecewise is filtering it whole: the kept items stay in input order. */
  lemma {:induction false} NonBlankAppend(a: seq<string>, b: seq<string>)
    ensures NonBlank(a + b) == NonBlank(a) + NonBlank(b)
    decreases |a|
  {
    if a != [] {
      assert (a + b)[1..] == a[1..] + b;
      NonBlankAppend(a[1..], b);
    } else {
      assert a + b == b;
    }
  }

  /** A list with no blank item is kept whole. */
  lemma {:induction false} NonBlankKeepsAll(items: seq<string>)
    requires forall i :: 0 <= i < |items| ==> Strip(items[i]) != ""
    ensures NonBlank(items) == items
    decreases |items|
  {
    if items != [] {
      NonBlankKeepsAll(items[1..]);
    }
  }

  /**
   * `normalize_scopes`: a string gives its `split()` tokens; a list keeps its
   * non-blank items, in order; anything else grants nothing.
   */
  function NormalizeScopes(raw: RawScopes): (r: seq<string>)
    ensures forall i :: 0 <= i < |r| ==> r[i] != "" && Strip(r[i]) != ""
    ensures raw.ScopeText? ==> forall i :: 0 <= i < |r| ==> NoSpace(r[i])
    ensures raw.ScopeList? ==> |r| <= |raw.items| && forall x :: x in r <==> x in raw.items && Strip(x) != ""
    ensures raw.OtherValue? ==> r == []
    ensures raw.ScopeText? ==> r == Words(raw.text)
    ensures raw.ScopeList? ==> r == NonBlank(raw.items)
  {
    match raw
    case ScopeText(text) =>
      var ws := Words(text);
      forall i | 0 <= i < |ws|
        ensures Strip(ws[i]) != ""
      {
        assert !IsSpace(ws[i][0]);
      }
      ws
    case ScopeList(items) => NonBlank(items)
    case OtherValue => []
  }

  /** Any run of whitespace separates scope text: the scopes of both sides, in order. */
  lemma ScopeTextSplit(a: string, sp: string, b: string)
    requires sp != [] && AllSpace(sp)
    ensures NormalizeScopes(ScopeText(a + sp + b)) == NormalizeScopes(ScopeText(a)) + NormalizeScopes(ScopeText(b))
  {
    WordsSplitAtSpace(a, sp, b);
  }

  /** A scope list is normalised item by item: the kept items of both halves, in order. */
  lemma ScopeListAppend(a: seq<string>, b: seq<string>)
    ensures NormalizeScopes(ScopeList(a + b)) == NormalizeScopes(ScopeList(a)) + NormalizeScopes(ScopeList(b))
  {
    NonBlankAppend(a, b);
  }

  /** Normalising an already normalised list changes nothing; the credential check relies on this when it normalises twice. */
  lemma NormalizeIdempotent(raw: RawScopes)
    ensures NormalizeScopes(ScopeList(NormalizeScopes(raw))) == NormalizeScopes(raw)
  {
    NonBlankKeepsAll(NormalizeScopes(raw));
  }

  /** Scopes written out space-separated are read back exactly. */
  lemma ScopeTextRoundTrip(scopes: seq<string>)
    requires forall i :: 0 <= i < |scopes| ==> scopes[i] != [] && NoSpace(scopes[i])
    ensures NormalizeScopes(ScopeText(JoinSpaced(scopes))) == scopes
  {
    WordsOfJoined(scopes);
  }

  /**
   * `_scope_satisfied`: a scope granted literally is satisfied; the one other
   * way is Gmail read access, which Gmail modify includes.
   */
  predicate ScopeSatisfied(required: string, granted: seq<string>): (r: bool)
    ensures required in granted ==> r
    ensures required == GmailReadScope && GmailModifyScope in granted ==> r
    ensures r && required !in granted ==> required == GmailReadScope && GmailModifyScope in granted
  {
    required in granted || (required == GmailReadScope && GmailModifyScope in granted)
  }

  lemma ScopeNamesDistinct()
    ensures GmailReadScope != GmailModifyScope
    ensures GmailReadScope != CalendarScope && GmailModifyScope != CalendarScope
  {
    assert GmailReadScope[|GmailReadScope| - 1] == 'y';
    assert GmailModifyScope[|GmailModifyScope| - 1] == 'y';
    assert GmailReadScope[|GmailReadScope| - 2] == 'l';
    assert GmailModifyScope[|GmailModifyScope| - 2] == 'f';
  }

  /** The broader Gmail scope grants read access; the converse does not hold. */
  lemma ModifySatisfiesRead()
    ensures ScopeSatisfied(GmailReadScope, [GmailModifyScope])
    ensures !ScopeSatisfied(GmailModifyScope, [GmailReadScope])
  {
    ScopeNamesDistinct();
  }

  /** Apart from modify-grants-read, a single granted scope satisfies only itself. */
  lemma OnlyImplication(required: string, granted: string)
    requires required != granted
    ensures ScopeSatisfied(required, [granted]) <==> required == GmailReadScope && granted == GmailModifyScope
  {
  }

  /** Granting more never takes a scope away. */
  lemma SatisfiedMonotone(required: string, granted: seq<string>, more: seq<string>)
    requires forall x :: x in granted ==> x in more
    requires ScopeSatisfied(required, granted)
    ensures ScopeSatisfied(required, more)
  {
  }

  /** The required scopes the grant does not satisfy, in the order they were required. */
  function MissingScopes(required: seq<string>, granted: seq<string>): (r: seq<string>)
    ensures |r| <= |required|
    ensures forall x :: x in r <==> x in required && !ScopeSatisfied(x, granted)
    ensures r == [] <==> forall x :: x in required ==> ScopeSatisfied(x, granted)
  {
    if required == [] then []
    else (if ScopeSatisfied(required[0], granted) then [] else [required[0]]) + MissingScopes(required[1..], granted)
  }

  /** Missing scopes keep the required order: the missing scopes of a split list are those of each half, in order. */
  lemma {:induction false} MissingScopesAppend(a: seq<string>, b: seq<string>, granted: seq<string>)
    ensures MissingScopes(a + b, granted) == MissingScopes(a, granted) + MissingScopes(b, granted)
    decreases |a|
  {
    if a != [] {
      assert (a + b)[1..] == a[1..] + b;
      MissingScopesAppend(a[1..], b, granted);
    } else {
      assert a + b == b;
    }
  }

  /** The credential check fails listing the scopes that are missing. */
  datatype ScopeError = MissingScopesError(missing: seq<string>)

  /**
   * The scope part of `build_credentials`: the token's scopes are normalised
   * (once when the authorised-user record is built, once more before the
   * check) and the credentials are refused when any required scope is missing.
   */
  function CheckScopes(raw: RawScopes, required: seq<string>): (r: Result<seq<string>, ScopeError>)
    ensures r.Err? <==> exists x :: x in required && !ScopeSatisfied(x, NormalizeScopes(raw))
    ensures r.Ok? ==> r.value == NormalizeScopes(raw)
    ensures r.Err? ==> r.error.missing != [] && forall x :: x in r.error.missing ==> x in required
    ensures r.Err? ==> r.error.missing == MissingScopes(required, NormalizeScopes(raw))
  {
    NormalizeIdempotent(raw);
    var scopes := NormalizeScopes(ScopeList(NormalizeScopes(raw)));
    var missing := MissingScopes(required, scopes);
    if missing != [] then Err(MissingScopesError(missing)) else Ok(scopes)
  }

  /** The scopes a sync run needs. */
  const SyncScopes: seq<string> := [CalendarScope, GmailReadScope]

  /** The check passes exactly when every required scope is satisfied by the normalised grant. */
  lemma CheckPasses(raw: RawScopes, required: seq<string>)
    requires forall x :: x in required ==> ScopeSatisfied(x, NormalizeScopes(raw))
    ensures CheckScopes(raw, required) == Ok(NormalizeScopes(raw))
  {
  }

  /** A token listing the calendar and Gmail modify scopes passes the sync run's check. */
  lemma ModifyGrantPassesSync(items: seq<string>)
    requires CalendarScope in items && GmailModifyScope in items
    ensures CheckScopes(ScopeList(items), SyncScopes).Ok?
  {
    var raw := ScopeList(items);
    var scopes := NormalizeScopes(raw);
    assert !IsSpace(CalendarScope[0]) && !IsSpace(GmailModifyScope[0]);
    assert Strip(CalendarScope) != "" && Strip(GmailModifyScope) != "";
    assert CalendarScope in scopes && GmailModifyScope in scopes;
    forall x | x in SyncScopes
      ensures ScopeSatisfied(x, scopes)
    {
      assert x == CalendarScope || x == GmailReadScope;
    }
    CheckPasses(raw, SyncScopes);
  }
}
