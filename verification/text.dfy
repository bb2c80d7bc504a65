/**
 * The handful of Python `str` operations the synchroniser relies on: whitespace
 * stripping, ASCII case mapping, substring tests, `split()` without a separator
 * and `int()` on decimal text.
 */
module Text {
  import opened Base

  /** Python's `str.isspace()`: the characters `strip()`, `split()` and the regex class `\s` treat as whitespace. */
  predicate IsSpace(c: char) {
    || c == ' '
    || '\t' <= c <= '\r'
    || '\U{1c}' <= c <= '\U{1f}'
    || c == '\U{85}' || c == '\U{a0}' || c == '\U{1680}'
    || '\U{2000}' <= c <= '\U{200a}'
    || c == '\U{2028}' || c == '\U{2029}' || c == '\U{202f}' || c == '\U{205f}' || c == '\U{3000}'
  }

  predicate NoSpace(s: string) {
    forall i :: 0 <= i < |s| ==> !IsSpace(s[i])
  }

  predicate AllSpace(s: string) {
    forall i :: 0 <= i < |s| ==> IsSpace(s[i])
  }

  /** `str.lstrip()`: the suffix of `s` left after its leading whitespace. */
  function StripLeft(s: string): (r: string)
    ensures |r| <= |s|
    ensures r == [] || !IsSpace(r[0])
  {
    if |s| > 0 && IsSpace(s[0]) then StripLeft(s[1..]) else s
  }

  /** What `lstrip()` removes is a whitespace prefix: the result is the rest of `s`. */
  lemma {:induction false} StripLeftShape(s: string)
    ensures var r := StripLeft(s);
      r == s[|s| - |r|..] && forall i :: 0 <= i < |s| - |r| ==> IsSpace(s[i])
    decreases |s|
  {
    if |s| > 0 && IsSpace(s[0]) {
      StripLeftShape(s[1..]);
      var r := StripLeft(s);
      forall i | 1 <= i < |s| - |r|
        ensures IsSpace(s[i])
      {
        assert s[i] == s[1..][i - 1];
      }
    }
  }

  /** `str.rstrip()`: the prefix of `s` left after its trailing whitespace. */
  function StripRight(s: string): (r: string)
    ensures |r| <= |s|
    ensures r == [] || !IsSpace(r[|r| - 1])
  {
    if |s| > 0 && IsSpace(s[|s| - 1]) then StripRight(s[..|s| - 1]) else s
  }

  /** What `rstrip()` removes is a whitespace suffix: the result is the start of `s`. */
  lemma {:induction false} StripRightShape(s: string)
    ensures var r := StripRight(s);
      r == s[..|r|] && forall i :: |r| <= i < |s| ==> IsSpace(s[i])
    decreases |s|
  {
    if |s| > 0 && IsSpace(s[|s| - 1]) {
      StripRightShape(s[..|s| - 1]);
    }
  }

  /** `str.strip()`. */
  function Strip(s: string): (r: string)
    ensures |r| <= |s|
    ensures r == [] || (!IsSpace(r[0]) && !IsSpace(r[|r| - 1]))
    ensures r == [] <==> AllSpace(s)
  {
    var l := StripLeft(s);
    StripBlank(s);
    StripRight(l)
  }

  /** Stripping leaves nothing exactly when the string is all whitespace. */
  lemma StripBlank(s: string)
    ensures StripRight(StripLeft(s)) == [] <==> AllSpace(s)
    ensures StripRight(StripLeft(s)) == [] || !IsSpace(StripRight(StripLeft(s))[0])
  {
    var l := StripLeft(s);
    StripLeftShape(s);
    StripRightShape(l);
    if l != [] {
      assert l[0] == s[|s| - |l|];
      assert StripRight(l) != [] by {
        assert !IsSpace(l[0]);
      }
      assert StripRight(l)[0] == l[0];
    }
  }

  /** A slice whose characters are all whitespace. */
  lemma AllSpaceSlice(s: string, i: int, j: int)
    requires 0 <= i <= j <= |s|
    requires forall k :: i <= k < j ==> IsSpace(s[k])
    ensures AllSpace(s[i..j])
  {
    forall k | 0 <= k < j - i
      ensures IsSpace(s[i..j][k])
    {
      assert s[i..j][k] == s[i + k];
    }
  }

  /** `lstrip()` cuts a whitespace prefix off. */
  lemma StripLeftBounds(s: string)
    ensures var i := |s| - |StripLeft(s)|; StripLeft(s) == s[i..] && AllSpace(s[..i])
  {
    var i := |s| - |StripLeft(s)|;
    StripLeftShape(s);
    AllSpaceSlice(s, 0, i);
    assert s[..i] == s[0..i];
  }

  /** `rstrip()` cuts a whitespace suffix off. */
  lemma StripRightBounds(s: string)
    ensures var j := |StripRight(s)|; StripRight(s) == s[..j] && AllSpace(s[j..])
  {
    var j := |StripRight(s)|;
    StripRightShape(s);
    AllSpaceSlice(s, j, |s|);
    assert s[j..] == s[j..|s|];
  }

  /** Where `strip()` cuts: after the leading whitespace, and after the kept text. */
  lemma StripBounds(s: string)
    ensures var i := |s| - |StripLeft(s)|; var j := i + |Strip(s)|;
      && 0 <= i <= j <= |s|
      && Strip(s) == s[i..j]
      && AllSpace(s[..i]) && AllSpace(s[j..])
  {
    var l := StripLeft(s);
    var r := StripRight(l);
    var i := |s| - |l|;
    var j := i + |r|;
    StripLeftBounds(s);
    StripRightBounds(l);
    assert s[i..j] == r;
    assert s[j..] == l[|r|..];
  }

  /**
   * `strip()` cuts a whitespace prefix and a whitespace suffix and keeps what
   * lies between them.
   */
  lemma StripShape(s: string)
    ensures exists i, j ::
      && 0 <= i <= j <= |s|
      && Strip(s) == s[i..j]
      && AllSpace(s[..i]) && AllSpace(s[j..])
      && s == s[..i] + Strip(s) + s[j..]
  {
    StripBounds(s);
    var i := |s| - |StripLeft(s)|;
    var j := i + |Strip(s)|;
    assert s == s[..i] + s[i..j] + s[j..];
  }

  /** A string with no whitespace at either end is its own `strip()`. */
  lemma StripTrimmed(s: string)
    requires s == [] || (!IsSpace(s[0]) && !IsSpace(s[|s| - 1]))
    ensures Strip(s) == s
  {
  }

  /** `strip()` is idempotent. */
  lemma StripIdempotent(s: string)
    ensures Strip(Strip(s)) == Strip(s)
  {
    StripTrimmed(Strip(s));
  }

  function UpperChar(c: char): char {
    if 'a' <= c <= 'z' then (c as int - 32) as char else c
  }

  function LowerChar(c: char): char {
    if 'A' <= c <= 'Z' then (c as int + 32) as char else c
  }

  /** `str.upper()` on ASCII letters: each lower-case letter becomes its capital; every other character is kept. */
  function Upper(s: string): (r: string)
    ensures |r| == |s|
    ensures forall i :: 0 <= i < |r| ==> !('a' <= r[i] <= 'z')
    ensures forall i :: 0 <= i < |r| && !('a' <= s[i] <= 'z') ==> r[i] == s[i]
    ensures forall i :: 0 <= i < |s| && 'a' <= s[i] <= 'z' ==> r[i] as int == s[i] as int - 32
  {
    seq(|s|, i requires 0 <= i < |s| => UpperChar(s[i]))
  }

  /** `str.lower()` on ASCII letters: each capital becomes its lower-case letter; every other character is kept. */
  function Lower(s: string): (r: string)
    ensures |r| == |s|
    ensures forall i :: 0 <= i < |r| ==> !('A' <= r[i] <= 'Z')
    ensures forall i :: 0 <= i < |r| && !('A' <= s[i] <= 'Z') ==> r[i] == s[i]
    ensures forall i :: 0 <= i < |s| && 'A' <= s[i] <= 'Z' ==> r[i] as int == s[i] as int + 32
  {
    seq(|s|, i requires 0 <= i < |s| => LowerChar(s[i]))
  }

  /** A string without lower-case ASCII letters is its own upper-casing. */
  lemma UpperOfUpperCase(s: string)
    requires forall i :: 0 <= i < |s| ==> !('a' <= s[i] <= 'z')
    ensures Upper(s) == s
  {
  }

  /** Printable ASCII other than the space is never whitespace. */
  lemma PrintableNoSpace(s: string)
    requires forall i :: 0 <= i < |s| ==> '!' <= s[i] <= '~'
    ensures NoSpace(s)
  {
  }

  /** Lower-casing forgets how a string was cased: an upper-cased string lowers to the same text. */
  lemma LowerOfUpper(s: string)
    ensures Lower(Upper(s)) == Lower(s)
  {
    var a, b := Lower(Upper(s)), Lower(s);
    forall i | 0 <= i < |s|
      ensures a[i] == b[i]
    {
      assert Upper(s)[i] == UpperChar(s[i]);
    }
  }

  /** Text without upper-case letters is its own lower-case form. */
  lemma LowerOfLowerCase(s: string)
    requires forall i :: 0 <= i < |s| ==> !('A' <= s[i] <= 'Z')
    ensures Lower(s) == s
  {
  }

  /** Lower-casing keeps a suffix that has no upper-case letters. */
  lemma LowerKeepsSuffix(s: string, suffix: string)
    requires forall i :: 0 <= i < |suffix| ==> !('A' <= suffix[i] <= 'Z')
    requires EndsWith(s, suffix)
    ensures EndsWith(Lower(s), suffix)
  {
    var k := |s| - |suffix|;
    forall i | 0 <= i < |suffix|
      ensures Lower(s)[k..][i] == suffix[i]
    {
      assert s[k + i] == suffix[i];
    }
  }

  predicate StartsWith(s: string, prefix: string) {
    |prefix| <= |s| && s[..|prefix|] == prefix
  }

  /** `s.endswith(suffix)`. */
  predicate EndsWith(s: string, suffix: string) {
    |suffix| <= |s| && s[|s| - |suffix|..] == suffix
  }

  /** Python's `sub in s`: `sub` occurs at some position of `s` (the empty string occurs everywhere). */
  predicate Contains(s: string, sub: string)
    decreases |s|
  {
    StartsWith(s, sub) || (|s| > 0 && Contains(s[1..], sub))
  }

  /** Whatever surrounds it, a string contains each of its infixes. */
  lemma {:induction false} ContainsInfix(before: string, sub: string, after: string)
    ensures Contains(before + sub + after, sub)
    decreases |before|
  {
    var s := before + sub + after;
    if before == [] {
      assert s[..|sub|] == sub;
    } else {
      assert s[1..] == before[1..] + sub + after;
      ContainsInfix(before[1..], sub, after);
    }
  }

  /** Every slice of `s` is contained in `s`. */
  lemma ContainsSlice(s: string, i: nat, j: nat)
    requires i <= j <= |s|
    ensures Contains(s, s[i..j])
  {
    assert s == s[..i] + s[i..j] + s[j..];
    ContainsInfix(s[..i], s[i..j], s[j..]);
  }

  /** `strip()` only removes characters from the ends: its result is an infix of its input. */
  lemma StripIsInfix(s: string)
    ensures Contains(s, Strip(s))
  {
    StripBounds(s);
    var k := |s| - |StripLeft(s)|;
    ContainsSlice(s, k, k + |Strip(s)|);
  }

  /** A string that starts with a non-whitespace character is its own `lstrip()`. */
  lemma StripLeftNonSpace(s: string)
    requires s != [] && !IsSpace(s[0])
    ensures StripLeft(s) == s
  {
  }

  /** `lstrip()` of a concatenation: an all-whitespace head vanishes, any other head is stripped alone. */
  lemma {:induction false} StripLeftAppend(a: string, b: string)
    ensures StripLeft(a + b) == if AllSpace(a) then StripLeft(b) else StripLeft(a) + b
    decreases |a|
  {
    if a == [] {
      assert a + b == b;
    } else if IsSpace(a[0]) {
      assert (a + b)[0] == a[0] && (a + b)[1..] == a[1..] + b;
      assert StripLeft(a + b) == StripLeft(a[1..] + b);
      StripLeftAppend(a[1..], b);
      AllSpaceTail(a);
    } else {
      assert (a + b)[0] == a[0];
      assert StripLeft(a + b) == a + b && StripLeft(a) == a;
      assert !AllSpace(a);
    }
  }

  /** A string is all whitespace exactly when its tail is and its first character is. */
  lemma AllSpaceTail(a: string)
    requires a != []
    ensures AllSpace(a) <==> IsSpace(a[0]) && AllSpace(a[1..])
  {
    if IsSpace(a[0]) && AllSpace(a[1..]) {
      forall i | 1 <= i < |a|
        ensures IsSpace(a[i])
      {
        assert a[i] == a[1..][i - 1];
      }
    }
  }

  /** A string contains each of its suffixes. */
  lemma ContainsSuffix(h: string, sub: string)
    ensures Contains(h + sub, sub)
  {
    assert h + sub + [] == h + sub;
    ContainsInfix(h, sub, []);
  }

  lemma StripRightTrimmed(s: string)
    requires s != [] && !IsSpace(s[|s| - 1])
    ensures StripRight(s) == s
  {
  }

  /** `strip()` never cuts into a trimmed tail. */
  lemma StripKeepsTail(head: string, sub: string)
    requires sub != [] && !IsSpace(sub[0]) && !IsSpace(sub[|sub| - 1])
    ensures Contains(Strip(head + sub), sub)
  {
    var h := if AllSpace(head) then [] else StripLeft(head);
    var l := h + sub;
    assert StripLeft(head + sub) == l by {
      StripLeftAppend(head, sub);
      StripLeftNonSpace(sub);
      assert [] + sub == sub;
    }
    assert StripRight(l) == l by {
      assert l[|l| - 1] == sub[|sub| - 1];
      StripRightTrimmed(l);
    }
    assert Strip(head + sub) == l;
    ContainsSuffix(h, sub);
  }

  /** `lstrip()` of a text, a whitespace separator and a tail that starts with non-whitespace. */
  lemma StripLeftJoined(head: string, sep: string, tail: string)
    requires AllSpace(sep)
    requires tail != [] && !IsSpace(tail[0])
    ensures StripLeft(head + sep + tail) == if AllSpace(head) then tail else StripLeft(head) + sep + tail
  {
    var rest := sep + tail;
    assert StripLeft(rest) == tail by {
      StripLeftSpaceThen(sep, tail);
    }
    assert StripLeft(head + sep + tail) == if AllSpace(head) then StripLeft(rest) else StripLeft(head) + rest by {
      assert head + sep + tail == head + rest;
      StripLeftAppend(head, rest);
    }
    AppendAssoc(StripLeft(head), sep, tail);
  }

  /** Whitespace in front of a tail that starts with non-whitespace is all `lstrip()` removes. */
  lemma StripLeftSpaceThen(sep: string, tail: string)
    requires AllSpace(sep)
    requires tail != [] && !IsSpace(tail[0])
    ensures StripLeft(sep + tail) == tail
  {
    StripLeftAppend(sep, tail);
    StripLeftNonSpace(tail);
  }

  /** `strip()` of a text, a whitespace separator and a trimmed tail. */
  lemma StripJoined(head: string, sep: string, tail: string)
    requires AllSpace(sep)
    requires tail != [] && !IsSpace(tail[0]) && !IsSpace(tail[|tail| - 1])
    ensures Strip(head + sep + tail) == if AllSpace(head) then tail else StripLeft(head) + sep + tail
  {
    StripLeftJoined(head, sep, tail);
    var l := if AllSpace(head) then tail else StripLeft(head) + sep + tail;
    assert l[|l| - 1] == tail[|tail| - 1];
    StripRightTrimmed(l);
  }

  /** Number of leading non-whitespace characters of `s`. */
  function WordLength(s: string): (n: nat)
    ensures n <= |s|
    ensures NoSpace(s[..n])
    ensures n == |s| || IsSpace(s[n])
  {
    if |s| > 0 && !IsSpace(s[0]) then
      var n := 1 + WordLength(s[1..]);
      assert s[..n] == [s[0]] + s[1..][..n - 1];
      n
    else
      0
  }

  /**
   * Python's `str.split()` with no separator: the maximal runs of
   * non-whitespace characters of `s`, in order.
   */
  function Words(s: string): (r: seq<string>)
    ensures Tokens(r)
    decreases |s|
  {
    var t := StripLeft(s);
    if t == [] then []
    else
      var n := WordLength(t);
      assert !IsSpace(t[0]);
      var rest := Words(t[n..]);
      TokensCons(t[..n], rest);
      [t[..n]] + rest
  }

  /** Non-empty tokens free of whitespace, as `split()` produces and `" ".join` expects. */
  predicate Tokens(ws: seq<string>) {
    forall k :: 0 <= k < |ws| ==> ws[k] != [] && NoSpace(ws[k])
  }

  lemma TokensCons(w: string, ws: seq<string>)
    requires w != [] && NoSpace(w) && Tokens(ws)
    ensures Tokens([w] + ws)
  {
    forall k | 1 <= k < |ws| + 1
      ensures ([w] + ws)[k] == ws[k - 1]
    {
    }
  }

  /** The tokens joined by single spaces, as `" ".join(ws)`. */
  function JoinSpaced(ws: seq<string>): string
    decreases |ws|
  {
    if |ws| == 0 then ""
    else if |ws| == 1 then ws[0]
    else ws[0] + " " + JoinSpaced(ws[1..])
  }

  lemma {:induction false} JoinSpacedStart(ws: seq<string>)
    requires |ws| > 0 && ws[0] != []
    ensures JoinSpaced(ws) != [] && JoinSpaced(ws)[0] == ws[0][0]
  {
  }

  lemma WordLengthOfWord(w: string, rest: string)
    requires NoSpace(w)
    requires rest == [] || IsSpace(rest[0])
    ensures WordLength(w + rest) == |w|
    decreases |w|
  {
    if w != [] {
      assert (w + rest)[1..] == w[1..] + rest;
      WordLengthOfWord(w[1..], rest);
    }
  }

  /**
   * `split()` undoes `" ".join`: joining non-empty whitespace-free tokens with
   * single spaces and splitting the result gives the tokens back.
   */
  lemma {:induction false} WordsOfJoined(ws: seq<string>)
    requires Tokens(ws)
    ensures Words(JoinSpaced(ws)) == ws
    decreases |ws|
  {
    if |ws| == 0 {
      assert StripLeft(JoinSpaced(ws)) == [];
    } else if |ws| == 1 {
      WordsOfOne(ws[0]);
    } else {
      WordsOfJoined(ws[1..]);
      WordsOfJoinedStep(ws);
    }
  }

  lemma WordsOfOne(w: string)
    requires w != [] && NoSpace(w)
    ensures Words(JoinSpaced([w])) == [w]
  {
    assert JoinSpaced([w]) == w;
    WordsOfWord(w);
  }

  /** A single word splits into itself. */
  lemma WordsOfWord(w: string)
    requires w != [] && NoSpace(w)
    ensures Words(w) == [w]
  {
    WordLengthOfWord(w, []);
    assert w + [] == w;
    assert StripLeft(w) == w;
    assert w[..|w|] == w;
    assert w[|w|..] == [];
    assert Words([]) == [];
  }

  lemma WordsOfJoinedStep(ws: seq<string>)
    requires |ws| > 1 && Tokens(ws)
    requires Words(JoinSpaced(ws[1..])) == ws[1..]
    ensures Words(JoinSpaced(ws)) == ws
  {
    WordsOfCons(ws[0], JoinSpaced(ws[1..]), ws[1..]);
    assert ws == [ws[0]] + ws[1..];
  }

  lemma WordsOfCons(w: string, j: string, rest: seq<string>)
    requires w != [] && NoSpace(w) && Words(j) == rest
    ensures Words(w + " " + j) == [w] + rest
  {
    assert w + " " + j == w + (" " + j);
    WordsOfWordThen(w, " " + j);
    WordsAfterSpace(j);
  }

  /** A word followed by whitespace or by nothing is split off first. */
  lemma WordsOfWordThen(w: string, rest: string)
    requires w != [] && NoSpace(w)
    requires rest == [] || IsSpace(rest[0])
    ensures Words(w + rest) == [w] + Words(rest)
  {
    var s := w + rest;
    assert s[0] == w[0];
    assert StripLeft(s) == s;
    WordLengthOfWord(w, rest);
    assert s[..|w|] == w;
    assert s[|w|..] == rest;
  }

  /** Leading whitespace does not change the words. */
  lemma WordsAfterSpace(s: string)
    ensures Words(" " + s) == Words(s)
  {
    assert (" " + s)[1..] == s;
    assert StripLeft(" " + s) == StripLeft(s);
  }

  /** `split()` looks only at what `lstrip()` leaves. */
  lemma WordsOfStripped(s: string)
    ensures Words(StripLeft(s)) == Words(s)
  {
    var t := StripLeft(s);
    if t != [] {
      StripLeftNonSpace(t);
    }
  }

  /** A whitespace-only string has no words. */
  lemma WordsOfSpace(sp: string)
    requires AllSpace(sp)
    ensures Words(sp) == []
  {
    StripLeftAppend(sp, []);
    assert sp + [] == sp;
  }

  /** Leading whitespace of any length does not change the words. */
  lemma WordsAfterBlank(a: string, y: string)
    requires AllSpace(a)
    ensures Words(a + y) == Words(y)
  {
    StripLeftAppend(a, y);
    WordsOfStripped(a + y);
    WordsOfStripped(y);
  }

  /** A string that is not all whitespace starts with a word. */
  lemma FirstWord(a: string)
    requires !AllSpace(a)
    ensures var t := StripLeft(a); var n := WordLength(t);
      && 0 < n && |t[n..]| < |a|
      && Words(a) == [t[..n]] + Words(t[n..])
  {
    StripLeftShape(a);
    var t := StripLeft(a);
    assert !IsSpace(t[0]);
  }

  /** A word followed by whitespace-led text is split off first, whatever comes after. */
  lemma WordThen(w: string, rest: string, tail: string)
    requires w != [] && NoSpace(w)
    requires rest == [] || IsSpace(rest[0])
    requires tail == [] || IsSpace(tail[0])
    ensures Words(w + rest + tail) == [w] + Words(rest + tail)
  {
    var u := rest + tail;
    assert u == [] || IsSpace(u[0]) by {
      if rest != [] {
        assert u[0] == rest[0];
      }
    }
    assert w + rest + tail == w + u;
    WordsOfWordThen(w, u);
  }

  /** Leading whitespace of `a` does not matter to the words of `a` and what follows. */
  lemma WordsAfterStrip(a: string, y: string)
    requires !AllSpace(a)
    ensures Words(a + y) == Words(StripLeft(a) + y)
  {
    StripLeftAppend(a, y);
    WordsOfStripped(a + y);
  }

  /** Before a run of whitespace, a blank `a` contributes no words. */
  lemma WordsSplitBlank(a: string, sp: string, b: string)
    requires AllSpace(a) && AllSpace(sp)
    ensures Words(a + sp + b) == Words(a) + Words(b)
  {
    assert a + sp + b == a + (sp + b);
    WordsAfterBlank(a, sp + b);
    WordsAfterBlank(sp, b);
    WordsOfSpace(a);
  }

  /** Before a run of whitespace, the first word of a non-blank `a` comes first. */
  lemma WordsSplitStep(a: string, sp: string, b: string)
    requires !AllSpace(a) && sp != [] && AllSpace(sp)
    ensures var t := StripLeft(a); var n := WordLength(t);
      && |t[n..]| < |a|
      && Words(a) == [t[..n]] + Words(t[n..])
      && Words(a + sp + b) == [t[..n]] + Words(t[n..] + sp + b)
  {
    var t := StripLeft(a);
    var n := WordLength(t);
    var w, rest := t[..n], t[n..];
    FirstWord(a);
    assert a + sp + b == a + (sp + b);
    WordsAfterStrip(a, sp + b);
    assert t == w + rest;
    WordThen(w, rest, sp + b);
    assert rest + (sp + b) == rest + sp + b;
  }

  /**
   * Any non-empty run of whitespace separates words: splitting `a`, the run
   * and `b` together gives the words of `a` followed by those of `b`.
   */
  lemma {:induction false} WordsSplitAtSpace(a: string, sp: string, b: string)
    requires sp != [] && AllSpace(sp)
    ensures Words(a + sp + b) == Words(a) + Words(b)
    decreases |a|
  {
    if AllSpace(a) {
      WordsSplitBlank(a, sp, b);
    } else {
      WordsSplitStep(a, sp, b);
      var t := StripLeft(a);
      var rest := t[WordLength(t)..];
      WordsSplitAtSpace(rest, sp, b);
      AppendAssoc([t[..WordLength(t)]], Words(rest), Words(b));
    }
  }

  predicate IsDigit(c: char) {
    '0' <= c <= '9'
  }

  predicate AllDigits(s: string) {
    forall i :: 0 <= i < |s| ==> IsDigit(s[i])
  }

  /** The value of a run of decimal digits, most significant first. */
  function DigitsValue(s: string): nat
    requires AllDigits(s)
    decreases |s|
  {
    if s == [] then 0 else DigitsValue(s[..|s| - 1]) * 10 + (s[|s| - 1] as int - '0' as int)
  }

  /**
   * Python's `int()` on text: surrounding whitespace, an optional sign and at
   * least one decimal digit; anything else raises, modelled as `None`.
   */
  function ParseInt(s: string): Option<int> {
    var t := Strip(s);
    if |t| > 0 && (t[0] == '+' || t[0] == '-') then
      var d := t[1..];
      if d != [] && AllDigits(d) then
        var v: int := DigitsValue(d);
        Some(if t[0] == '-' then -v else v)
      else None
    else if t != [] && AllDigits(t) then Some(DigitsValue(t))
    else None
  }

  function DigitChar(d: nat): char
    requires d < 10
  {
    ('0' as int + d) as char
  }

  /** `str(n)` for a non-negative integer: its decimal digits, no leading zeros. */
  function DecimalText(n: nat): (r: string)
    ensures r != [] && AllDigits(r)
    ensures r[0] != '+' && r[0] != '-'
    ensures DigitsValue(r) == n
  {
    if n < 10 then
      var r := [DigitChar(n)];
      assert r[..0] == [];
      r
    else
      var r := DecimalText(n / 10) + [DigitChar(n % 10)];
      assert r[..|r| - 1] == DecimalText(n / 10);
      r
  }

  /** `int(str(n)) == n` for every non-negative `n`. */
  lemma DecimalRoundTrip(n: nat)
    ensures ParseInt(DecimalText(n)) == Some(n)
  {
    var r := DecimalText(n);
    StripTrimmed(r);
  }
}
