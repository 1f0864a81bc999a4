/** The street-address search of scripts/scrapers/scrape_chamber_calendar.py:
    the leftmost match of the regular expression
    `\d+\s+[\w\s]+(?:street|st|avenue|ave|road|rd|drive|dr|way|boulevard|blvd|lane|ln|court|ct|place|pl)`
    in an already lower-cased text, with the backtracking search of Python's
    `re` module spelled out. The search is written for any list `ws` of
    alternatives that each begin with a letter; `StreetSearch` runs it with
    the street-type words. */
module StreetAddress {
  import opened Base
  import opened Text

  /** The street-type words, in the order the alternation tries them. */
  const Suffixes: seq<string> := ["street", "st", "avenue", "ave", "road", "rd", "drive", "dr", "way",
                                  "boulevard", "blvd", "lane", "ln", "court", "ct", "place", "pl"]

  /** The class `[\w\s]`. */
  predicate WordOrSpace(c: char) { IsWord(c) || IsSpace(c) }

  /** Every alternative begins with a lower-case letter, so none of them
      can begin inside a run of digits or spaces. */
  predicate LetterInitial(ws: seq<string>)
  {
    forall n :: 0 <= n < |ws| ==> |ws[n]| > 0 && IsLowerLetter(ws[n][0])
  }

  lemma SuffixesStartWithLetter()
    ensures LetterInitial(Suffixes)
  {
  }

  /** Alternative number `n` occurs at position `p`. */
  predicate SuffixAt(s: string, ws: seq<string>, p: int, n: int)
  {
    0 <= p && 0 <= n < |ws| && p + |ws[n]| <= |s| && s[p..p + |ws[n]|] == ws[n]
  }

  /** The pattern matches from `i`: digits on `[i, d)`, whitespace at `d`,
      the class `[\w\s]` on `[d + 1, p)` with `p >= d + 2` (so that `\s+`
      and `[\w\s]+` each take at least one character), and alternative `n`
      at `p`. */
  predicate StreetAt(s: string, ws: seq<string>, i: int, d: int, p: int, n: int)
  {
    0 <= i < d < |s| && (forall k :: i <= k < d ==> IsDigit(s[k])) && IsSpace(s[d])
    && d + 2 <= p && SuffixAt(s, ws, p, n) && (forall k :: d + 1 <= k < p ==> WordOrSpace(s[k]))
  }

  datatype Span = Span(start: nat, end: nat)

  /** The end of the run of digits starting at `i`. */
  function DigitEnd(s: string, i: nat): (j: nat)
    requires i <= |s|
    ensures i <= j <= |s|
    ensures forall k :: i <= k < j ==> IsDigit(s[k])
    ensures j == |s| || !IsDigit(s[j])
    decreases |s| - i
  {
    if i == |s| || !IsDigit(s[i]) then i else DigitEnd(s, i + 1)
  }

  /** The end of the run of `[\w\s]` characters starting at `i`. */
  function RunEnd(s: string, i: nat): (j: nat)
    requires i <= |s|
    ensures i <= j <= |s|
    ensures forall k :: i <= k < j ==> WordOrSpace(s[k])
    ensures j == |s| || !WordOrSpace(s[j])
    decreases |s| - i
  {
    if i == |s| || !WordOrSpace(s[i]) then i else RunEnd(s, i + 1)
  }

  /** The first alternative, from number `n` on, that matches at `p`. */
  function FirstSuffix(s: string, ws: seq<string>, p: nat, n: nat): (r: Option<nat>)
    ensures r.Some? ==> n <= r.value < |ws|
    decreases |ws| - n
  {
    if n >= |ws| then None
    else if SuffixAt(s, ws, p, n) then Some(n)
    else FirstSuffix(s, ws, p, n + 1)
  }

  /** `FirstSuffix` tries the alternatives in order: what it returns
      matches and no alternative before it does; `None` means none does. */
  lemma {:induction false} FirstSuffixSpec(s: string, ws: seq<string>, p: nat, n: nat)
    ensures var r := FirstSuffix(s, ws, p, n);
            (r.Some? ==> SuffixAt(s, ws, p, r.value) && forall m :: n <= m < r.value ==> !SuffixAt(s, ws, p, m))
            && (r.None? ==> forall m :: n <= m ==> !SuffixAt(s, ws, p, m))
    decreases |ws| - n
  {
    if n < |ws| && !SuffixAt(s, ws, p, n) {
      FirstSuffixSpec(s, ws, p, n + 1);
    }
  }

  /** Backtracking of the greedy `[\w\s]+`: the last position in `[lo, hi)`
      where some alternative matches, with the first such alternative. */
  function LastSuffix(s: string, ws: seq<string>, lo: nat, hi: nat): (r: Option<(nat, nat)>)
    ensures r.Some? ==> lo <= r.value.0 < hi && r.value.1 < |ws|
    decreases hi
  {
    if hi <= lo then None
    else
      match FirstSuffix(s, ws, hi - 1, 0)
      case Some(n) => Some((hi - 1, n))
      case None => LastSuffix(s, ws, lo, hi - 1)
  }

  /** `LastSuffix` backtracks from the right: what it returns is the last
      position in `[lo, hi)` where an alternative matches, with the first
      alternative matching there; `None` means no position has one. */
  lemma {:induction false} LastSuffixSpec(s: string, ws: seq<string>, lo: nat, hi: nat)
    ensures var r := LastSuffix(s, ws, lo, hi);
            (r.Some? ==> SuffixAt(s, ws, r.value.0, r.value.1)
                         && (forall m :: 0 <= m < r.value.1 ==> !SuffixAt(s, ws, r.value.0, m))
                         && (forall q, m :: r.value.0 < q < hi ==> !SuffixAt(s, ws, q, m)))
            && (r.None? ==> forall q, m :: lo <= q < hi ==> !SuffixAt(s, ws, q, m))
    decreases hi
  {
    if lo < hi {
      FirstSuffixSpec(s, ws, hi - 1, 0);
      if FirstSuffix(s, ws, hi - 1, 0).None? {
        LastSuffixSpec(s, ws, lo, hi - 1);
      }
    }
  }

  /** The match the regular expression finds when it starts at `i`, if any. */
  function MatchAt(s: string, ws: seq<string>, i: nat): Option<Span>
  {
    if i < |s| && IsDigit(s[i]) then
      var d := DigitEnd(s, i);
      if d < |s| && IsSpace(s[d]) then
        match LastSuffix(s, ws, d + 2, RunEnd(s, d + 1))
        case Some(pn) => Some(Span(i, pn.0 + |ws[pn.1]|))
        case None => None
      else None
    else None
  }

  /** Any match from `i` has its digits ending at the end of the digit run
      and its alternative inside the `[\w\s]` run that follows. */
  lemma StreetAtBounds(s: string, ws: seq<string>, i: int, d: int, p: int, n: int)
    requires LetterInitial(ws)
    requires StreetAt(s, ws, i, d, p, n)
    ensures 0 <= i < |s| && IsDigit(s[i]) && d == DigitEnd(s, i)
    ensures p < RunEnd(s, d + 1)
  {
    assert s[p..p + |ws[n]|][0] == s[p];
  }

  /** No match from `i` when `MatchAt` finds none. */
  lemma MatchAtNone(s: string, ws: seq<string>, i: nat)
    requires LetterInitial(ws)
    requires MatchAt(s, ws, i).None?
    ensures forall d, p, n :: !StreetAt(s, ws, i, d, p, n)
  {
    forall d, p, n | StreetAt(s, ws, i, d, p, n)
      ensures false
    {
      StreetAtBounds(s, ws, i, d, p, n);
      LastSuffixSpec(s, ws, d + 2, RunEnd(s, d + 1));
    }
  }

  /** The match the backtracking search reaches first from `i`: a match
      whose alternative lies at the last position that works, and at that
      position the first alternative that works. */
  ghost predicate FirstFound(s: string, ws: seq<string>, i: int, d: int, p: int, n: int)
  {
    StreetAt(s, ws, i, d, p, n)
    && (forall q, m :: p < q ==> !StreetAt(s, ws, i, d, q, m))
    && (forall m :: 0 <= m < n ==> !StreetAt(s, ws, i, d, p, m))
  }

  /** What `MatchAt` finds is that match. */
  lemma MatchAtSome(s: string, ws: seq<string>, i: nat)
    requires LetterInitial(ws)
    requires MatchAt(s, ws, i).Some?
    ensures MatchAt(s, ws, i).value.start == i
    ensures exists d, p, n :: FirstFound(s, ws, i, d, p, n) && MatchAt(s, ws, i).value.end == p + |ws[n]|
  {
    MatchAtFound(s, ws, i);
    var d := DigitEnd(s, i);
    var e := RunEnd(s, d + 1);
    var pn := LastSuffix(s, ws, d + 2, e).value;
    var p, n := pn.0, pn.1;
    LastSuffixSpec(s, ws, d + 2, e);
    assert StreetAt(s, ws, i, d, p, n);
    forall q, m | p < q && StreetAt(s, ws, i, d, q, m)
      ensures false
    {
      StreetAtBounds(s, ws, i, d, q, m);
    }
    assert FirstFound(s, ws, i, d, p, n);
  }

  /** When `MatchAt` finds a match from `i`, its end is that of the
      alternative `LastSuffix` picks in the run after the digits and the
      space. */
  lemma MatchAtFound(s: string, ws: seq<string>, i: nat)
    requires MatchAt(s, ws, i).Some?
    ensures i < |s| && DigitEnd(s, i) < |s| && IsSpace(s[DigitEnd(s, i)])
    ensures var d := DigitEnd(s, i);
            var r := LastSuffix(s, ws, d + 2, RunEnd(s, d + 1));
            r.Some? && MatchAt(s, ws, i) == Some(Span(i, r.value.0 + |ws[r.value.1]|))
  {
  }

  /** The leftmost match at or after position `i`. */
  function SearchFrom(s: string, ws: seq<string>, i: nat): (r: Option<Span>)
    requires i <= |s|
    ensures r.Some? ==> i <= r.value.start && MatchAt(s, ws, r.value.start) == r
    ensures r.Some? ==> forall j :: i <= j < r.value.start ==> MatchAt(s, ws, j).None?
    ensures r.None? ==> forall j :: i <= j <= |s| ==> MatchAt(s, ws, j).None?
    decreases |s| - i
  {
    if MatchAt(s, ws, i).Some? then MatchAt(s, ws, i)
    else if i == |s| then None
    else SearchFrom(s, ws, i + 1)
  }

  /** `re.search` for the street pattern. */
  function StreetSearch(s: string): (r: Option<Span>)
    ensures r.Some? ==> r.value.start < r.value.end <= |s|
  {
    var r := SearchFrom(s, Suffixes, 0);
    if r.Some? then
      SuffixesStartWithLetter();
      MatchAtSome(s, Suffixes, r.value.start);
      r
    else r
  }

  /** The search succeeds exactly when the pattern occurs somewhere. */
  lemma SearchNone(s: string, ws: seq<string>)
    requires LetterInitial(ws)
    ensures SearchFrom(s, ws, 0).None? <==> forall i, d, p, n :: !StreetAt(s, ws, i, d, p, n)
  {
    if SearchFrom(s, ws, 0).None? {
      forall i, d, p, n | StreetAt(s, ws, i, d, p, n)
        ensures false
      {
        StreetAtBounds(s, ws, i, d, p, n);
        MatchAtNone(s, ws, i);
      }
    } else {
      MatchAtSome(s, ws, SearchFrom(s, ws, 0).value.start);
    }
  }

  lemma StreetSearchNone(s: string)
    ensures StreetSearch(s).None? <==> forall i, d, p, n :: !StreetAt(s, Suffixes, i, d, p, n)
  {
    SuffixesStartWithLetter();
    SearchNone(s, Suffixes);
  }

  /** The match Python's backtracking search reports: the pattern matches
      from `a` and from no earlier position; from `a`, no later position
      of an alternative works; at `p`, no earlier alternative works. */
  ghost predicate LeftmostAt(s: string, ws: seq<string>, a: int, d: int, p: int, n: int)
  {
    FirstFound(s, ws, a, d, p, n)
    && forall i, d', p', n' :: i < a ==> !StreetAt(s, ws, i, d', p', n')
  }

  /** What the search finds is that match. */
  lemma SearchSome(s: string, ws: seq<string>)
    requires LetterInitial(ws)
    requires SearchFrom(s, ws, 0).Some?
    ensures var m := SearchFrom(s, ws, 0).value;
            exists d, p, n :: LeftmostAt(s, ws, m.start, d, p, n) && m.end == p + |ws[n]|
  {
    var m := SearchFrom(s, ws, 0).value;
    MatchAtSome(s, ws, m.start);
    var d, p, n :| FirstFound(s, ws, m.start, d, p, n) && m.end == p + |ws[n]|;
    forall i, d', p', n' | i < m.start && StreetAt(s, ws, i, d', p', n')
      ensures false
    {
      StreetAtBounds(s, ws, i, d', p', n');
      MatchAtNone(s, ws, i);
    }
    assert LeftmostAt(s, ws, m.start, d, p, n);
  }

  lemma StreetSearchSome(s: string)
    requires StreetSearch(s).Some?
    ensures var m := StreetSearch(s).value;
            exists d, p, n :: LeftmostAt(s, Suffixes, m.start, d, p, n) && m.end == p + |Suffixes[n]|
  {
    SuffixesStartWithLetter();
    SearchSome(s, Suffixes);
  }

  /** The span `[a, e)` is the match Python's search reports for the
      street pattern. */
  ghost predicate Reported(s: string, a: int, e: int)
  {
    exists d, p, n :: LeftmostAt(s, Suffixes, a, d, p, n) && e == p + |Suffixes[n]|
  }

  /** Wherever the pattern occurs, the search reports its leftmost match. */
  lemma StreetSearchFinds(s: string, i: int, d: int, p: int, n: int)
    requires StreetAt(s, Suffixes, i, d, p, n)
    ensures StreetSearch(s).Some?
    ensures Reported(s, StreetSearch(s).value.start, StreetSearch(s).value.end)
  {
    StreetSearchNone(s);
    StreetSearchSome(s);
  }
}
