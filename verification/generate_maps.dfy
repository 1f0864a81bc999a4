/** scripts/generate_maps.py: cleaning and completing addresses, removing
    repeated events, naming map images and clearing out superseded ones.
    Geocoding, drawing tiles and the file system are outside the model: the
    set of files present, the MD5 digest, whether an address can be located
    and whether a map is drawn are parameters. */
module Maps {
  import opened Base
  import opened Text
  import opened Slug
  import opened Events

  // ---------------------------------------------------------------------
  // clean_address: the two deletions

  /** The secondary-unit words of the first pattern, in the order the
      alternation lists them, lower-cased (the pattern ignores case). */
  const UnitWords: seq<string> := ["suite", "ste", "unit", "apartment", "apt", "room", "rm", "office", "ofc"]

  /** The class `[\w\d-]`. */
  predicate IsTokenChar(c: char) { IsWord(c) || c == '-' }

  /** The two deletion patterns:
      `,?\s+(Suite|Ste|Unit|Apartment|Apt|Room|Rm|Office|Ofc)\.?\s+[\w\d-]+`
      and `,?\s+#\s*[\w\d-]+`, both ignoring case. The first carries its
      list of unit words, lower-cased. */
  datatype Pattern = UnitPattern(words: seq<string>) | HashPattern

  /** The unit pattern of `clean_address`. */
  const Unit: Pattern := UnitPattern(UnitWords)

  /** Every word is non-empty and spelled in lower-case letters. */
  predicate LowerWords(words: seq<string>)
  {
    forall n :: 0 <= n < |words| ==> |words[n]| > 0 && forall i :: 0 <= i < |words[n]| ==> IsLowerLetter(words[n][i])
  }

  /** No word is a proper prefix of another, so at most one of them begins
      a text that continues with a non-letter. */
  predicate PrefixFree(words: seq<string>)
  {
    forall m, n :: 0 <= m < |words| && 0 <= n < |words| && m != n && |words[m]| <= |words[n]|
      ==> words[n][..|words[m]|] != words[m]
  }

  /** Where the run of whitespace starting at position `i` of `t` ends. */
  function SpaceEnd(t: string, i: nat): (e: nat)
    requires i <= |t|
    ensures i <= e <= |t|
    ensures e > i ==> IsSpace(t[i])
    ensures e < |t| ==> !IsSpace(t[e])
    decreases |t| - i
  {
    if i < |t| && IsSpace(t[i]) then SpaceEnd(t, i + 1) else i
  }

  /** Where the run of `[\w\d-]` characters starting at position `i` of `t`
      ends. */
  function TokenEnd(t: string, i: nat): (e: nat)
    requires i <= |t|
    ensures i <= e <= |t|
    ensures e > i ==> IsTokenChar(t[e - 1])
    ensures e < |t| ==> !IsTokenChar(t[e])
    decreases |t| - i
  {
    if i < |t| && IsTokenChar(t[i]) then TokenEnd(t, i + 1) else i
  }

  /** From index `j` on, `w` is spelled at position `k` of `t`, compared in
      lower case. */
  predicate CasedFrom(t: string, k: nat, w: string, j: nat)
    requires k + |w| <= |t| && j <= |w|
    decreases |w| - j
  {
    j == |w| || (LowerChar(t[k + j]) == w[j] && CasedFrom(t, k, w, j + 1))
  }

  /** Word number `n` of the list is spelled at position `k` of `t`, in any
      letter case. */
  predicate UnitWordAt(t: string, k: nat, words: seq<string>, n: int)
  {
    0 <= n < |words| && k + |words[n]| <= |t| && CasedFrom(t, k, words[n], 0)
  }

  /** The character-by-character comparison compares every lower-cased
      character. */
  lemma {:induction false} CasedFromIff(t: string, k: nat, w: string, j: nat)
    requires k + |w| <= |t| && j <= |w|
    ensures CasedFrom(t, k, w, j) <==> forall i :: j <= i < |w| ==> LowerChar(t[k + i]) == w[i]
    decreases |w| - j
  {
    if j < |w| {
      CasedFromIff(t, k, w, j + 1);
    }
  }

  /** The first word, from number `n` on, spelled at position `k` of `t`. */
  function UnitWordFrom(t: string, k: nat, words: seq<string>, n: nat): (r: Option<nat>)
    ensures r.Some? ==> n <= r.value < |words|
    decreases |words| - n
  {
    if n >= |words| then None
    else if UnitWordAt(t, k, words, n) then Some(n)
    else UnitWordFrom(t, k, words, n + 1)
  }

  /** The search finds the first word from number `n` on spelled at `k`,
      and finds none only when no such word is spelled there. */
  lemma {:induction false} UnitWordFromFirst(t: string, k: nat, words: seq<string>, n: nat)
    ensures var r := UnitWordFrom(t, k, words, n);
            (r.Some? ==> UnitWordAt(t, k, words, r.value) && forall m :: n <= m < r.value ==> !UnitWordAt(t, k, words, m))
            && (r.None? ==> forall m :: n <= m ==> !UnitWordAt(t, k, words, m))
    decreases |words| - n
  {
    if n < |words| && !UnitWordAt(t, k, words, n) {
      UnitWordFromFirst(t, k, words, n + 1);
    }
  }

  /** The final `[\w\d-]+` from position `e`: the end of the match. */
  function TokenFrom(t: string, e: nat): (r: Option<nat>)
    requires e <= |t|
    ensures r.Some? ==> e < r.value <= |t| && IsTokenChar(t[r.value - 1])
    ensures r.Some? ==> r.value == |t| || !IsTokenChar(t[r.value])
  {
    var f := TokenEnd(t, e);
    if f == e then None else Some(f)
  }

  /** `#\s*[\w\d-]+` from position `k`. */
  function HashFrom(t: string, k: nat): (r: Option<nat>)
    requires k <= |t|
  {
    if k < |t| && t[k] == '#' then TokenFrom(t, SpaceEnd(t, k + 1)) else None
  }

  /** `\.?\s+[\w\d-]+` from position `m`, just after the unit word. */
  function AfterUnitWord(t: string, m: nat): (r: Option<nat>)
    requires m <= |t|
  {
    SpacedTokenFrom(t, if m < |t| && t[m] == '.' then m + 1 else m)
  }

  /** `\s+[\w\d-]+` from position `d`. */
  function SpacedTokenFrom(t: string, d: nat): (r: Option<nat>)
    requires d <= |t|
  {
    var e := SpaceEnd(t, d);
    if e == d then None else TokenFrom(t, e)
  }

  /** `(Suite|...|Ofc)\.?\s+[\w\d-]+` from position `k`, the words tried
      in order from number `n` on. The rest of the pattern is matched after
      the first word that fits; for a list in which no word begins another
      at most one word fits, so no other alternative could be tried. */
  function UnitFrom(t: string, words: seq<string>, k: nat, n: nat): (r: Option<nat>)
    requires k <= |t|
    ensures r.Some? ==> k < r.value <= |t| && IsTokenChar(t[r.value - 1])
    ensures r.Some? ==> r.value == |t| || !IsTokenChar(t[r.value])
    decreases |words| - n
  {
    if n >= |words| then None
    else if UnitWordAt(t, k, words, n) then AfterUnitWord(t, k + |words[n]|)
    else UnitFrom(t, words, k, n + 1)
  }

  /** The length of the match of `p` at the start of `t`, if there is one.
      The optional comma, the optional dot and the greedy runs never need
      to give anything back: what follows each of them cannot begin with
      the character they would release. */
  function MatchLen(p: Pattern, t: string): (r: Option<nat>)
    ensures r.Some? ==> 0 < r.value <= |t| && (t[0] == ',' || IsSpace(t[0]))
    ensures r.Some? ==> IsTokenChar(t[r.value - 1]) && (r.value == |t| || !IsTokenChar(t[r.value]))
  {
    var c := if |t| > 0 && t[0] == ',' then 1 else 0;
    var k := SpaceEnd(t, c);
    if k == c then None
    else if p.HashPattern? then HashFrom(t, k)
    else UnitFrom(t, p.words, k, 0)
  }

  /** A matcher reports, for a text, the length of the match at its start;
      a match is never empty and never longer than the text. */
  ghost predicate Advances(m: string -> Option<nat>)
  {
    forall t :: m(t).Some? ==> 0 < m(t).value <= |t|
  }

  /** `re.sub(pattern, '', t)` for the pattern `m` recognises: every match,
      leftmost first and without overlap, deleted. */
  function Delete(m: string -> Option<nat>, t: string): (r: string)
    requires Advances(m)
    ensures |r| <= |t|
    decreases |t|
  {
    if |t| == 0 then ""
    else
      match m(t)
      case Some(n) => Delete(m, t[n..])
      case None => [t[0]] + Delete(m, t[1..])
  }

  function Matcher(p: Pattern): (m: string -> Option<nat>)
    ensures Advances(m)
  {
    t => MatchLen(p, t)
  }

  /** One deletion pass of `clean_address` (`re.sub(pattern, '', t,
      flags=re.IGNORECASE)`). */
  function Remove(p: Pattern, t: string): (r: string)
    ensures |r| <= |t|
  {
    Delete(Matcher(p), t)
  }

  /** The pattern matches somewhere in `t`. */
  predicate Occurs(p: Pattern, t: string)
  {
    exists j :: 0 <= j < |t| && MatchLen(p, t[j..]).Some?
  }

  lemma {:induction false} DeleteKeeps(m: string -> Option<nat>, t: string)
    requires Advances(m)
    requires forall j :: 0 <= j < |t| ==> m(t[j..]).None?
    ensures Delete(m, t) == t
    decreases |t|
  {
    if |t| > 0 {
      assert t[0..] == t;
      forall j | 0 <= j < |t| - 1
        ensures m(t[1..][j..]).None?
      {
        assert t[1..][j..] == t[j + 1..];
      }
      DeleteKeeps(m, t[1..]);
    }
  }

  lemma {:induction false} DeleteShrinks(m: string -> Option<nat>, t: string, j: nat)
    requires Advances(m)
    requires j < |t| && m(t[j..]).Some?
    ensures |Delete(m, t)| < |t|
    decreases |t|
  {
    assert t[0..] == t;
    if m(t).None? {
      assert t[1..][j - 1..] == t[j..];
      DeleteShrinks(m, t[1..], j - 1);
    }
  }

  /** A deletion pass changes the text exactly when the pattern occurs in it. */
  lemma RemoveUnchangedIff(p: Pattern, t: string)
    ensures Remove(p, t) == t <==> !Occurs(p, t)
  {
    if Occurs(p, t) {
      var j :| 0 <= j < |t| && MatchLen(p, t[j..]).Some?;
      DeleteShrinks(Matcher(p), t, j);
    } else {
      DeleteKeeps(Matcher(p), t);
    }
  }

  /** A text that is one match is deleted entirely. */
  lemma DeleteWhole(m: string -> Option<nat>, t: string)
    requires Advances(m) && |t| > 0 && m(t) == Some(|t|)
    ensures Delete(m, t) == ""
  {
    assert t[|t|..] == "";
  }

  /** When no match starting in `a` can run past its end into `b`,
      deleting from `a + b` deletes from each part separately. */
  lemma {:induction false} DeleteAppend(m: string -> Option<nat>, a: string, b: string)
    requires Advances(m)
    requires forall j {:trigger m(a[j..])} :: 0 <= j < |a| ==> m(a[j..] + b) == m(a[j..])
    ensures Delete(m, a + b) == Delete(m, a) + Delete(m, b)
    decreases |a|
  {
    var t := a + b;
    if |a| == 0 {
      assert t == b;
    } else {
      assert m(t) == m(a) by {
        assert a[0..] == a;
      }
      if m(a).Some? {
        var n := m(a).value;
        DeleteAppendRest(m, a, b, n);
        DropAppend(a, b, n);
        DeleteAppend(m, a[n..], b);
      } else {
        DeleteAppendRest(m, a, b, 1);
        DropAppend(a, b, 1);
        DeleteAppend(m, a[1..], b);
        assert t[0] == a[0];
      }
    }
  }

  /** What `DeleteAppend` asks of `a` holds of every suffix of `a`. */
  lemma DeleteAppendRest(m: string -> Option<nat>, a: string, b: string, n: nat)
    requires n <= |a|
    requires forall j {:trigger m(a[j..])} :: 0 <= j < |a| ==> m(a[j..] + b) == m(a[j..])
    ensures forall j {:trigger m(a[n..][j..])} :: 0 <= j < |a[n..]| ==> m(a[n..][j..] + b) == m(a[n..][j..])
  {
    forall j | 0 <= j < |a[n..]|
      ensures m(a[n..][j..] + b) == m(a[n..][j..])
    {
      assert a[n..][j..] == a[n + j..];
    }
  }

  // A comma can only begin a match, so text before a comma is cleaned
  // independently of the text from the comma on.

  lemma {:induction false} SpaceEndAppend(a: string, b: string, i: nat)
    requires i <= |a| && |b| > 0 && !IsSpace(b[0])
    ensures SpaceEnd(a + b, i) == SpaceEnd(a, i)
    decreases |a| - i
  {
    if i < |a| {
      assert (a + b)[i] == a[i];
      SpaceEndAppend(a, b, i + 1);
    } else {
      assert (a + b)[i] == b[0];
    }
  }

  lemma {:induction false} TokenEndAppend(a: string, b: string, i: nat)
    requires i <= |a| && |b| > 0 && !IsTokenChar(b[0])
    ensures TokenEnd(a + b, i) == TokenEnd(a, i)
    decreases |a| - i
  {
    if i < |a| {
      assert (a + b)[i] == a[i];
      TokenEndAppend(a, b, i + 1);
    } else {
      assert (a + b)[i] == b[0];
    }
  }

  lemma {:induction false} CasedFromAppend(a: string, b: string, k: nat, w: string, j: nat)
    requires k + |w| <= |a| && j <= |w|
    ensures CasedFrom(a + b, k, w, j) == CasedFrom(a, k, w, j)
    decreases |w| - j
  {
    if j < |w| {
      assert (a + b)[k + j] == a[k + j];
      CasedFromAppend(a, b, k, w, j + 1);
    }
  }

  lemma UnitWordAtAppend(a: string, b: string, k: nat, words: seq<string>, n: int)
    requires LowerWords(words)
    requires k <= |a| && |b| > 0 && NonLetter(b[0])
    ensures UnitWordAt(a + b, k, words, n) == UnitWordAt(a, k, words, n)
  {
    if 0 <= n < |words| {
      var w := words[n];
      if k + |w| <= |a| {
        CasedFromAppend(a, b, k, w, 0);
      } else if k + |w| <= |a + b| {
        CasedFromIff(a + b, k, w, 0);
        assert (a + b)[k + (|a| - k)] == b[0];
        assert IsLowerLetter(w[|a| - k]);
      }
    }
  }

  lemma {:induction false} UnitFromAppend(a: string, b: string, words: seq<string>, k: nat, n: nat)
    requires LowerWords(words)
    requires k <= |a| && |b| > 0 && b[0] == ','
    ensures UnitFrom(a + b, words, k, n) == UnitFrom(a, words, k, n)
    decreases |words| - n
  {
    if n < |words| {
      UnitWordAtAppend(a, b, k, words, n);
      if UnitWordAt(a, k, words, n) {
        AfterUnitWordAppend(a, b, k + |words[n]|);
      } else {
        UnitFromAppend(a, b, words, k, n + 1);
      }
    }
  }

  lemma TokenFromAppend(a: string, b: string, e: nat)
    requires |b| > 0 && b[0] == ',' && e <= |a|
    ensures TokenFrom(a + b, e) == TokenFrom(a, e)
  {
    TokenEndAppend(a, b, e);
  }

  lemma HashFromAppend(a: string, b: string, k: nat)
    requires |b| > 0 && b[0] == ',' && k <= |a|
    ensures HashFrom(a + b, k) == HashFrom(a, k)
  {
    if k < |a| && a[k] == '#' {
      assert (a + b)[k] == '#';
      SpaceEndAppend(a, b, k + 1);
      TokenFromAppend(a, b, SpaceEnd(a, k + 1));
    } else {
      assert (a + b)[k] == (if k < |a| then a[k] else b[0]);
    }
  }

  lemma SpacedTokenFromAppend(a: string, b: string, d: nat)
    requires |b| > 0 && b[0] == ',' && d <= |a|
    ensures SpacedTokenFrom(a + b, d) == SpacedTokenFrom(a, d)
  {
    SpaceEndAppend(a, b, d);
    TokenFromAppend(a, b, SpaceEnd(a, d));
  }

  lemma AfterUnitWordAppend(a: string, b: string, m: nat)
    requires |b| > 0 && b[0] == ',' && m <= |a|
    ensures AfterUnitWord(a + b, m) == AfterUnitWord(a, m)
  {
    assert (a + b)[m] == (if m < |a| then a[m] else b[0]);
    SpacedTokenFromAppend(a, b, if m < |a| && a[m] == '.' then m + 1 else m);
  }

  lemma MatchLenAppend(p: Pattern, a: string, b: string)
    requires p.UnitPattern? ==> LowerWords(p.words)
    requires |a| > 0 && |b| > 0 && b[0] == ','
    ensures MatchLen(p, a + b) == MatchLen(p, a)
  {
    var c := if a[0] == ',' then 1 else 0;
    assert (a + b)[0] == a[0];
    SpaceEndAppend(a, b, c);
    var k := SpaceEnd(a, c);
    if k != c {
      if p.HashPattern? {
        HashFromAppend(a, b, k);
      } else {
        UnitFromAppend(a, b, p.words, k, 0);
      }
    }
  }

  /** Cleaning distributes over a split just before a comma. */
  lemma RemoveAppend(p: Pattern, a: string, b: string)
    requires p.UnitPattern? ==> LowerWords(p.words)
    requires |b| > 0 && b[0] == ','
    ensures Remove(p, a + b) == Remove(p, a) + Remove(p, b)
  {
    forall j | 0 <= j < |a|
      ensures Matcher(p)(a[j..] + b) == Matcher(p)(a[j..])
    {
      MatchLenAppend(p, a[j..], b);
    }
    DeleteAppend(Matcher(p), a, b);
  }

  // Before ` #` the same holds when the text ends in a letter, digit or
  // dash: no match can take in the space, since what it would need after
  // the space is a unit word or a token, never `#`, and the number-sign
  // pattern needs the space to begin its own match.

  /** A run of whitespace inside `a`, which does not end in whitespace, is
      the same run in `a + b`. */
  lemma {:induction false} SpaceEndBefore(a: string, b: string, i: nat)
    requires i < |a| && !IsSpace(a[|a| - 1])
    ensures SpaceEnd(a + b, i) == SpaceEnd(a, i) < |a|
    decreases |a| - i
  {
    assert (a + b)[i] == a[i];
    if IsSpace(a[i]) {
      SpaceEndBefore(a, b, i + 1);
    }
  }

  /** A text ending in a letter, digit or dash followed by ` #`. */
  predicate SpacedHashSplit(a: string, b: string)
  {
    |a| > 0 && IsTokenChar(a[|a| - 1]) && |b| >= 2 && b[0] == ' ' && b[1] == '#'
  }

  lemma AfterUnitWordSpacedAppend(a: string, b: string, m: nat)
    requires SpacedHashSplit(a, b) && m <= |a|
    ensures AfterUnitWord(a + b, m) == AfterUnitWord(a, m)
  {
    var t := a + b;
    TokenCharNotSpace(a[|a| - 1]);
    if m == |a| {
      assert t[m] == ' ' && t[m + 1] == '#';
      SpaceEndIs(t, m, m + 1);
    } else {
      assert t[m] == a[m];
      var d := if a[m] == '.' then m + 1 else m;
      SpaceEndBefore(a, b, d);
      TokenEndAppend(a, b, SpaceEnd(a, d));
    }
  }

  lemma {:induction false} UnitFromSpacedAppend(a: string, b: string, words: seq<string>, k: nat, n: nat)
    requires LowerWords(words)
    requires SpacedHashSplit(a, b) && k <= |a|
    ensures UnitFrom(a + b, words, k, n) == UnitFrom(a, words, k, n)
    decreases |words| - n
  {
    if n < |words| {
      UnitWordAtAppend(a, b, k, words, n);
      if UnitWordAt(a, k, words, n) {
        AfterUnitWordSpacedAppend(a, b, k + |words[n]|);
      } else {
        UnitFromSpacedAppend(a, b, words, k, n + 1);
      }
    }
  }

  lemma MatchLenSpacedAppend(p: Pattern, a: string, b: string)
    requires p.UnitPattern? ==> LowerWords(p.words)
    requires SpacedHashSplit(a, b)
    ensures MatchLen(p, a + b) == MatchLen(p, a)
  {
    var t := a + b;
    var c := if a[0] == ',' then 1 else 0;
    assert t[0] == a[0];
    TokenCharNotSpace(a[|a| - 1]);
    SpaceEndBefore(a, b, c);
    var k := SpaceEnd(a, c);
    if k != c {
      if p.HashPattern? {
        HashFromSpacedAppend(a, b, k);
      } else {
        UnitFromSpacedAppend(a, b, p.words, k, 0);
      }
    }
  }

  lemma HashFromSpacedAppend(a: string, b: string, k: nat)
    requires SpacedHashSplit(a, b) && k < |a|
    ensures HashFrom(a + b, k) == HashFrom(a, k)
  {
    assert (a + b)[k] == a[k];
    if a[k] == '#' {
      TokenCharNotSpace(a[|a| - 1]);
      SpaceEndBefore(a, b, k + 1);
      TokenEndAppend(a, b, SpaceEnd(a, k + 1));
    }
  }

  /** Cleaning distributes over a split between a letter, digit or dash
      and ` #`. */
  lemma RemoveSpacedAppend(p: Pattern, a: string, b: string)
    requires p.UnitPattern? ==> LowerWords(p.words)
    requires SpacedHashSplit(a, b)
    ensures Remove(p, a + b) == Remove(p, a) + Remove(p, b)
  {
    forall j | 0 <= j < |a|
      ensures Matcher(p)(a[j..] + b) == Matcher(p)(a[j..])
    {
      assert a[j..][|a[j..]| - 1] == a[|a| - 1];
      MatchLenSpacedAppend(p, a[j..], b);
    }
    DeleteAppend(Matcher(p), a, b);
  }

  /** The unit words of `clean_address` are lower-case letters, and none is
      a proper prefix of another. */
  lemma UnitWordsWellFormed()
    ensures LowerWords(UnitWords) && PrefixFree(UnitWords)
  {
    forall m | 0 <= m < |UnitWords|
      ensures forall n :: 0 <= n < |UnitWords| && m != n && |UnitWords[m]| <= |UnitWords[n]|
                ==> UnitWords[n][..|UnitWords[m]|] != UnitWords[m]
    {
      UnitWordsNoPrefix(m);
    }
  }

  lemma UnitWordsNoPrefix(m: nat)
    requires m < |UnitWords|
    ensures forall n :: 0 <= n < |UnitWords| && m != n && |UnitWords[m]| <= |UnitWords[n]|
              ==> UnitWords[n][..|UnitWords[m]|] != UnitWords[m]
  {
    var w := UnitWords[m];
    forall n | 0 <= n < |UnitWords| && m != n && |w| <= |UnitWords[n]|
      ensures UnitWords[n][..|w|] != w
    {
      var v := UnitWords[n];
      assert v[..|w|][0] == v[0];
      if v[0] == w[0] {
        assert v[..|w|][1] == v[1];
        if v[1] == w[1] {
          assert v[..|w|][2] == v[2];
        }
      }
    }
  }

  /** A character that is not a letter. */
  predicate NonLetter(c: char)
  {
    !IsUpper(c) && !IsLowerLetter(c)
  }

  /** A word of the list spelled at `k` and followed by a non-letter is the
      only word of the list spelled there. */
  lemma UnitWordOnlyAt(t: string, k: nat, words: seq<string>, n: nat)
    requires LowerWords(words) && PrefixFree(words) && UnitWordAt(t, k, words, n)
    requires k + |words[n]| < |t| && NonLetter(t[k + |words[n]|])
    ensures UnitWordFrom(t, k, words, 0) == Some(n)
  {
    var v := words[n];
    CasedFromIff(t, k, v, 0);
    forall m | 0 <= m < |words| && m != n
      ensures !UnitWordAt(t, k, words, m)
    {
      var w := words[m];
      if UnitWordAt(t, k, words, m) {
        CasedFromIff(t, k, w, 0);
      }
    }
    UnitWordFromFirst(t, k, words, 0);
  }

  /** No word of the list is spelled where a non-letter stands. */
  lemma UnitWordFromNonLetter(t: string, k: nat, words: seq<string>)
    requires LowerWords(words)
    requires k < |t| && NonLetter(t[k])
    ensures UnitWordFrom(t, k, words, 0).None?
  {
    UnitWordFromFirst(t, k, words, 0);
  }

  /** A run of whitespace from `i` to `e`, not followed by another. */
  lemma {:induction false} SpaceEndIs(t: string, i: nat, e: nat)
    requires i <= e <= |t| && (forall j :: i <= j < e ==> IsSpace(t[j]))
    requires e == |t| || !IsSpace(t[e])
    ensures SpaceEnd(t, i) == e
    decreases e - i
  {
    if i < e {
      SpaceEndIs(t, i + 1, e);
    }
  }

  /** A run of `[\w\d-]` from `i` to the end of `t`. */
  lemma {:induction false} TokenEndAll(t: string, i: nat)
    requires i <= |t| && forall j :: i <= j < |t| ==> IsTokenChar(t[j])
    ensures TokenEnd(t, i) == |t|
    decreases |t| - i
  {
    if i < |t| {
      TokenEndAll(t, i + 1);
    }
  }

  /** No character of a token is whitespace. */
  lemma TokenCharNotSpace(c: char)
    requires IsTokenChar(c)
    ensures !IsSpace(c) && c != '.'
  {
  }

  /** The unit pattern at `k` goes on after the first word of the list,
      from number `n` on, spelled there. */
  lemma {:induction false} UnitFromFound(t: string, words: seq<string>, k: nat, n: nat, w: nat)
    requires k <= |t| && UnitWordFrom(t, k, words, n) == Some(w)
    ensures w < |words| && k + |words[w]| <= |t| && UnitFrom(t, words, k, n) == AfterUnitWord(t, k + |words[w]|)
    decreases |words| - n
  {
    if !UnitWordAt(t, k, words, n) {
      UnitFromFound(t, words, k, n + 1, w);
    }
  }

  /** No unit match at `k` when no word of the list is spelled there. */
  lemma {:induction false} UnitFromNotFound(t: string, words: seq<string>, k: nat, n: nat)
    requires k <= |t| && UnitWordFrom(t, k, words, n).None?
    ensures UnitFrom(t, words, k, n).None?
    decreases |words| - n
  {
    if n < |words| {
      UnitFromNotFound(t, words, k, n + 1);
    }
  }

  /** `, Suite 120`, in any letter case and with any unit word and token,
      is one match of the unit pattern from its comma to its end. */
  lemma UnitTailMatches(words: seq<string>, k: string, tok: string)
    requires LowerWords(words) && PrefixFree(words) && Lower(k) in words
    requires |tok| > 0 && forall i :: 0 <= i < |tok| ==> IsTokenChar(tok[i])
    ensures MatchLen(UnitPattern(words), ", " + k + " " + tok) == Some(|k| + |tok| + 3)
  {
    var t := ", " + k + " " + tok;
    var w := UnitTailWord(words, k, tok, t);
    UnitTailToken(k, tok, t);
    UnitTailMatch(words, t, |k|, w);
  }

  /** In `, Suite 120` the separator ends at the unit word, which the search
      finds. */
  lemma UnitTailWord(words: seq<string>, k: string, tok: string, t: string) returns (w: nat)
    requires LowerWords(words) && PrefixFree(words) && Lower(k) in words
    requires t == ", " + k + " " + tok
    ensures |t| == |k| + |tok| + 3 && t[0] == ',' && SpaceEnd(t, 1) == 2
    ensures w < |words| && |words[w]| == |k| && UnitWordFrom(t, 2, words, 0) == Some(w)
  {
    var n :| 0 <= n < |words| && words[n] == Lower(k);
    assert forall i :: 0 <= i < |k| ==> t[2 + i] == k[i];
    CasedFromIff(t, 2, words[n], 0);
    assert t[2 + |k|] == ' ';
    UnitWordOnlyAt(t, 2, words, n);
    assert LowerChar(t[2]) == words[n][0];
    SpaceEndIs(t, 1, 2);
    w := n;
  }

  /** In `, Suite 120` one space and the token follow the unit word, to the
      end. */
  lemma UnitTailToken(k: string, tok: string, t: string)
    requires |tok| > 0 && forall i :: 0 <= i < |tok| ==> IsTokenChar(tok[i])
    requires t == ", " + k + " " + tok
    ensures var m := 2 + |k|;
            m + 1 < |t| && t[m] == ' ' && SpaceEnd(t, m) == m + 1 && TokenEnd(t, m + 1) == |t|
  {
    var m := 2 + |k|;
    forall i | m < i < |t|
      ensures IsTokenChar(t[i])
    {
      assert t[i] == tok[i - m - 1];
    }
    assert t[m] == ' ';
    TokenCharNotSpace(t[m + 1]);
    SpaceEndIs(t, m, m + 1);
    TokenEndAll(t, m + 1);
  }

  /** A text laid out as `, Suite 120` is one match of the unit pattern. */
  lemma UnitTailMatch(words: seq<string>, t: string, len: nat, w: nat)
    requires |t| > 0 && t[0] == ',' && SpaceEnd(t, 1) == 2
    requires w < |words| && |words[w]| == len && UnitWordFrom(t, 2, words, 0) == Some(w)
    requires var m := 2 + len;
             m + 1 < |t| && t[m] == ' ' && SpaceEnd(t, m) == m + 1 && TokenEnd(t, m + 1) == |t|
    ensures MatchLen(UnitPattern(words), t) == Some(|t|)
  {
    UnitFromFound(t, words, 2, 0, w);
  }

  /** `, #225` is one match of the number-sign pattern. */
  lemma HashTailMatches(tok: string)
    requires |tok| > 0 && forall i :: 0 <= i < |tok| ==> IsTokenChar(tok[i])
    ensures MatchLen(HashPattern, ", #" + tok) == Some(|tok| + 3)
  {
    var t := ", #" + tok;
    HashTailRuns(tok, t);
    HashTailMatch(t);
  }

  /** In `, #225` the separator ends at the `#`, and the token runs from
      just after it to the end. */
  lemma HashTailRuns(tok: string, t: string)
    requires |tok| > 0 && forall i :: 0 <= i < |tok| ==> IsTokenChar(tok[i])
    requires t == ", #" + tok
    ensures |t| == |tok| + 3 && t[0] == ',' && t[2] == '#'
    ensures SpaceEnd(t, 1) == 2 && SpaceEnd(t, 3) == 3 && TokenEnd(t, 3) == |t|
  {
    assert t[0] == ',' && t[1] == ' ' && t[2] == '#';
    forall i | 3 <= i < |t|
      ensures IsTokenChar(t[i])
    {
      assert t[i] == tok[i - 3];
    }
    SpaceEndIs(t, 1, 2);
    TokenCharNotSpace(t[3]);
    SpaceEndIs(t, 3, 3);
    TokenEndAll(t, 3);
  }

  /** A text laid out as `, #225` is one match of the number-sign pattern. */
  lemma HashTailMatch(t: string)
    requires |t| > 3 && t[0] == ',' && t[2] == '#'
    requires SpaceEnd(t, 1) == 2 && SpaceEnd(t, 3) == 3 && TokenEnd(t, 3) == |t|
    ensures MatchLen(HashPattern, t) == Some(|t|)
  {
  }

  /** ` #225` is one match of the number-sign pattern. */
  lemma SpacedHashTailMatches(tok: string)
    requires |tok| > 0 && forall i :: 0 <= i < |tok| ==> IsTokenChar(tok[i])
    ensures MatchLen(HashPattern, " #" + tok) == Some(|tok| + 2)
  {
    var t := " #" + tok;
    forall i | 2 <= i < |t|
      ensures IsTokenChar(t[i])
    {
      assert t[i] == tok[i - 2];
    }
    SpaceEndIs(t, 0, 1);
    TokenCharNotSpace(t[2]);
    SpaceEndIs(t, 2, 2);
    TokenEndAll(t, 2);
  }

  /** The unit pattern occurs nowhere in ` #225`. */
  lemma SpacedHashTailHasNoUnit(words: seq<string>, tok: string)
    requires LowerWords(words)
    requires forall i :: 0 <= i < |tok| ==> IsTokenChar(tok[i])
    ensures !Occurs(UnitPattern(words), " #" + tok)
  {
    var t := " #" + tok;
    forall j | 0 <= j < |t|
      ensures MatchLen(UnitPattern(words), t[j..]).None?
    {
      assert (", #" + tok)[j + 1..] == t[j..];
      HashTailSuffix(words, tok, j + 1);
    }
  }

  /** Both patterns start with a comma or whitespace. */
  lemma NoMatchAtOther(p: Pattern, u: string)
    requires |u| > 0 && u[0] != ',' && !IsSpace(u[0])
    ensures MatchLen(p, u).None?
  {
  }

  /** No unit match where no unit word follows the separator. */
  lemma NoUnitBeforeHash(u: string, words: seq<string>, k: nat)
    requires var c := if |u| > 0 && u[0] == ',' then 1 else 0;
             c < k && SpaceEnd(u, c) == k && UnitWordFrom(u, k, words, 0).None?
    ensures MatchLen(UnitPattern(words), u).None?
  {
    UnitFromNotFound(u, words, k, 0);
  }

  /** The unit pattern occurs nowhere in `, #225`. */
  lemma HashTailHasNoUnit(words: seq<string>, tok: string)
    requires LowerWords(words)
    requires forall i :: 0 <= i < |tok| ==> IsTokenChar(tok[i])
    ensures !Occurs(UnitPattern(words), ", #" + tok)
  {
    var t := ", #" + tok;
    forall j | 0 <= j < |t|
      ensures MatchLen(UnitPattern(words), t[j..]).None?
    {
      HashTailSuffix(words, tok, j);
    }
  }

  lemma HashTailSuffix(words: seq<string>, tok: string, j: nat)
    requires LowerWords(words)
    requires forall i :: 0 <= i < |tok| ==> IsTokenChar(tok[i])
    requires j < |tok| + 3
    ensures MatchLen(UnitPattern(words), (", #" + tok)[j..]).None?
  {
    var t := ", #" + tok;
    var u := t[j..];
    if j == 0 {
      assert u[0] == ',' && u[1] == ' ' && u[2] == '#';
      SpaceEndIs(u, 1, 2);
      UnitWordFromNonLetter(u, 2, words);
      NoUnitBeforeHash(u, words, 2);
    } else if j == 1 {
      assert u[0] == ' ' && u[1] == '#';
      SpaceEndIs(u, 0, 1);
      UnitWordFromNonLetter(u, 1, words);
      NoUnitBeforeHash(u, words, 1);
    } else {
      assert u[0] == t[j];
      assert j == 2 || t[j] == tok[j - 3];
      NoMatchAtOther(UnitPattern(words), u);
    }
  }

  // ---------------------------------------------------------------------
  // clean_address: `\bHwy\b` to `Highway`

  /** The whole word `Hwy`, in any letter case, at position `i`. */
  predicate HwyAt(s: string, i: int)
  {
    0 <= i && i + 3 <= |s| && Lower(s[i..i + 3]) == "hwy"
    && (i == 0 || !IsWord(s[i - 1])) && (i + 3 == |s| || !IsWord(s[i + 3]))
  }

  /** `re.sub(r'\bHwy\b', 'Highway', s[i..], flags=re.IGNORECASE)`, with the
      word boundaries judged in all of `s`. */
  function ExpandFrom(s: string, i: nat): string
    requires i <= |s|
    decreases |s| - i
  {
    if i == |s| then ""
    else if HwyAt(s, i) then "Highway" + ExpandFrom(s, i + 3)
    else [s[i]] + ExpandFrom(s, i + 1)
  }

  function ExpandHwy(s: string): string
  {
    ExpandFrom(s, 0)
  }

  /** The number of positions from `i` on where the whole word `Hwy` stands. */
  function CountHwy(s: string, i: nat): (n: nat)
    requires i <= |s|
    decreases |s| - i
  {
    if i == |s| then 0 else (if HwyAt(s, i) then 1 else 0) + CountHwy(s, i + 1)
  }

  /** Two whole words `Hwy` never overlap. */
  lemma HwyApart(s: string, i: nat)
    requires HwyAt(s, i)
    ensures !HwyAt(s, i + 1) && !HwyAt(s, i + 2)
  {
    assert LowerChar(s[i]) == Lower(s[i..i + 3])[0];
    assert LowerChar(s[i + 1]) == Lower(s[i..i + 3])[1];
  }

  /** Each whole word `Hwy` grows by four characters, and nothing else
      changes length. */
  lemma {:induction false} ExpandLength(s: string, i: nat)
    requires i <= |s|
    ensures |ExpandFrom(s, i)| == |s| - i + 4 * CountHwy(s, i)
    decreases |s| - i
  {
    if i < |s| {
      if HwyAt(s, i) {
        HwyApart(s, i);
        ExpandLength(s, i + 3);
        assert CountHwy(s, i + 2) == CountHwy(s, i + 3);
        assert CountHwy(s, i + 1) == CountHwy(s, i + 2);
      } else {
        ExpandLength(s, i + 1);
      }
    }
  }

  lemma {:induction false} ExpandKeeps(s: string, i: nat)
    requires i <= |s| && CountHwy(s, i) == 0
    ensures ExpandFrom(s, i) == s[i..]
    decreases |s| - i
  {
    if i < |s| {
      ExpandKeeps(s, i + 1);
      assert s[i..] == [s[i]] + s[i + 1..];
    }
  }

  /** The rewrite changes the text exactly when the whole word `Hwy` occurs. */
  lemma ExpandUnchangedIff(s: string)
    ensures ExpandHwy(s) == s <==> CountHwy(s, 0) == 0
  {
    ExpandLength(s, 0);
    if CountHwy(s, 0) == 0 {
      ExpandKeeps(s, 0);
    }
  }

  // ---------------------------------------------------------------------
  // clean_address

  /** `clean_address`: secondary units and number-sign suffixes deleted,
      `Hwy` written out, surrounding whitespace stripped. */
  function CleanAddress(address: string): (r: string)
    ensures |r| > 0 ==> !IsSpace(r[0]) && !IsSpace(r[|r| - 1])
  {
    Strip(ExpandHwy(Remove(HashPattern, Remove(Unit, address))))
  }

  /** Appending `, Suite 120` (any unit word, any case, any token) to an
      address does not change its cleaned form. */
  lemma CleanDropsUnit(a: string, k: string, tok: string)
    requires Lower(k) in UnitWords
    requires |tok| > 0 && forall i :: 0 <= i < |tok| ==> IsTokenChar(tok[i])
    ensures CleanAddress(a + (", " + k + " " + tok)) == CleanAddress(a)
  {
    RemoveDropsUnit(a, k, tok);
  }

  lemma RemoveDropsUnit(a: string, k: string, tok: string)
    requires Lower(k) in UnitWords
    requires |tok| > 0 && forall i :: 0 <= i < |tok| ==> IsTokenChar(tok[i])
    ensures Remove(Unit, a + (", " + k + " " + tok)) == Remove(Unit, a)
  {
    var tail := ", " + k + " " + tok;
    UnitWordsWellFormed();
    RemoveAppend(Unit, a, tail);
    UnitTailMatches(UnitWords, k, tok);
    DeleteWhole(Matcher(Unit), tail);
    assert Remove(Unit, tail) == "";
  }

  /** Appending `, #225` to an address does not change its cleaned form. */
  lemma CleanDropsHash(a: string, tok: string)
    requires |tok| > 0 && forall i :: 0 <= i < |tok| ==> IsTokenChar(tok[i])
    ensures CleanAddress(a + (", #" + tok)) == CleanAddress(a)
  {
    var tail := ", #" + tok;
    var a1 := Remove(Unit, a);
    UnitPassKeepsHashTail(a, tok);
    HashPassDropsHashTail(a1, tok);
  }

  lemma UnitPassKeepsHashTail(a: string, tok: string)
    requires forall i :: 0 <= i < |tok| ==> IsTokenChar(tok[i])
    ensures Remove(Unit, a + (", #" + tok)) == Remove(Unit, a) + (", #" + tok)
  {
    var tail := ", #" + tok;
    UnitWordsWellFormed();
    RemoveAppend(Unit, a, tail);
    HashTailHasNoUnit(UnitWords, tok);
    RemoveUnchangedIff(Unit, tail);
  }

  lemma HashPassDropsHashTail(a: string, tok: string)
    requires |tok| > 0 && forall i :: 0 <= i < |tok| ==> IsTokenChar(tok[i])
    ensures Remove(HashPattern, a + (", #" + tok)) == Remove(HashPattern, a)
  {
    var tail := ", #" + tok;
    RemoveAppend(HashPattern, a, tail);
    HashTailMatches(tok);
    DeleteWhole(Matcher(HashPattern), tail);
    assert Remove(HashPattern, tail) == "";
  }

  /** Removing `, Suite 120` from the middle of an address, before a
      further comma, does not change its cleaned form either. */
  lemma CleanDropsUnitMid(a: string, k: string, tok: string, b: string)
    requires Lower(k) in UnitWords
    requires |tok| > 0 && forall i :: 0 <= i < |tok| ==> IsTokenChar(tok[i])
    requires |b| > 0 && b[0] == ','
    ensures CleanAddress(a + (", " + k + " " + tok) + b) == CleanAddress(a + b)
  {
    var tail := ", " + k + " " + tok;
    UnitWordsWellFormed();
    RemoveAppend(Unit, a + tail, b);
    RemoveDropsUnit(a, k, tok);
    RemoveAppend(Unit, a, b);
  }

  /** Removing `, #225` from the middle of an address, before a further
      comma and a part without a unit, does not change its cleaned form. */
  lemma CleanDropsHashMid(a: string, tok: string, b: string)
    requires |tok| > 0 && forall i :: 0 <= i < |tok| ==> IsTokenChar(tok[i])
    requires |b| > 0 && b[0] == ',' && !Occurs(Unit, b)
    ensures CleanAddress(a + (", #" + tok) + b) == CleanAddress(a + b)
  {
    PassesDropHashMid(a, tok, b);
  }

  lemma PassesDropHashMid(a: string, tok: string, b: string)
    requires |tok| > 0 && forall i :: 0 <= i < |tok| ==> IsTokenChar(tok[i])
    requires |b| > 0 && b[0] == ',' && !Occurs(Unit, b)
    ensures Remove(HashPattern, Remove(Unit, a + (", #" + tok) + b))
            == Remove(HashPattern, Remove(Unit, a + b))
  {
    var tail := ", #" + tok;
    var a1 := Remove(Unit, a);
    UnitPassKeepsHashTailMid(a, tok, b);
    assert Remove(HashPattern, a1 + tail + b) == Remove(HashPattern, a1) + Remove(HashPattern, b) by {
      RemoveAppend(HashPattern, a1 + tail, b);
      HashPassDropsHashTail(a1, tok);
    }
    assert Remove(HashPattern, a1 + b) == Remove(HashPattern, a1) + Remove(HashPattern, b) by {
      RemoveAppend(HashPattern, a1, b);
    }
  }

  lemma UnitPassKeepsHashTailMid(a: string, tok: string, b: string)
    requires forall i :: 0 <= i < |tok| ==> IsTokenChar(tok[i])
    requires |b| > 0 && b[0] == ',' && !Occurs(Unit, b)
    ensures Remove(Unit, a + (", #" + tok) + b) == Remove(Unit, a) + (", #" + tok) + b
    ensures Remove(Unit, a + b) == Remove(Unit, a) + b
  {
    var tail := ", #" + tok;
    UnitWordsWellFormed();
    RemoveUnchangedIff(Unit, b);
    RemoveAppend(Unit, a + tail, b);
    UnitPassKeepsHashTail(a, tok);
    RemoveAppend(Unit, a, b);
  }

  /** Appending ` #225`, without a comma, to an address that has no unit
      part and ends in a letter, digit or dash does not change its cleaned
      form. */
  lemma CleanDropsSpacedHash(a: string, tok: string)
    requires |a| > 0 && IsTokenChar(a[|a| - 1]) && !Occurs(Unit, a)
    requires |tok| > 0 && forall i :: 0 <= i < |tok| ==> IsTokenChar(tok[i])
    ensures CleanAddress(a + (" #" + tok)) == CleanAddress(a)
  {
    UnitPassKeepsSpacedHash(a, tok);
    HashPassDropsSpacedHash(a, tok);
  }

  lemma UnitPassKeepsSpacedHash(a: string, tok: string)
    requires |a| > 0 && IsTokenChar(a[|a| - 1]) && !Occurs(Unit, a)
    requires forall i :: 0 <= i < |tok| ==> IsTokenChar(tok[i])
    ensures Remove(Unit, a + (" #" + tok)) == a + (" #" + tok)
    ensures Remove(Unit, a) == a
  {
    var tail := " #" + tok;
    UnitWordsWellFormed();
    RemoveSpacedAppend(Unit, a, tail);
    SpacedHashTailHasNoUnit(UnitWords, tok);
    RemoveUnchangedIff(Unit, tail);
    RemoveUnchangedIff(Unit, a);
  }

  lemma HashPassDropsSpacedHash(a: string, tok: string)
    requires |a| > 0 && IsTokenChar(a[|a| - 1])
    requires |tok| > 0 && forall i :: 0 <= i < |tok| ==> IsTokenChar(tok[i])
    ensures Remove(HashPattern, a + (" #" + tok)) == Remove(HashPattern, a)
  {
    var tail := " #" + tok;
    RemoveSpacedAppend(HashPattern, a, tail);
    SpacedHashTailMatches(tok);
    DeleteWhole(Matcher(HashPattern), tail);
    assert Remove(HashPattern, tail) == "";
  }

  /** An address with nothing to delete or expand and no surrounding
      whitespace is its own cleaned form. */
  lemma CleanAddressKeepsClean(a: string)
    requires !Occurs(Unit, a) && !Occurs(HashPattern, a) && CountHwy(a, 0) == 0
    requires |a| > 0 ==> !IsSpace(a[0]) && !IsSpace(a[|a| - 1])
    ensures CleanAddress(a) == a
  {
    RemoveUnchangedIff(Unit, a);
    RemoveUnchangedIff(HashPattern, a);
    ExpandUnchangedIff(a);
    TrimNoop(a, IsSpace);
  }

  // ---------------------------------------------------------------------
  // Repeated events

  /** Two events with the same title and address are one event for mapping. */
  function Key(e: Event): (string, Option<string>)
  {
    (e.title, e.address)
  }

  /** The keys of a list of events. */
  function Keys(events: seq<Event>): (r: set<(string, Option<string>)>)
    ensures forall i :: 0 <= i < |events| ==> Key(events[i]) in r
    decreases |events|
  {
    if |events| == 0 then {}
    else Keys(events[..|events| - 1]) + {Key(events[|events| - 1])}
  }

  /** Every key of the list belongs to one of its events. */
  lemma {:induction false} KeysWitness(events: seq<Event>, k: (string, Option<string>))
    requires k in Keys(events)
    ensures exists i :: 0 <= i < |events| && Key(events[i]) == k
    decreases |events|
  {
    var n := |events| - 1;
    if Key(events[n]) != k {
      KeysWitness(events[..n], k);
      var i :| 0 <= i < n && Key(events[..n][i]) == k;
      assert Key(events[i]) == k;
    }
  }

  /** No two events of the list share a key. */
  predicate DistinctKeys(events: seq<Event>)
  {
    forall i, j :: 0 <= i < j < |events| ==> Key(events[i]) != Key(events[j])
  }

  /** The reference de-duplication: each event whose key no earlier event
      has, in order. */
  function FirstOccurrences(events: seq<Event>): (r: seq<Event>)
    ensures Keys(r) == Keys(events)
    ensures DistinctKeys(r)
    decreases |events|
  {
    if |events| == 0 then []
    else
      var front := events[..|events| - 1];
      var last := events[|events| - 1];
      var rest := FirstOccurrences(front);
      if Key(last) in Keys(front) then rest
      else
        var r := rest + [last];
        assert r[..|r| - 1] == rest;
        r
  }

  /** The kept events are an order-preserving subsequence of the input. */
  lemma {:induction false} FirstOccurrencesSubsequence(events: seq<Event>)
    ensures IsSubsequence(FirstOccurrences(events), events)
    decreases |events|
  {
    if |events| > 0 {
      var front := events[..|events| - 1];
      var last := events[|events| - 1];
      FirstOccurrencesSubsequence(front);
      var rest := FirstOccurrences(front);
      if Key(last) in Keys(front) {
        SubsequenceExtend(rest, events);
      } else {
        var r := rest + [last];
        assert r[..|r| - 1] == rest;
      }
    }
  }

  /** The first event with a given key is kept. Together with `Keys`,
      `DistinctKeys` and the subsequence property this pins the result
      down: the one kept event with a key is its first occurrence. */
  lemma {:induction false} FirstOccurrenceKept(events: seq<Event>, j: nat)
    requires j < |events|
    requires forall k :: 0 <= k < j ==> Key(events[k]) != Key(events[j])
    ensures events[j] in FirstOccurrences(events)
    decreases |events|
  {
    var n := |events| - 1;
    var front := events[..n];
    if j == n {
      if Key(events[j]) in Keys(front) {
        KeysWitness(front, Key(events[j]));
        assert false;
      }
    } else {
      assert front[j] == events[j];
      FirstOccurrenceKept(front, j);
    }
  }

  /** A list without repeated keys is left as it is; so de-duplicating
      twice is de-duplicating once. */
  lemma {:induction false} DistinctKeysKept(events: seq<Event>)
    requires DistinctKeys(events)
    ensures FirstOccurrences(events) == events
    decreases |events|
  {
    if |events| > 0 {
      var n := |events| - 1;
      var front := events[..n];
      assert DistinctKeys(front);
      DistinctKeysKept(front);
      if Key(events[n]) in Keys(front) {
        KeysWitness(front, Key(events[n]));
        assert false;
      }
      assert front + [events[n]] == events;
    }
  }

  lemma DedupeIdempotent(events: seq<Event>)
    ensures FirstOccurrences(FirstOccurrences(events)) == FirstOccurrences(events)
  {
    DistinctKeysKept(FirstOccurrences(events));
  }

  lemma DedupeStep(events: seq<Event>, i: nat)
    requires i < |events|
    ensures var e := events[i];
            FirstOccurrences(events[..i + 1])
              == FirstOccurrences(events[..i]) + (if Key(e) in Keys(events[..i]) then [] else [e])
            && Keys(events[..i + 1]) == Keys(events[..i]) + {Key(e)}
  {
    var front := events[..i + 1];
    assert front[..i] == events[..i];
    assert front[i] == events[i];
  }

  /** The de-duplication loop of `main`, with the `seen` keys as a set. */
  method DedupeEvents(events: seq<Event>) returns (unique: seq<Event>)
    ensures unique == FirstOccurrences(events)
    ensures IsSubsequence(unique, events)
    ensures DistinctKeys(unique) && Keys(unique) == Keys(events)
  {
    var seen: set<(string, Option<string>)> := {};
    unique := [];
    var i := 0;
    while i < |events|
      invariant 0 <= i <= |events|
      invariant unique == FirstOccurrences(events[..i])
      invariant seen == Keys(events[..i])
    {
      var key := Key(events[i]);
      DedupeStep(events, i);
      if key !in seen {
        seen := seen + {key};
        unique := unique + [events[i]];
      }
      i := i + 1;
    }
    assert events[..i] == events;
    FirstOccurrencesSubsequence(events);
  }

  // ---------------------------------------------------------------------
  // Completing event addresses

  /** The address already names the state or the town's ZIP code (the test
      is case-sensitive). */
  predicate NamesState(address: string)
  {
    Contains(address, "CO") || Contains(address, "80027")
  }

  /** An event address without `CO` or `80027` gets the event's location,
      or the default location, appended. */
  function CompleteAddress(address: string, location: Option<string>): (r: string)
    ensures NamesState(address) ==> r == address
    ensures !NamesState(address) ==>
              |r| == |address| + 2 + |location.GetOr(DefaultLocation)|
              && StartsWith(r, address + ", ") && r[|address| + 2..] == location.GetOr(DefaultLocation)
  {
    if NamesState(address) then address
    else
      var r := address + ", " + location.GetOr(DefaultLocation);
      assert r[..|address| + 2] == address + ", ";
      r
  }

  lemma ContainsAppend(a: string, b: string, t: string)
    requires Contains(b, t)
    ensures Contains(a + b, t)
  {
    ContainsIff(b, t);
    var i :| OccursAt(b, t, i);
    assert (a + b)[|a| + i..|a| + i + |t|] == b[i..i + |t|];
    ContainsSlice(a + b, |a| + i, |a| + i + |t|);
  }

  lemma DefaultLocationNamesState()
    ensures NamesState(DefaultLocation)
  {
    assert DefaultLocation[12..14] == "CO";
    ContainsSlice(DefaultLocation, 12, 14);
  }

  /** With a location that names the state, and with the default one, the
      completed address names the state, so completing it again changes
      nothing. */
  lemma CompletionCompletes(address: string, location: Option<string>)
    requires location.None? || NamesState(location.value)
    ensures NamesState(CompleteAddress(address, location))
    ensures CompleteAddress(CompleteAddress(address, location), location) == CompleteAddress(address, location)
  {
    var l := location.GetOr(DefaultLocation);
    DefaultLocationNamesState();
    if !NamesState(address) {
      if Contains(l, "CO") {
        ContainsAppend(address + ", ", l, "CO");
      } else {
        ContainsAppend(address + ", ", l, "80027");
      }
    }
  }

  // ---------------------------------------------------------------------
  // Map file names

  predicate IsHexDigit(c: char)
  {
    '0' <= c <= '9' || 'a' <= c <= 'f'
  }

  /** What `hash_address` returns: the first eight lower-case hexadecimal
      digits of the MD5 digest of the address. */
  type Digest = s: string | |s| == 8 && forall i :: 0 <= i < |s| ==> IsHexDigit(s[i]) witness "00000000"

  /** `{maps_dir}/{slug}-{hash}-map.jpg`. */
  function MapFileName(dir: string, slug: string, h: Digest): (r: string)
    ensures |r| == |dir| + |slug| + 18
    ensures StartsWith(r, dir + "/" + slug + "-") && EndsWith(r, "-map.jpg")
    ensures r[|dir| + |slug| + 2..|dir| + |slug| + 10] == h
  {
    var p := dir + "/" + slug + "-";
    var r := p + h + "-map.jpg";
    Framed(p, h, "-map.jpg");
    r
  }

  /** Different slugs or different digests give different files in one
      directory. */
  lemma MapFileNameInjective(dir: string, a: string, h: Digest, b: string, g: Digest)
    requires MapFileName(dir, a, h) == MapFileName(dir, b, g)
    ensures a == b && h == g
  {
    var f := MapFileName(dir, a, h);
    assert f[..|dir| + 1 + |a|][|dir| + 1..] == a;
    assert f[..|dir| + 1 + |b|][|dir| + 1..] == b;
  }

  // ---------------------------------------------------------------------
  // Superseded maps

  /** The names `glob(f"{dir}/{slug}-*-map.jpg")` returns: the prefix and
      suffix around a `*` that matches any run without a `/`. */
  predicate GlobMatch(f: string, dir: string, slug: string)
  {
    var p := dir + "/" + slug + "-";
    |p| + 8 <= |f| && f[..|p|] == p && f[|f| - 8..] == "-map.jpg"
    && forall i :: |p| <= i < |f| - 8 ==> f[i] != '/'
  }

  /** The files `main` removes before drawing a map, as written: every match
      of the glob other than the file about to be drawn. */
  function StaleAsWritten(files: set<string>, dir: string, slug: string, current: string): (r: set<string>)
    ensures forall f :: f in r <==> f in files && GlobMatch(f, dir, slug) && f != current
  {
    set f | f in files && GlobMatch(f, dir, slug) && f != current
  }

  /** As written, the glob of one slug also matches the maps of any slug
      that extends it with `-`: drawing the map of `moxie` removes the map
      of `moxie-bread`. */
  lemma StaleAsWrittenTakesLongerSlug(files: set<string>, dir: string, a: string, c: string, h: Digest, g: Digest)
    requires forall i :: 0 <= i < |c| ==> c[i] != '/'
    requires MapFileName(dir, a + "-" + c, h) in files
    ensures MapFileName(dir, a + "-" + c, h) in StaleAsWritten(files, dir, a, MapFileName(dir, a, g))
  {
    var m := c + "-" + h;
    forall i | 0 <= i < |m|
      ensures m[i] != '/'
    {
      if i > |c| {
        assert m[i] == h[i - |c| - 1];
      }
    }
    GlobMatchIntro(dir, a, m);
    assert MapFileName(dir, a + "-" + c, h) == dir + "/" + a + "-" + m + "-map.jpg";
  }

  /** A name built from the glob's prefix, a middle without `/` and its
      suffix matches the glob. */
  lemma GlobMatchIntro(dir: string, slug: string, m: string)
    requires forall i :: 0 <= i < |m| ==> m[i] != '/'
    ensures GlobMatch(dir + "/" + slug + "-" + m + "-map.jpg", dir, slug)
  {
    var p := dir + "/" + slug + "-";
    var f := p + m + "-map.jpg";
    Framed(p, m, "-map.jpg");
    forall i | |p| <= i < |f| - 8
      ensures f[i] != '/'
    {
      assert f[i] == f[|p|..|p| + |m|][i - |p|];
    }
  }

  /** `{dir}/{slug}-????????-map.jpg`: the glob narrowed to the eight
      characters of a digest. */
  predicate DigestGlobMatch(f: string, dir: string, slug: string)
  {
    GlobMatch(f, dir, slug) && |f| == |dir| + |slug| + 18
  }

  /** The files removed before drawing a map: the other maps of the same
      slug. */
  function Stale(files: set<string>, dir: string, slug: string, current: string): (r: set<string>)
    ensures r <= StaleAsWritten(files, dir, slug, current)
    ensures forall f :: f in files && DigestGlobMatch(f, dir, slug) && f != current <==> f in r
  {
    set f | f in files && DigestGlobMatch(f, dir, slug) && f != current
  }

  /** The narrowed glob still removes every earlier map of the same slug. */
  lemma StaleTakesOwnMaps(files: set<string>, dir: string, a: string, h: Digest, g: Digest)
    requires h != g && MapFileName(dir, a, h) in files
    ensures MapFileName(dir, a, h) in Stale(files, dir, a, MapFileName(dir, a, g))
  {
    var f := MapFileName(dir, a, h);
    var p := dir + "/" + a + "-";
    forall i | |p| <= i < |f| - 8
      ensures f[i] != '/'
    {
      assert f[i] == h[i - |p|];
    }
    if f == MapFileName(dir, a, g) {
      MapFileNameInjective(dir, a, h, a, g);
    }
  }

  /** ... and never the map of another slug. */
  lemma StaleSparesOtherSlugs(files: set<string>, dir: string, a: string, b: string, h: Digest, current: string)
    requires a != b
    ensures MapFileName(dir, b, h) !in Stale(files, dir, a, current)
  {
    var f := MapFileName(dir, b, h);
    if DigestGlobMatch(f, dir, a) {
      DigestGlobSlug(dir, a, b, h);
      assert false;
    }
  }

  /** A map file the narrowed glob of `a` matches belongs to `a`. */
  lemma DigestGlobSlug(dir: string, a: string, b: string, h: Digest)
    requires DigestGlobMatch(MapFileName(dir, b, h), dir, a)
    ensures a == b
  {
    var f := MapFileName(dir, b, h);
    assert |a| == |b|;
    var p := dir + "/" + a + "-";
    assert f[..|p|] == p;
    assert f[..|dir| + 1 + |a|] == dir + "/" + b;
    assert p[..|dir| + 1 + |a|] == dir + "/" + a;
    assert (dir + "/" + a)[|dir| + 1..] == a;
    assert (dir + "/" + b)[|dir| + 1..] == b;
  }

  // ---------------------------------------------------------------------
  // The main loop

  /** A business as `main` reads it: its name and, when present, address. */
  datatype Business = Business(name: string, address: Option<string>)

  /** The world `main` talks to, as parameters: `hash` is `hash_address`;
      `located(a)` says whether `get_coordinates(a)`, which geocodes
      `CleanAddress(a)`, yields coordinates that are both non-zero; `drawn`
      says whether the map for a file is rendered and saved. */
  datatype Oracles = Oracles(hash: string -> Digest, located: string -> bool, drawn: string -> bool)

  /** The result of one business or event: counted as a success or not,
      and the map files present afterwards. */
  datatype Step = Step(ok: bool, files: set<string>)

  /** The map file for a name and an address. */
  function MapFor(dir: string, name: string, address: string, o: Oracles): string
  {
    MapFileName(dir, Slugify(name), o.hash(address))
  }

  /** Which files a pass removes before drawing: the matches of the glob
      as written, or only the maps of the same slug. */
  datatype Cleanup = AsWritten | DigestOnly

  /** The cleanup `c` removes `f` when drawing a map for `slug`, unless `f`
      is the map being drawn. */
  predicate Sweeps(c: Cleanup, f: string, dir: string, slug: string)
  {
    if c.AsWritten? then GlobMatch(f, dir, slug) else DigestGlobMatch(f, dir, slug)
  }

  /** The files the cleanup `c` removes. */
  function Swept(c: Cleanup, files: set<string>, dir: string, slug: string, current: string): (r: set<string>)
    ensures forall f :: f in r <==> f in files && Sweeps(c, f, dir, slug) && f != current
  {
    if c.AsWritten? then StaleAsWritten(files, dir, slug, current) else Stale(files, dir, slug, current)
  }

  /** One pass of either loop of `main` for a name (business name or event
      title) and an address (for events, already completed): nothing
      without an address; a success when the map is already there; else the
      cleanup, then a success exactly when the address is located and the
      map drawn. */
  function MapStep(dir: string, name: string, address: Option<string>, files: set<string>, o: Oracles,
                   c: Cleanup): (r: Step)
    ensures !Truthy(address) ==> r == Step(false, files)
    ensures Truthy(address) && MapFor(dir, name, address.value, o) in files ==> r == Step(true, files)
    ensures Truthy(address) && MapFor(dir, name, address.value, o) !in files ==>
              (r.ok <==> o.located(address.value) && o.drawn(MapFor(dir, name, address.value, o)))
              && r.files - {MapFor(dir, name, address.value, o)}
                 == files - Swept(c, files, dir, Slugify(name), MapFor(dir, name, address.value, o))
    ensures r.ok ==> Truthy(address) && MapFor(dir, name, address.value, o) in r.files
    ensures forall f :: f in files && f !in r.files ==>
              Truthy(address) && Sweeps(c, f, dir, Slugify(name)) && f != MapFor(dir, name, address.value, o)
    ensures forall f :: f in r.files && f !in files ==> Truthy(address) && f == MapFor(dir, name, address.value, o)
  {
    if !Truthy(address) then Step(false, files)
    else
      var slug := Slugify(name);
      var filename := MapFileName(dir, slug, o.hash(address.value));
      if filename in files then Step(true, files)
      else
        var kept := files - Swept(c, files, dir, slug, filename);
        if !o.located(address.value) then Step(false, kept)
        else if o.drawn(filename) then Step(true, kept + {filename})
        else Step(false, kept)
  }

  /** Drawing the map of `a` removes, as written, the map of a business
      whose slug extends `a` with `-`, which the cleanup limited to the
      same slug keeps. */
  lemma MapStepTakesLongerSlug(dir: string, name: string, address: string, files: set<string>, o: Oracles,
                               c: string, h: Digest)
    requires address != "" && MapFor(dir, name, address, o) !in files
    requires forall i :: 0 <= i < |c| ==> c[i] != '/'
    requires MapFileName(dir, Slugify(name) + "-" + c, h) in files
    ensures MapFileName(dir, Slugify(name) + "-" + c, h) !in MapStep(dir, name, Some(address), files, o, AsWritten).files
    ensures MapFileName(dir, Slugify(name) + "-" + c, h) in MapStep(dir, name, Some(address), files, o, DigestOnly).files
  {
    var a := Slugify(name);
    var f := MapFileName(dir, a + "-" + c, h);
    StaleAsWrittenTakesLongerSlug(files, dir, a, c, h, o.hash(address));
    assert a + "-" + c != a by {
      assert |a + "-" + c| > |a|;
    }
    StaleSparesOtherSlugs(files, dir, a, a + "-" + c, h, MapFor(dir, name, address, o));
  }

  /** What either loop of `main` works on: a business name or event title,
      and an address (for events, already completed). */
  datatype Item = Item(name: string, address: Option<string>)

  /** An event, for the map loop: its title and its completed address. */
  function EventItem(e: Event): Item
  {
    Item(e.title, if Truthy(e.address) then Some(CompleteAddress(e.address.value, e.location)) else e.address)
  }

  /** `f` is removed by the cleanup `c` for one of the first `n` items. */
  predicate MapOfSome(f: string, dir: string, items: seq<Item>, n: nat, c: Cleanup)
    requires n <= |items|
  {
    exists i :: 0 <= i < n && Sweeps(c, f, dir, Slugify(items[i].name))
  }

  /** Both loops of `main`, with the cleanup `c`: every item counted exactly
      once, and nothing removed but what the cleanup of some item takes. */
  method MapAll(dir: string, items: seq<Item>, files0: set<string>, o: Oracles, c: Cleanup)
    returns (success: nat, fail: nat, files: set<string>)
    ensures success + fail == |items|
    ensures forall f :: f in files0 && f !in files ==> MapOfSome(f, dir, items, |items|, c)
  {
    success, fail := 0, 0;
    files := files0;
    var i := 0;
    while i < |items|
      invariant 0 <= i <= |items|
      invariant success + fail == i
      invariant forall f :: f in files0 && f !in files ==> MapOfSome(f, dir, items, i, c)
    {
      var step := MapStep(dir, items[i].name, items[i].address, files, o, c);
      MapOfSomeGrows(dir, items, i, files0, files, step.files, c);
      files := step.files;
      if step.ok {
        success := success + 1;
      } else {
        fail := fail + 1;
      }
      i := i + 1;
    }
  }

  lemma MapOfSomeGrows(dir: string, items: seq<Item>, i: nat,
                       files0: set<string>, before: set<string>, after: set<string>, c: Cleanup)
    requires i < |items|
    requires forall f :: f in files0 && f !in before ==> MapOfSome(f, dir, items, i, c)
    requires forall f :: f in before && f !in after ==> Sweeps(c, f, dir, Slugify(items[i].name))
    ensures forall f :: f in files0 && f !in after ==> MapOfSome(f, dir, items, i + 1, c)
  {
  }

  /** `main` as written: businesses first, then the de-duplicated events
      with their completed addresses. Every business and every distinct
      event lands in exactly one of the two counters, and a file removed is
      a match of the glob of some business's or event's slug. */
  method GenerateMaps(dir: string, businesses: seq<Business>, events: seq<Event>, files0: set<string>, o: Oracles)
    returns (success: nat, fail: nat, files: set<string>)
    ensures success + fail == |businesses| + |FirstOccurrences(events)|
    ensures forall f :: f in files0 && f !in files ==>
              (exists b :: b in businesses && GlobMatch(f, dir, Slugify(b.name)))
              || (exists e :: e in events && GlobMatch(f, dir, Slugify(e.title)))
  {
    success, fail, files := GenerateMapsWith(dir, businesses, events, files0, o, AsWritten);
  }

  /** `main` with the cleanup limited to the same slug: a file removed is an
      older map of some business or event. */
  method GenerateMapsCorrected(dir: string, businesses: seq<Business>, events: seq<Event>, files0: set<string>, o: Oracles)
    returns (success: nat, fail: nat, files: set<string>)
    ensures success + fail == |businesses| + |FirstOccurrences(events)|
    ensures forall f :: f in files0 && f !in files ==>
              (exists b :: b in businesses && DigestGlobMatch(f, dir, Slugify(b.name)))
              || (exists e :: e in events && DigestGlobMatch(f, dir, Slugify(e.title)))
  {
    success, fail, files := GenerateMapsWith(dir, businesses, events, files0, o, DigestOnly);
  }

  /** `main` with the cleanup `c`. */
  method GenerateMapsWith(dir: string, businesses: seq<Business>, events: seq<Event>, files0: set<string>,
                          o: Oracles, c: Cleanup)
    returns (success: nat, fail: nat, files: set<string>)
    ensures success + fail == |businesses| + |FirstOccurrences(events)|
    ensures forall f :: f in files0 && f !in files ==>
              (exists b :: b in businesses && Sweeps(c, f, dir, Slugify(b.name)))
              || (exists e :: e in events && Sweeps(c, f, dir, Slugify(e.title)))
  {
    var unique := DedupeEvents(events);
    var items := BusinessItems(businesses) + EventItems(unique);
    success, fail, files := MapAll(dir, items, files0, o, c);
    forall f | f in files0 && f !in files
      ensures (exists b :: b in businesses && Sweeps(c, f, dir, Slugify(b.name)))
              || (exists e :: e in events && Sweeps(c, f, dir, Slugify(e.title)))
    {
      MapOfItemOrigin(f, dir, businesses, events, unique, c);
    }
  }

  /** A file the cleanup takes for one of the items is one it takes for a
      business or for an event the items were drawn from. */
  lemma MapOfItemOrigin(f: string, dir: string, businesses: seq<Business>, events: seq<Event>, unique: seq<Event>,
                        c: Cleanup)
    requires IsSubsequence(unique, events)
    requires MapOfSome(f, dir, BusinessItems(businesses) + EventItems(unique), |businesses| + |unique|, c)
    ensures (exists b :: b in businesses && Sweeps(c, f, dir, Slugify(b.name)))
            || (exists e :: e in events && Sweeps(c, f, dir, Slugify(e.title)))
  {
    var items := BusinessItems(businesses) + EventItems(unique);
    var k :| 0 <= k < |items| && Sweeps(c, f, dir, Slugify(items[k].name));
    if k < |businesses| {
      var b := businesses[k];
      assert items[k].name == b.name;
      assert b in businesses && Sweeps(c, f, dir, Slugify(b.name));
    } else {
      var e := unique[k - |businesses|];
      assert items[k].name == e.title;
      SubsequenceMembers(unique, events, e);
      assert e in events && Sweeps(c, f, dir, Slugify(e.title));
    }
  }

  function BusinessItems(businesses: seq<Business>): (r: seq<Item>)
    ensures |r| == |businesses|
    ensures forall i :: 0 <= i < |r| ==> r[i] == Item(businesses[i].name, businesses[i].address)
  {
    seq(|businesses|, i requires 0 <= i < |businesses| => Item(businesses[i].name, businesses[i].address))
  }

  function EventItems(events: seq<Event>): (r: seq<Item>)
    ensures |r| == |events|
    ensures forall i :: 0 <= i < |r| ==> r[i] == EventItem(events[i])
  {
    seq(|events|, i requires 0 <= i < |events| => EventItem(events[i]))
  }
}
