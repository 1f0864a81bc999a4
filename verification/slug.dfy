/** The `slugify` helper that generate_qrcodes.py, generate_maps.py,
    scrape_events.py and add_event_qrcodes.py each define with the same body:
    lower-case the text, delete every character outside `[\w\s-]`, collapse
    each run of `[\s_-]` into one hyphen, and strip hyphens from both ends. */
module Slug {
  import opened Text

  /** Characters of `[\w\s-]`, which the first substitution keeps. */
  predicate Kept(c: char) { IsWord(c) || IsSpace(c) || c == '-' }

  /** Characters of `[\s_-]`, whose runs the second substitution collapses. */
  predicate IsSeparator(c: char) { IsSpace(c) || c == '_' || c == '-' }

  predicate IsHyphen(c: char) { c == '-' }

  /** Characters a slug may contain. */
  predicate SlugChar(c: char) { IsLowerLetter(c) || IsDigit(c) || c == '-' }

  /** Hyphens at positions `i` and `i + 1`. */
  predicate HyphenPair(s: string, i: nat)
    requires i + 1 < |s|
  {
    s[i] == '-' && s[i + 1] == '-'
  }

  predicate NoDoubleHyphen(s: string)
  {
    forall i :: 0 <= i < |s| - 1 ==> !HyphenPair(s, i)
  }

  /** The shape every slug has: lower-case letters, digits and hyphens only
      (so no upper case, whitespace or underscore), no two hyphens in a row,
      and no hyphen at either end. */
  predicate IsSlug(s: string)
  {
    && (forall i :: 0 <= i < |s| ==> SlugChar(s[i]))
    && NoDoubleHyphen(s)
    && (|s| > 0 ==> s[0] != '-' && s[|s| - 1] != '-')
  }

  /** `re.sub(r'[^\w\s-]', '', s)`. */
  function RemoveDisallowed(s: string): (r: string)
    ensures |r| <= |s|
    ensures forall i :: 0 <= i < |r| ==> Kept(r[i])
    ensures (forall i :: 0 <= i < |s| ==> !IsUpper(s[i])) ==> forall i :: 0 <= i < |r| ==> !IsUpper(r[i])
    decreases |s|
  {
    if |s| == 0 then ""
    else (if Kept(s[0]) then [s[0]] else "") + RemoveDisallowed(s[1..])
  }

  /** `re.sub(r'[\s_-]+', '-', s)`: every maximal run of separators becomes a
      single hyphen; other characters are copied. */
  function CollapseSeparators(s: string): string
    decreases |s|
  {
    if |s| == 0 then ""
    else if IsSeparator(s[0]) then "-" + CollapseSeparators(TrimStart(s[1..], IsSeparator))
    else [s[0]] + CollapseSeparators(s[1..])
  }

  /** Characters `Slugify` still holds after lower-casing and the first
      substitution, when the text was plain: separators, lower-case letters
      and digits. */
  predicate SlugSource(c: char) { IsSeparator(c) || IsLowerLetter(c) || IsDigit(c) }

  /** What the collapse leaves: separators only as single hyphens, never two
      hyphens in a row, a leading hyphen exactly when the text starts with a
      separator, and only slug characters when the text held only
      separators, lower-case letters and digits. */
  lemma CollapseShape(s: string)
    ensures var r := CollapseSeparators(s);
            && (forall i :: 0 <= i < |r| ==> r[i] == '-' || !IsSeparator(r[i]))
            && NoDoubleHyphen(r)
            && (|r| > 0 ==> |s| > 0 && (r[0] == '-' <==> IsSeparator(s[0])))
            && ((forall i :: 0 <= i < |s| ==> SlugSource(s[i])) ==> forall i :: 0 <= i < |r| ==> SlugChar(r[i]))
  {
    CollapseOnlyHyphens(s);
    CollapseNoDoubleHyphen(s);
    CollapseFirst(s);
    if forall i :: 0 <= i < |s| ==> SlugSource(s[i]) {
      CollapseSlugChars(s);
    }
  }

  /** The only separator `s` holds is the hyphen. */
  predicate HyphensOnly(s: string)
  {
    forall i :: 0 <= i < |s| ==> s[i] == '-' || !IsSeparator(s[i])
  }

  /** The collapse leaves no separator but the hyphen. */
  lemma {:induction false} CollapseOnlyHyphens(s: string)
    ensures HyphensOnly(CollapseSeparators(s))
    decreases |s|
  {
    if |s| > 0 {
      if IsSeparator(s[0]) {
        CollapseOnlyHyphens(TrimStart(s[1..], IsSeparator));
      } else {
        CollapseOnlyHyphens(s[1..]);
      }
    }
  }

  /** The collapse starts with a hyphen exactly when the text starts with a
      separator. */
  lemma CollapseFirst(s: string)
    ensures |CollapseSeparators(s)| > 0 ==> |s| > 0 && (CollapseSeparators(s)[0] == '-' <==> IsSeparator(s[0]))
  {
  }

  /** The collapse never holds two hyphens in a row. */
  lemma {:induction false} CollapseNoDoubleHyphen(s: string)
    ensures NoDoubleHyphen(CollapseSeparators(s))
    decreases |s|
  {
    if |s| > 0 {
      if IsSeparator(s[0]) {
        var t := TrimStart(s[1..], IsSeparator);
        CollapseNoDoubleHyphen(t);
        CollapseFirst(t);
        NoDoubleHyphenCons('-', CollapseSeparators(t));
      } else {
        CollapseNoDoubleHyphen(s[1..]);
        NoDoubleHyphenCons(s[0], CollapseSeparators(s[1..]));
      }
    }
  }

  /** Only slug characters in `s`. */
  predicate SlugChars(s: string)
  {
    forall i :: 0 <= i < |s| ==> SlugChar(s[i])
  }

  /** Separators, lower-case letters and digits collapse to slug characters. */
  lemma {:induction false} CollapseSlugChars(s: string)
    requires forall i :: 0 <= i < |s| ==> SlugSource(s[i])
    ensures SlugChars(CollapseSeparators(s))
    decreases |s|
  {
    if |s| > 0 {
      if IsSeparator(s[0]) {
        var t := TrimStart(s[1..], IsSeparator);
        assert forall i :: 0 <= i < |t| ==> t[i] == s[|s| - |t| + i];
        CollapseSlugChars(t);
      } else {
        CollapseSlugChars(s[1..]);
      }
    }
  }

  /** Removing the first character keeps a text free of double hyphens. */
  lemma NoDoubleHyphenTail(s: string)
    requires |s| > 0 && NoDoubleHyphen(s)
    ensures NoDoubleHyphen(s[1..])
  {
    forall i | 0 <= i < |s| - 2
      ensures !HyphenPair(s[1..], i)
    {
      assert !HyphenPair(s, i + 1);
    }
  }

  /** A character put in front of a text free of double hyphens keeps it
      so, unless both are hyphens. */
  lemma NoDoubleHyphenCons(c: char, r: string)
    requires NoDoubleHyphen(r) && (c == '-' && |r| > 0 ==> r[0] != '-')
    ensures NoDoubleHyphen([c] + r)
  {
    var s := [c] + r;
    forall i | 0 <= i < |s| - 1
      ensures !HyphenPair(s, i)
    {
      if i > 0 {
        assert !HyphenPair(r, i - 1);
      }
    }
  }

  /** `slugify(text)`. */
  function Slugify(text: string): (r: string)
    ensures IsSlug(r)
  {
    var kept := RemoveDisallowed(Lower(text));
    var collapsed := CollapseSeparators(kept);
    assert forall i :: 0 <= i < |kept| ==> SlugSource(kept[i]);
    CollapseShape(kept);
    TrimHyphensGivesSlug(collapsed);
    Trim(collapsed, IsHyphen)
  }

  lemma TrimHyphensGivesSlug(s: string)
    requires forall i :: 0 <= i < |s| ==> SlugChar(s[i])
    requires NoDoubleHyphen(s)
    ensures IsSlug(Trim(s, IsHyphen))
  {
    TrimIsSlice(s, IsHyphen);
    var a, b :| 0 <= a <= b <= |s| && Trim(s, IsHyphen) == s[a..b];
    SliceSlugChars(s, a, b);
    SliceNoDoubleHyphen(s, a, b);
  }

  /** A slice of slug characters holds only slug characters. */
  lemma SliceSlugChars(s: string, a: nat, b: nat)
    requires a <= b <= |s| && SlugChars(s)
    ensures SlugChars(s[a..b])
  {
    assert forall i :: 0 <= i < b - a ==> s[a..b][i] == s[a + i];
  }

  /** A slice of a text free of double hyphens is free of them too. */
  lemma SliceNoDoubleHyphen(s: string, a: nat, b: nat)
    requires a <= b <= |s| && NoDoubleHyphen(s)
    ensures NoDoubleHyphen(s[a..b])
  {
    var t := s[a..b];
    forall i | 0 <= i < |t| - 1
      ensures !HyphenPair(t, i)
    {
      assert t[i] == s[a + i] && t[i + 1] == s[a + i + 1];
      assert !HyphenPair(s, a + i);
    }
  }

  lemma {:induction false} RemoveDisallowedKeepsKept(s: string)
    requires forall i :: 0 <= i < |s| ==> Kept(s[i])
    ensures RemoveDisallowed(s) == s
    decreases |s|
  {
    if |s| > 0 {
      RemoveDisallowedKeepsKept(s[1..]);
    }
  }

  lemma {:induction false} CollapseKeepsSlugs(s: string)
    requires forall i :: 0 <= i < |s| ==> SlugChar(s[i])
    requires NoDoubleHyphen(s)
    ensures CollapseSeparators(s) == s
    decreases |s|
  {
    if |s| > 0 {
      NoDoubleHyphenTail(s);
      CollapseKeepsSlugs(s[1..]);
      if |s| > 1 {
        assert !HyphenPair(s, 0);
      }
      CollapseKeepsFirst(s);
    }
  }

  /** The first character of a slug is copied: a letter or digit as it is,
      a lone hyphen as the one hyphen it collapses to. */
  lemma CollapseKeepsFirst(s: string)
    requires |s| > 0 && SlugChar(s[0]) && CollapseSeparators(s[1..]) == s[1..]
    requires |s| > 1 ==> SlugChar(s[1]) && !(s[0] == '-' && s[1] == '-')
    ensures CollapseSeparators(s) == s
  {
    ConsSplit(s);
    if IsSeparator(s[0]) {
      if |s| > 1 {
        assert s[1..][0] == s[1];
      }
      assert TrimStart(s[1..], IsSeparator) == s[1..];
      assert "-" == [s[0]];
    }
  }

  /** A slug is a fixed point of `Slugify`. */
  lemma SlugifyKeepsSlugs(s: string)
    requires IsSlug(s)
    ensures Slugify(s) == s
  {
    assert Lower(s) == s;
    RemoveDisallowedKeepsKept(s);
    CollapseKeepsSlugs(s);
    TrimNoop(s, IsHyphen);
  }

  /** `slugify` is idempotent. */
  lemma SlugifyIdempotent(text: string)
    ensures Slugify(Slugify(text)) == Slugify(text)
  {
    SlugifyKeepsSlugs(Slugify(text));
  }

  /** A word of a display name after lower-casing: letters and digits only. */
  predicate IsPlainWord(w: string)
  {
    |w| > 0 && forall i :: 0 <= i < |w| ==> IsLowerLetter(w[i]) || IsDigit(w[i])
  }

  /** A character that is no separator is copied as it is. */
  lemma CollapseCons(c: char, x: string)
    requires !IsSeparator(c)
    ensures CollapseSeparators([c] + x) == [c] + CollapseSeparators(x)
  {
    assert ([c] + x)[1..] == x;
  }

  /** The first character of a word is copied in front of the rest. */
  lemma CollapseCopiesFirst(w: string, rest: string, x: string)
    requires |w| > 0 && !IsSeparator(w[0])
    requires CollapseSeparators(w[1..] + rest) == w[1..] + x
    ensures CollapseSeparators(w + rest) == w + x
  {
    ConsAppend(w, rest);
    CollapseCons(w[0], w[1..] + rest);
    ConsAppend(w, x);
  }

  lemma {:induction false} CollapseCopiesWord(w: string, rest: string)
    requires forall i :: 0 <= i < |w| ==> !IsSeparator(w[i])
    ensures CollapseSeparators(w + rest) == w + CollapseSeparators(rest)
    decreases |w|
  {
    if |w| > 0 {
      CollapseCopiesWord(w[1..], rest);
      CollapseCopiesFirst(w, rest, CollapseSeparators(rest));
    } else {
      assert w + rest == rest;
    }
  }

  lemma {:induction false} JoinedWordsKept(ws: seq<string>)
    requires forall k :: 0 <= k < |ws| ==> IsPlainWord(ws[k])
    ensures forall i :: 0 <= i < |Join(ws, " ")| ==> Kept(Join(ws, " ")[i])
    decreases |ws|
  {
    if |ws| > 1 {
      JoinedWordsKept(ws[1..]);
    }
  }

  lemma CollapseWordSpace(w: string, tail: string, joined: string)
    requires forall i :: 0 <= i < |w| ==> !IsSeparator(w[i])
    requires |tail| > 0 && !IsSeparator(tail[0])
    requires CollapseSeparators(tail) == joined
    ensures CollapseSeparators(w + " " + tail) == w + "-" + joined
  {
    var u := " " + tail;
    assert u[0] == ' ' && u[1..] == tail;
    assert TrimStart(tail, IsSeparator) == tail;
    assert CollapseSeparators(u) == "-" + joined;
    CollapseCopiesWord(w, u);
    assert w + " " + tail == w + u;
  }

  lemma {:induction false} JoinFirst(ws: seq<string>, sep: string)
    requires |ws| > 0 && |ws[0]| > 0
    ensures |Join(ws, sep)| > 0 && Join(ws, sep)[0] == ws[0][0]
  {
    if |ws| > 1 {
      assert Join(ws, sep) == ws[0] + sep + Join(ws[1..], sep);
    }
  }

  lemma {:induction false} JoinLast(ws: seq<string>, sep: string)
    requires |ws| > 0 && |ws[|ws| - 1]| > 0
    ensures |Join(ws, sep)| > 0
    ensures Join(ws, sep)[|Join(ws, sep)| - 1] == ws[|ws| - 1][|ws[|ws| - 1]| - 1]
    decreases |ws|
  {
    if |ws| > 1 {
      JoinLast(ws[1..], sep);
      assert Join(ws, sep) == ws[0] + sep + Join(ws[1..], sep);
    }
  }

  lemma {:induction false} CollapseJoinedWords(ws: seq<string>)
    requires |ws| > 0
    requires forall k :: 0 <= k < |ws| ==> IsPlainWord(ws[k])
    ensures CollapseSeparators(Join(ws, " ")) == Join(ws, "-")
    decreases |ws|
  {
    assert IsPlainWord(ws[0]);
    if |ws| == 1 {
      CollapseCopiesWord(ws[0], "");
      assert ws[0] + "" == ws[0];
    } else {
      var rest := ws[1..];
      assert IsPlainWord(rest[0]);
      JoinFirst(rest, " ");
      CollapseJoinedWords(rest);
      CollapseWordSpace(ws[0], Join(rest, " "), Join(rest, "-"));
    }
  }

  /** A display name whose lower-cased form is plain words separated by single
      spaces slugifies to those words joined by hyphens. */
  lemma SlugifyJoinsWords(text: string, ws: seq<string>)
    requires |ws| > 0
    requires forall k :: 0 <= k < |ws| ==> IsPlainWord(ws[k])
    requires Lower(text) == Join(ws, " ")
    ensures Slugify(text) == Join(ws, "-")
  {
    JoinedWordsKept(ws);
    RemoveDisallowedKeepsKept(Join(ws, " "));
    CollapseJoinedWords(ws);
    assert IsPlainWord(ws[0]) && IsPlainWord(ws[|ws| - 1]);
    JoinFirst(ws, "-");
    JoinLast(ws, "-");
    TrimNoop(Join(ws, "-"), IsHyphen);
  }

  /** The business named in the QR generator's documentation. */
  lemma BittersweetCafeSlug()
    ensures Slugify("Bittersweet Cafe") == "bittersweet-cafe"
  {
    var ws := ["bittersweet", "cafe"];
    assert ws[1..] == ["cafe"];
    assert Join(ws, " ") == "bittersweet cafe";
    assert Join(ws, "-") == "bittersweet-cafe";
    assert Lower("Bittersweet Cafe") == "bittersweet cafe";
    assert IsPlainWord(ws[0]) && IsPlainWord(ws[1]);
    SlugifyJoinsWords("Bittersweet Cafe", ws);
  }

  predicate IsAlnum(c: char) { IsLowerLetter(c) || IsDigit(c) }

  /** The lower-case letters and digits of `s`, in order. */
  function AlnumOf(s: string): string
    decreases |s|
  {
    if |s| == 0 then "" else (if IsAlnum(s[0]) then [s[0]] else "") + AlnumOf(s[1..])
  }

  lemma {:induction false} AlnumAppend(a: string, b: string)
    ensures AlnumOf(a + b) == AlnumOf(a) + AlnumOf(b)
    decreases |a|
  {
    if |a| > 0 {
      assert (a + b)[1..] == a[1..] + b;
      AlnumAppend(a[1..], b);
    } else {
      assert a + b == b;
    }
  }

  lemma {:induction false} AlnumOfNone(s: string)
    requires forall i :: 0 <= i < |s| ==> !IsAlnum(s[i])
    ensures AlnumOf(s) == ""
    decreases |s|
  {
    if |s| > 0 {
      AlnumOfNone(s[1..]);
    }
  }

  lemma {:induction false} AlnumRemoveDisallowed(s: string)
    ensures AlnumOf(RemoveDisallowed(s)) == AlnumOf(s)
    decreases |s|
  {
    if |s| > 0 {
      AlnumRemoveDisallowed(s[1..]);
      var head := if Kept(s[0]) then [s[0]] else "";
      AlnumAppend(head, RemoveDisallowed(s[1..]));
    }
  }

  lemma {:induction false} AlnumCollapse(s: string)
    ensures AlnumOf(CollapseSeparators(s)) == AlnumOf(s)
    decreases |s|
  {
    if |s| > 0 {
      if IsSeparator(s[0]) {
        var rest := TrimStart(s[1..], IsSeparator);
        AlnumCollapse(rest);
        AlnumAppend("-", CollapseSeparators(rest));
        var k := |s[1..]| - |rest|;
        assert s[1..] == s[1..][..k] + rest;
        AlnumOfNone(s[1..][..k]);
        AlnumAppend(s[1..][..k], rest);
      } else {
        AlnumCollapse(s[1..]);
        AlnumAppend([s[0]], CollapseSeparators(s[1..]));
      }
    }
  }

  lemma {:induction false} AlnumTrimStart(s: string)
    ensures AlnumOf(TrimStart(s, IsHyphen)) == AlnumOf(s)
    decreases |s|
  {
    if |s| > 0 && IsHyphen(s[0]) {
      AlnumTrimStart(s[1..]);
    }
  }

  lemma {:induction false} AlnumTrimEnd(t: string)
    ensures AlnumOf(TrimEnd(t, IsHyphen)) == AlnumOf(t)
    decreases |t|
  {
    if |t| > 0 && IsHyphen(t[|t| - 1]) {
      var front, h := t[..|t| - 1], [t[|t| - 1]];
      AlnumTrimEnd(front);
      assert t == front + h;
      AlnumAppend(front, h);
      assert AlnumOf(h) == "" + AlnumOf(h[1..]);
    }
  }

  lemma AlnumTrimHyphens(s: string)
    ensures AlnumOf(Trim(s, IsHyphen)) == AlnumOf(s)
  {
    AlnumTrimStart(s);
    AlnumTrimEnd(TrimStart(s, IsHyphen));
  }

  /** `slugify` keeps every letter and digit of the lower-cased text, in
      order, and adds none: only separators and punctuation change. */
  lemma SlugifyKeepsAlnums(text: string)
    ensures AlnumOf(Slugify(text)) == AlnumOf(Lower(text))
  {
    var kept := RemoveDisallowed(Lower(text));
    AlnumRemoveDisallowed(Lower(text));
    AlnumCollapse(kept);
    AlnumTrimHyphens(CollapseSeparators(kept));
  }

  /** The slug is empty exactly when the text has no letter or digit. */
  lemma SlugifyEmptyIff(text: string)
    ensures Slugify(text) == "" <==> AlnumOf(Lower(text)) == ""
  {
    SlugifyKeepsAlnums(text);
    var r := Slugify(text);
    if r != "" {
      assert IsAlnum(r[0]);
      assert r == [r[0]] + r[1..];
      AlnumAppend([r[0]], r[1..]);
    }
  }
}
