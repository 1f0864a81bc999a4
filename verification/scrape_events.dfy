/** scripts/scrape_events.py: gathering the scrapers' events, dropping past
    ones, and naming downloaded event images. Running the scrapers,
    downloading and writing files are outside the model: each scraper's
    result, the outcome of a download, the midnight that starts today and
    `datetime.fromisoformat` are parameters. */
module EventPipeline {
  import opened Base
  import opened Text
  import opened Slug
  import opened Events

  // ---------------------------------------------------------------------
  // Today or later

  /** An event whose `time` is missing or empty: it is dropped. */
  predicate Untimed(e: Event)
  {
    !Truthy(e.time)
  }

  /** An event whose time parses to a moment before today's midnight,
      compared on the wall clock with any UTC offset dropped. */
  predicate Past(e: Event, today: int, fromIso: IsoParser)
  {
    Truthy(e.time) && fromIso(IsoInput(e.time.value)).Some? && fromIso(IsoInput(e.time.value)).value.wall < today
  }

  /** An event the filter keeps: timed and not past. An unparsable time
      keeps the event, as the source prefers to keep events with invalid
      dates. */
  predicate Upcoming(e: Event, today: int, fromIso: IsoParser)
  {
    Truthy(e.time) && !Past(e, today, fromIso)
  }

  /** The reference filter: the upcoming events, in order. */
  function Upcomings(events: seq<Event>, today: int, fromIso: IsoParser): (r: seq<Event>)
    ensures |r| <= |events|
    ensures forall e :: e in r ==> e in events && Upcoming(e, today, fromIso)
    ensures forall e :: e in events && Upcoming(e, today, fromIso) ==> e in r
    decreases |events|
  {
    if |events| == 0 then []
    else
      var rest := Upcomings(events[..|events| - 1], today, fromIso);
      var last := events[|events| - 1];
      assert forall e :: e in events[..|events| - 1] ==> e in events;
      rest + (if Upcoming(last, today, fromIso) then [last] else [])
  }

  /** How many events satisfy `Past`. */
  function CountPast(events: seq<Event>, today: int, fromIso: IsoParser): (n: nat)
    ensures n <= |events|
    decreases |events|
  {
    if |events| == 0 then 0
    else CountPast(events[..|events| - 1], today, fromIso) + (if Past(events[|events| - 1], today, fromIso) then 1 else 0)
  }

  /** How many events satisfy `Untimed`. */
  function CountUntimed(events: seq<Event>): (n: nat)
    ensures n <= |events|
    decreases |events|
  {
    if |events| == 0 then 0
    else CountUntimed(events[..|events| - 1]) + (if Untimed(events[|events| - 1]) then 1 else 0)
  }

  /** The filtered list is an order-preserving subsequence of its input. */
  lemma {:induction false} UpcomingsSubsequence(events: seq<Event>, today: int, fromIso: IsoParser)
    ensures IsSubsequence(Upcomings(events, today, fromIso), events)
    decreases |events|
  {
    if |events| > 0 {
      var front := events[..|events| - 1];
      var last := events[|events| - 1];
      UpcomingsSubsequence(front, today, fromIso);
      var rest := Upcomings(front, today, fromIso);
      if Upcoming(last, today, fromIso) {
        var r := rest + [last];
        assert r[..|r| - 1] == rest;
      } else {
        assert Upcomings(events, today, fromIso) == rest;
        SubsequenceExtend(rest, events);
      }
    }
  }

  /** Every event is kept, counted as past, or dropped for want of a time:
      exactly one of the three. */
  lemma {:induction false} FilterPartition(events: seq<Event>, today: int, fromIso: IsoParser)
    ensures |Upcomings(events, today, fromIso)| + CountPast(events, today, fromIso) + CountUntimed(events) == |events|
    decreases |events|
  {
    if |events| > 0 {
      FilterPartition(events[..|events| - 1], today, fromIso);
    }
  }

  /** `filter_future_events`: the events happening today or later, in
      order, and the number dropped as past. */
  method FilterFutureEvents(events: seq<Event>, today: int, fromIso: IsoParser)
    returns (future: seq<Event>, pastCount: nat)
    ensures future == Upcomings(events, today, fromIso)
    ensures pastCount == CountPast(events, today, fromIso)
    ensures forall e :: e in future ==> Truthy(e.time)
  {
    future := [];
    pastCount := 0;
    var i := 0;
    while i < |events|
      invariant 0 <= i <= |events|
      invariant future == Upcomings(events[..i], today, fromIso)
      invariant pastCount == CountPast(events[..i], today, fromIso)
    {
      var e := events[i];
      assert events[..i + 1][..i] == events[..i];
      assert events[..i + 1][i] == e;
      if !Truthy(e.time) {
        // no time: neither kept nor counted
      } else {
        match fromIso(IsoInput(e.time.value))
        case Some(t) =>
          if t.wall >= today {
            future := future + [e];
          } else {
            pastCount := pastCount + 1;
          }
        case None =>
          future := future + [e];
      }
      i := i + 1;
    }
    assert events[..i] == events;
  }

  // ---------------------------------------------------------------------
  // Event images

  /** The image types kept as they are; anything else is saved as `jpg`. */
  const ImageTypes: seq<string> := ["jpg", "jpeg", "png", "gif", "webp"]

  /** `s.split(c)[-1]`: the text after the last `c`, or all of `s`. */
  function AfterLast(s: string, c: char): (r: string)
    ensures |r| <= |s| && r == s[|s| - |r|..]
    ensures forall i :: 0 <= i < |r| ==> r[i] != c
    ensures |r| < |s| ==> s[|s| - |r| - 1] == c
    decreases |s|
  {
    if |s| == 0 then ""
    else if s[|s| - 1] == c then ""
    else AfterLast(s[..|s| - 1], c) + [s[|s| - 1]]
  }

  /** `s.split(c)[0]`: the text before the first `c`, or all of `s`. */
  function BeforeFirst(s: string, c: char): (r: string)
    ensures |r| <= |s| && r == s[..|r|]
    ensures forall i :: 0 <= i < |r| ==> r[i] != c
    ensures |r| < |s| ==> s[|r|] == c
    decreases |s|
  {
    if |s| == 0 then ""
    else if s[0] == c then ""
    else [s[0]] + BeforeFirst(s[1..], c)
  }

  /** The extension `download_event_image` chooses for an image address. */
  function ImageExtension(url: string): (r: string)
    ensures r in ImageTypes
    ensures BeforeFirst(AfterLast(url, '.'), '?') in ImageTypes ==> r == BeforeFirst(AfterLast(url, '.'), '?')
    ensures BeforeFirst(AfterLast(url, '.'), '?') !in ImageTypes ==> r == "jpg"
  {
    var ext := BeforeFirst(AfterLast(url, '.'), '?');
    if ext in ImageTypes then ext else "jpg"
  }

  /** An address ending in a known image type, optionally followed by a
      query that holds no `.`, keeps that type. */
  lemma ImageExtensionKnown(base: string, ext: string, query: string)
    requires ext in ImageTypes
    requires query == "" || query[0] == '?'
    requires forall i :: 0 <= i < |query| ==> query[i] != '.'
    ensures ImageExtension(base + "." + ext + query) == ext
  {
    ImageTypesPlain(ext);
    var tail := ext + query;
    forall i | 0 <= i < |tail|
      ensures tail[i] != '.'
    {
      if i >= |ext| {
        assert tail[i] == query[i - |ext|];
      }
    }
    AfterLastSuffix(base + ".", tail, '.');
    assert base + "." + tail == base + "." + ext + query;
    BeforeFirstPrefix(ext, query, '?');
  }

  /** An address whose last `.`-segment, up to any query, is not one of the
      five types is saved as `jpg`. */
  lemma ImageExtensionUnknown(base: string, ext: string, query: string)
    requires ext !in ImageTypes
    requires forall i :: 0 <= i < |ext| ==> ext[i] != '.' && ext[i] != '?'
    requires query == "" || query[0] == '?'
    requires forall i :: 0 <= i < |query| ==> query[i] != '.'
    ensures ImageExtension(base + "." + ext + query) == "jpg"
  {
    var tail := ext + query;
    forall i | 0 <= i < |tail|
      ensures tail[i] != '.'
    {
      if i >= |ext| {
        assert tail[i] == query[i - |ext|];
      }
    }
    AfterLastSuffix(base + ".", tail, '.');
    assert base + "." + tail == base + "." + ext + query;
    BeforeFirstPrefix(ext, query, '?');
  }

  /** No image type holds a `.` or a `?`. */
  lemma ImageTypesPlain(ext: string)
    requires ext in ImageTypes
    ensures forall i :: 0 <= i < |ext| ==> ext[i] != '.' && ext[i] != '?'
  {
    assert ext == ImageTypes[0] || ext == ImageTypes[1] || ext == ImageTypes[2]
           || ext == ImageTypes[3] || ext == ImageTypes[4];
  }

  lemma {:induction false} AfterLastSuffix(p: string, t: string, c: char)
    requires |p| > 0 && p[|p| - 1] == c
    requires forall i :: 0 <= i < |t| ==> t[i] != c
    ensures AfterLast(p + t, c) == t
    decreases |t|
  {
    var s := p + t;
    if |t| == 0 {
      assert s == p;
    } else {
      assert s[..|s| - 1] == p + t[..|t| - 1];
      AfterLastSuffix(p, t[..|t| - 1], c);
      assert t[..|t| - 1] + [t[|t| - 1]] == t;
    }
  }

  lemma {:induction false} BeforeFirstPrefix(t: string, q: string, c: char)
    requires forall i :: 0 <= i < |t| ==> t[i] != c
    requires q == [] || q[0] == c
    ensures BeforeFirst(t + q, c) == t
    decreases |t|
  {
    var s := t + q;
    if |t| == 0 {
      assert s == q;
    } else {
      assert s[1..] == t[1..] + q;
      BeforeFirstPrefix(t[1..], q, c);
      assert [t[0]] + t[1..] == t;
    }
  }

  /** `download_event_image`: `images/events/{slug}.{ext}` once the image is
      saved; nothing for an empty address or a failed download.
      `saved(url, path)` says whether fetching and writing succeeded. */
  function DownloadEventImage(url: string, title: string, saved: (string, string) -> bool): (r: Option<string>)
    ensures url == "" ==> r.None?
    ensures url != "" ==> (r.Some? <==> saved(url, Slugify(title) + "." + ImageExtension(url)))
    ensures r.Some? ==> r.value == "images/events/" + Slugify(title) + "." + ImageExtension(url)
  {
    if url == "" then None
    else
      var ext := ImageExtension(url);
      if saved(url, Slugify(title) + "." + ext) then Some("images/events/" + Slugify(title) + "." + ext) else None
  }

  /** An image address ending in a known type, optionally with a query
      holding no `.`, is saved under the event's slug with that type. */
  lemma DownloadKnownImage(base: string, ext: string, query: string, title: string,
                           saved: (string, string) -> bool)
    requires ext in ImageTypes
    requires query == "" || query[0] == '?'
    requires forall i :: 0 <= i < |query| ==> query[i] != '.'
    requires saved(base + "." + ext + query, Slugify(title) + "." + ext)
    ensures DownloadEventImage(base + "." + ext + query, title, saved)
            == Some("images/events/" + Slugify(title) + "." + ext)
  {
    var url := base + "." + ext + query;
    ImageExtensionKnown(base, ext, query);
    assert |url| >= 1;
  }

  // ---------------------------------------------------------------------
  // All sources

  /** The events of the scrapers that returned, in the order they ran; a
      scraper that raised (`None`) adds nothing. */
  function Gather(results: seq<Option<seq<Event>>>): (r: seq<Event>)
    decreases |results|
  {
    if |results| == 0 then []
    else Gather(results[..|results| - 1]) + results[|results| - 1].GetOr([])
  }

  /** Gathering distributes over the scrapers, and a raising scraper leaves
      the others' events in place. */
  lemma {:induction false} GatherAppend(a: seq<Option<seq<Event>>>, b: seq<Option<seq<Event>>>)
    ensures Gather(a + b) == Gather(a) + Gather(b)
    decreases |b|
  {
    if |b| == 0 {
      assert a + b == a;
    } else {
      var front, last := b[..|b| - 1], b[|b| - 1];
      GatherAppend(a, front);
      assert (a + b)[..|a + b| - 1] == a + front;
      assert Gather(a + b) == Gather(a) + Gather(front) + last.GetOr([]);
      Associative(Gather(a), Gather(front), last.GetOr([]));
    }
  }

  lemma Associative(x: seq<Event>, y: seq<Event>, z: seq<Event>)
    ensures x + y + z == x + (y + z)
  {
  }

  lemma GatherFailure(a: seq<Option<seq<Event>>>, b: seq<Option<seq<Event>>>)
    ensures Gather(a + [None] + b) == Gather(a) + Gather(b)
  {
    var none: seq<Option<seq<Event>>> := [None];
    GatherNone();
    GatherAppend(a, none);
    GatherAppend(a + none, b);
  }

  lemma GatherNone()
    ensures Gather([None]) == []
  {
    var none: seq<Option<seq<Event>>> := [None];
    assert none[..0] == [];
  }

  /** `scrape_all_events`: everything the scrapers returned, filtered to
      today or later. */
  method ScrapeAllEvents(results: seq<Option<seq<Event>>>, today: int, fromIso: IsoParser)
    returns (events: seq<Event>)
    ensures events == Upcomings(Gather(results), today, fromIso)
    ensures IsSubsequence(events, Gather(results))
  {
    var all := Gather(results);
    var past;
    events, past := FilterFutureEvents(all, today, fromIso);
    UpcomingsSubsequence(all, today, fromIso);
  }
}
