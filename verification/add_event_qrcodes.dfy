/** scripts/add_event_qrcodes.py: recording in each event that has a link
    the path of its QR image. Loading and rewriting events.yaml is outside
    the model. */
module EventQrCodes {
  import opened Base
  import opened Text
  import opened Slug
  import opened Events
  import QrCodes

  /** Where the kiosk looks for QR images, relative to its root. */
  const QrDir: string := "images/qrcodes"

  /** The `qr_code` value recorded for an event with this title. */
  function EventQrPath(title: string): string
  {
    QrDir + "/" + EventStem(title) + "-qr.png"
  }

  function EventStem(title: string): string
  {
    "event-" + Slugify(title)
  }

  /** An event gets a path exactly when its `url` is truthy. */
  predicate Linked(e: Event)
  {
    Truthy(e.url)
  }

  function CountLinked(events: seq<Event>): (n: nat)
    ensures n <= |events|
    decreases |events|
  {
    if |events| == 0 then 0
    else CountLinked(events[..|events| - 1]) + (if Linked(events[|events| - 1]) then 1 else 0)
  }

  /** One event after the loop has seen it. */
  function Annotated(e: Event): (r: Event)
    ensures Linked(e) ==> r == e.(qrCode := Some(EventQrPath(e.title)))
    ensures !Linked(e) ==> r == e
  {
    if Truthy(e.url) then e.(qrCode := Some(EventQrPath(e.title))) else e
  }

  /** The annotation loop of `main`: linked events gain their `qr_code`,
      the rest are left alone; the two counters are returned. */
  method AddEventQrCodes(events: seq<Event>) returns (annotated: seq<Event>, updated: nat, skipped: nat)
    ensures |annotated| == |events|
    ensures forall i :: 0 <= i < |events| && Linked(events[i]) ==>
              annotated[i] == events[i].(qrCode := Some(EventQrPath(events[i].title)))
    ensures forall i :: 0 <= i < |events| && !Linked(events[i]) ==> annotated[i] == events[i]
    ensures updated == CountLinked(events)
    ensures updated + skipped == |events|
  {
    annotated := [];
    updated, skipped := 0, 0;
    var i := 0;
    while i < |events|
      invariant 0 <= i <= |events| && |annotated| == i
      invariant forall k :: 0 <= k < i ==> annotated[k] == Annotated(events[k])
      invariant updated == CountLinked(events[..i])
      invariant updated + skipped == i
    {
      var e := events[i];
      CountLinkedStep(events, i);
      if !Truthy(e.url) {
        skipped := skipped + 1;
      } else {
        updated := updated + 1;
      }
      annotated := annotated + [Annotated(e)];
      i := i + 1;
    }
    assert events[..i] == events;
    AnnotatedEach(events, annotated);
  }

  /** Each event annotated in place means the linked ones gained their path
      and the others are unchanged. */
  lemma AnnotatedEach(events: seq<Event>, annotated: seq<Event>)
    requires |annotated| == |events|
    requires forall k :: 0 <= k < |events| ==> annotated[k] == Annotated(events[k])
    ensures forall i :: 0 <= i < |events| && Linked(events[i]) ==>
              annotated[i] == events[i].(qrCode := Some(EventQrPath(events[i].title)))
    ensures forall i :: 0 <= i < |events| && !Linked(events[i]) ==> annotated[i] == events[i]
  {
  }

  lemma CountLinkedStep(events: seq<Event>, i: nat)
    requires i < |events|
    ensures CountLinked(events[..i + 1]) == CountLinked(events[..i]) + if Linked(events[i]) then 1 else 0
  {
    assert events[..i + 1][..i] == events[..i];
  }

  /** Annotating an already annotated list changes nothing. */
  lemma AnnotationIdempotent(e: Event)
    ensures var once := if Linked(e) then e.(qrCode := Some(EventQrPath(e.title))) else e;
            once == (if Linked(once) then once.(qrCode := Some(EventQrPath(once.title))) else once)
  {
  }

  /** Under any directory, the generator names an events.yaml entry with a
      title (and no `name`) `event-` + the title's slug + `-qr.png`. */
  lemma GeneratedEventFile(title: string, url: Option<string>, index: nat, dir: string)
    ensures QrCodes.QrFileName(QrCodes.Item(None, Some(title), None, url, None), index, "events", dir)
            == dir + "/" + EventStem(title) + "-qr.png"
  {
    var item := QrCodes.Item(None, Some(title), None, url, None);
    assert QrCodes.ItemIdentifier(item, "events").text == title;
  }

  /** The recorded path names the file the QR generator writes for the same
      event, whatever its position: run with the output directory
      `root + "/images/qrcodes"`, it writes `root + "/" + EventQrPath(title)`. */
  lemma EventQrPathIsGenerated(title: string, url: Option<string>, index: nat, root: string)
    ensures var item := QrCodes.Item(None, Some(title), None, url, None);
            QrCodes.QrFileName(item, index, "events", QrDir) == EventQrPath(title)
            && QrCodes.QrFileName(item, index, "events", root + "/" + QrDir) == root + "/" + EventQrPath(title)
  {
    GeneratedEventFile(title, url, index, QrDir);
    GeneratedEventFile(title, url, index, root + "/" + QrDir);
    Regroup(root + "/", QrDir, "/", EventStem(title), "-qr.png");
  }

  lemma Regroup(a: string, b: string, c: string, d: string, e: string)
    ensures a + b + c + d + e == a + (b + c + d + e)
  {
  }

  /** The file part of the path is `event-`, a slug, and `-qr.png`. */
  lemma EventQrPathShape(title: string)
    ensures var p := EventQrPath(title);
            StartsWith(p, QrDir + "/") && EndsWith(p, "-qr.png")
            && |p| == |QrDir| + |EventStem(title)| + 8
            && p[|QrDir| + 1..|p| - 7] == EventStem(title)
            && IsSlug(p[|QrDir| + 7..|p| - 7])
  {
    var p := EventQrPath(title);
    Framed(QrDir + "/", EventStem(title), "-qr.png");
    assert p[|QrDir| + 7..|p| - 7] == EventStem(title)[6..];
  }
}
