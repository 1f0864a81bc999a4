/** scripts/generate_qrcodes.py: choosing an identifier and a QR-code file
    name for each entry of a YAML data file, and the success/skip/fail tally
    of one file. Reading YAML, checking whether a file exists and drawing the
    QR image are outside the model: the set of files already present and the
    outcome of drawing are parameters. */
module QrCodes {
  import opened Base
  import opened Text
  import opened Slug

  /** The keys of one YAML mapping that the generator reads; `None` is an
      absent key. */
  datatype Item = Item(
    name: Option<string>,
    title: Option<string>,
    content: Option<string>,
    url: Option<string>,
    website: Option<string>)

  /** An entry of a data file: a mapping, or any other YAML value. */
  datatype Entry = Mapping(item: Item) | NotMapping

  /** A whole data file: a list of entries, or any other YAML value. */
  datatype Document = EntryList(entries: seq<Entry>) | NotAList

  /** Which key an identifier came from. */
  datatype IdKind = NameKey | TitleKey | ContentKey | Unknown

  datatype Identifier = Identifier(text: string, kind: IdKind)

  /** Content identifiers keep at most this many characters. */
  const ContentPreview: nat := 50

  /** `get_item_identifier`: `name`, else `title`, else a preview of
      `content`, else a fallback naming the file. */
  function ItemIdentifier(item: Item, basename: string): (r: Identifier)
    ensures r.kind == NameKey <==> item.name.Some?
    ensures r.kind == TitleKey <==> item.name.None? && item.title.Some?
    ensures r.kind == ContentKey <==> item.name.None? && item.title.None? && item.content.Some?
    ensures r.kind == NameKey ==> r.text == item.name.value
    ensures r.kind == TitleKey ==> r.text == item.title.value
    ensures r.kind == ContentKey && |item.content.value| <= ContentPreview ==> r.text == item.content.value
    ensures r.kind == ContentKey && |item.content.value| > ContentPreview ==>
              |r.text| == ContentPreview + 3 && StartsWith(r.text, item.content.value[..ContentPreview])
              && EndsWith(r.text, "...")
    ensures r.kind == Unknown ==> r.text == "Item from " + basename
  {
    if item.name.Some? then Identifier(item.name.value, NameKey)
    else if item.title.Some? then Identifier(item.title.value, TitleKey)
    else if item.content.Some? then Identifier(Ellipsize(item.content.value, ContentPreview), ContentKey)
    else Identifier("Item from " + basename, Unknown)
  }

  /** The distinguishing part of a QR file name for entry number `index`
      (counting from 1) of the data file `basename`: facts are numbered,
      events and named businesses use the slug of their identifier, other
      named or titled entries prefix the slug with the file's name, and
      the rest are numbered after the file's name. */
  function QrStem(item: Item, index: nat, basename: string): string
  {
    var id := ItemIdentifier(item, basename);
    if basename == "town-facts" then "fact-" + NatToString(index)
    else if basename == "events" then "event-" + Slugify(id.text)
    else if basename == "businesses" && id.kind == NameKey then Slugify(id.text)
    else if id.kind == NameKey || id.kind == TitleKey then basename + "-" + Slugify(id.text)
    else basename + "-" + NatToString(index)
  }

  /** `generate_qr_filename`: the PNG under `dir` for entry number `index`
      of the data file `basename`, one case per kind of file and entry. */
  function QrFileName(item: Item, index: nat, basename: string, dir: string): (r: string)
    ensures StartsWith(r, dir + "/") && EndsWith(r, "-qr.png")
    ensures basename == "town-facts" ==> r == dir + "/fact-" + NatToString(index) + "-qr.png"
    ensures basename == "events" ==>
              r == dir + "/event-" + Slugify(ItemIdentifier(item, basename).text) + "-qr.png"
    ensures basename == "businesses" && item.name.Some? ==> r == dir + "/" + Slugify(item.name.value) + "-qr.png"
    ensures basename != "town-facts" && basename != "events" && !(basename == "businesses" && item.name.Some?)
            && (item.name.Some? || item.title.Some?) ==>
              r == dir + "/" + basename + "-" + Slugify(item.name.GetOr(item.title.GetOr(""))) + "-qr.png"
    ensures basename != "town-facts" && basename != "events" && item.name.None? && item.title.None? ==>
              r == dir + "/" + basename + "-" + NatToString(index) + "-qr.png"
  {
    var stem := QrStem(item, index, basename);
    Framed(dir + "/", stem, "-qr.png");
    QrStemCases(item, index, basename);
    BusinessesIsNoOtherFile();
    var r := dir + "/" + stem + "-qr.png";
    if basename == "town-facts" then
      GlueTwo(dir, "fact-", NatToString(index));
      Literals();
      r
    else if basename == "events" then
      var slug := Slugify(ItemIdentifier(item, basename).text);
      assert stem == "event-" + slug;
      GlueTwo(dir, "event-", slug);
      Literals();
      r
    else if !(basename == "businesses" && item.name.Some?) then
      GlueThree(dir, basename, stem[|basename| + 1..]);
      r
    else r
  }

  /** The stem of each kind of file and entry. */
  lemma QrStemCases(item: Item, index: nat, basename: string)
    ensures basename == "town-facts" ==> QrStem(item, index, basename) == "fact-" + NatToString(index)
    ensures basename == "events" ==>
              QrStem(item, index, basename) == "event-" + Slugify(ItemIdentifier(item, basename).text)
    ensures basename == "businesses" && item.name.Some? ==> QrStem(item, index, basename) == Slugify(item.name.value)
    ensures basename != "town-facts" && basename != "events" && !(basename == "businesses" && item.name.Some?)
            && (item.name.Some? || item.title.Some?) ==>
              QrStem(item, index, basename) == basename + "-" + Slugify(item.name.GetOr(item.title.GetOr("")))
    ensures basename != "town-facts" && basename != "events" && item.name.None? && item.title.None? ==>
              QrStem(item, index, basename) == basename + "-" + NatToString(index)
  {
    BusinessesIsNoOtherFile();
  }

  lemma Literals()
    ensures "/" + "fact-" == "/fact-" && "/" + "event-" == "/event-"
  {
  }

  lemma GlueTwo(dir: string, a: string, b: string)
    ensures dir + "/" + (a + b) + "-qr.png" == dir + ("/" + a) + b + "-qr.png"
  {
  }

  lemma GlueThree(dir: string, basename: string, rest: string)
    ensures dir + "/" + (basename + "-" + rest) + "-qr.png" == dir + "/" + basename + "-" + rest + "-qr.png"
  {
  }

  /** The stem sits between `dir + "/"` and `-qr.png`. */
  lemma QrFileNameStem(item: Item, index: nat, basename: string, dir: string)
    ensures var r := QrFileName(item, index, basename, dir);
            |r| == |dir| + |QrStem(item, index, basename)| + 8
            && r[|dir| + 1..|r| - 7] == QrStem(item, index, basename)
  {
    Framed(dir + "/", QrStem(item, index, basename), "-qr.png");
  }

  /** File names are determined by their stems: two entries under the same
      directory share a file exactly when they share a stem. */
  lemma QrFileNameInjective(a: Item, i: nat, b: Item, j: nat, basename: string, dir: string)
    ensures QrFileName(a, i, basename, dir) == QrFileName(b, j, basename, dir)
            <==> QrStem(a, i, basename) == QrStem(b, j, basename)
  {
    QrFileNameStem(a, i, basename, dir);
    QrFileNameStem(b, j, basename, dir);
  }

  /** Facts are numbered whatever keys they have, and distinct positions get
      distinct files. */
  lemma FactFileNames(a: Item, b: Item, i: nat, j: nat, dir: string)
    ensures QrFileName(a, i, "town-facts", dir) == QrFileName(b, i, "town-facts", dir)
    ensures QrFileName(a, i, "town-facts", dir) == QrFileName(b, j, "town-facts", dir) ==> i == j
  {
    var p := QrStem(a, i, "town-facts");
    var q := QrStem(b, j, "town-facts");
    QrFileNameInjective(a, i, b, j, "town-facts", dir);
    if p == q {
      assert p[5..] == NatToString(i);
      assert q[5..] == NatToString(j);
      NatToStringInjective(i, j);
    }
  }

  /** Entries of any other file with neither a name nor a title are
      numbered after the file, so distinct positions get distinct files;
      the documented example is the first such entry of `town-images`. */
  lemma NumberedFileNames(a: Item, b: Item, i: nat, j: nat, basename: string, dir: string)
    requires basename != "town-facts" && basename != "events"
    requires a.name.None? && a.title.None? && b.name.None? && b.title.None?
    ensures QrFileName(a, i, basename, dir) == QrFileName(b, i, basename, dir)
    ensures QrFileName(a, i, basename, dir) == QrFileName(b, j, basename, dir) <==> i == j
    ensures QrFileName(a, 1, "town-images", dir) == dir + "/town-images-1-qr.png"
  {
    QrFileNameInjective(a, i, b, j, basename, dir);
    QrStemCases(a, i, basename);
    QrStemCases(b, j, basename);
    var p := QrStem(a, i, basename);
    var q := QrStem(b, j, basename);
    if p == q {
      assert p[|basename| + 1..] == NatToString(i);
      assert q[|basename| + 1..] == NatToString(j);
      NatToStringInjective(i, j);
    }
    TownImagesFirst(a, dir);
  }

  lemma TownImagesFirst(a: Item, dir: string)
    requires a.name.None? && a.title.None?
    ensures QrFileName(a, 1, "town-images", dir) == dir + "/town-images-1-qr.png"
  {
    assert "town-images"[0] != "town-facts"[5];
    assert NatToString(1) == "1";
    assert dir + "/" + "town-images" + "-" + "1" + "-qr.png" == dir + "/town-images-1-qr.png";
  }

  /** Other files' named or titled entries are filed under the file's name
      and the slug of the name, or else of the title. */
  lemma PrefixedFileNames(item: Item, index: nat, basename: string, dir: string)
    requires basename != "town-facts" && basename != "events" && basename != "businesses"
    requires item.name.Some? || item.title.Some?
    ensures var r := QrFileName(item, index, basename, dir);
            StartsWith(r, dir + "/" + basename + "-") && IsSlug(r[|dir| + |basename| + 2..|r| - 7])
            && r[|dir| + |basename| + 2..|r| - 7]
               == Slugify(if item.name.Some? then item.name.value else item.title.value)
  {
    var slug := Slugify(if item.name.Some? then item.name.value else item.title.value);
    Framed(dir + "/" + basename + "-", slug, "-qr.png");
  }

  /** An event's stem is `event-` followed by the slug of its identifier,
      whatever the file's other entries are. */
  lemma EventStem(item: Item, index: nat)
    ensures var st := QrStem(item, index, "events");
            |st| >= 6 && st[..6] == "event-" && IsSlug(st[6..])
            && st[6..] == Slugify(ItemIdentifier(item, "events").text)
  {
  }

  /** A business with a name is filed under the bare slug of the name, and
      one without a name falls back to the file's prefix. */
  lemma BusinessStem(item: Item, index: nat)
    ensures item.name.Some? ==> QrStem(item, index, "businesses") == Slugify(item.name.value)
    ensures item.name.None? ==> StartsWith(QrStem(item, index, "businesses"), "businesses-")
  {
    BusinessesIsNoOtherFile();
    var id := ItemIdentifier(item, "businesses");
    if item.name.Some? {
      assert id == Identifier(item.name.value, NameKey);
    } else {
      var tail := if id.kind == TitleKey then Slugify(id.text) else NatToString(index);
      assert QrStem(item, index, "businesses") == "businesses" + "-" + tail;
      assert "businesses" + "-" == "businesses-";
      StartsWithAppend("businesses-", tail);
    }
  }

  lemma BusinessesIsNoOtherFile()
    ensures "businesses" != "town-facts" && "businesses" != "events"
  {
    assert "businesses"[0] != "town-facts"[0];
  }

  /** The example of the generator's documentation: the business "Bittersweet
      Cafe" gets `bittersweet-cafe-qr.png`, whatever its position and URL. */
  lemma BittersweetCafeQrFile(index: nat, dir: string, url: Option<string>)
    ensures QrFileName(Item(Some("Bittersweet Cafe"), None, None, url, None), index, "businesses", dir)
            == dir + "/" + "bittersweet-cafe" + "-qr.png"
  {
    var item := Item(Some("Bittersweet Cafe"), None, None, url, None);
    BittersweetCafeSlug();
    BusinessStem(item, index);
  }

  /** `item.get('url') or item.get('website')`, kept only when it is truthy. */
  function ItemUrl(item: Item): (r: Option<string>)
    ensures r.Some? <==> Truthy(item.url) || Truthy(item.website)
    ensures r.Some? ==> r.value != ""
    ensures Truthy(item.url) ==> r == item.url
    ensures !Truthy(item.url) && Truthy(item.website) ==> r == item.website
  {
    if Truthy(item.url) then item.url
    else if Truthy(item.website) then item.website
    else None
  }

  /** An entry the generator makes a QR code for. */
  predicate HasUrl(e: Entry)
  {
    e.Mapping? && ItemUrl(e.item).Some?
  }

  function CountWithUrl(entries: seq<Entry>): (n: nat)
    ensures n <= |entries|
    decreases |entries|
  {
    if |entries| == 0 then 0
    else CountWithUrl(entries[..|entries| - 1]) + (if HasUrl(entries[|entries| - 1]) then 1 else 0)
  }

  /** The file the generator writes for entry `j` (0-based). */
  predicate WrittenFor(entries: seq<Entry>, j: int, basename: string, dir: string, file: string)
  {
    0 <= j < |entries| && HasUrl(entries[j]) && file == QrFileName(entries[j].item, j + 1, basename, dir)
  }

  lemma CountWithUrlStep(entries: seq<Entry>, i: nat)
    requires i < |entries|
    ensures CountWithUrl(entries[..i + 1]) == CountWithUrl(entries[..i]) + if HasUrl(entries[i]) then 1 else 0
  {
    assert entries[..i + 1][..i] == entries[..i];
  }

  /** Files added for entry `i` keep every new file accounted for. */
  lemma WrittenGrows(entries: seq<Entry>, i: nat, basename: string, dir: string,
                     present: set<string>, before: set<string>, after: set<string>)
    requires forall f :: f in before - present ==> exists j :: WrittenFor(entries, j, basename, dir, f)
    requires forall f :: f in after - before ==> WrittenFor(entries, i, basename, dir, f)
    ensures forall f :: f in after - present ==> exists j :: WrittenFor(entries, j, basename, dir, f)
  {
    forall f | f in after - present
      ensures exists j :: WrittenFor(entries, j, basename, dir, f)
    {
      if f !in before {
        assert WrittenFor(entries, i, basename, dir, f);
      } else {
        assert f in before - present;
      }
    }
  }

  /** What one entry comes to. */
  datatype Outcome = Skipped | Succeeded | Failed

  /** The body of the loop of `process_yaml_file` for entry `i`: skipped
      without a link; a success when its file is already there or is drawn,
      and a failure otherwise. Only its own file is ever added. */
  method ProcessEntry(entries: seq<Entry>, i: nat, basename: string, dir: string, files: set<string>,
                      draw: (string, string) -> bool)
    returns (outcome: Outcome, after: set<string>)
    requires i < |entries|
    ensures outcome == Skipped <==> !HasUrl(entries[i])
    ensures outcome == Failed ==> exists u, f :: !draw(u, f)
    ensures outcome != Skipped ==> (outcome == Succeeded <==> QrFileName(entries[i].item, i + 1, basename, dir) in after)
    ensures files <= after
    ensures forall f :: f in after - files ==> WrittenFor(entries, i, basename, dir, f)
  {
    var e := entries[i];
    if !HasUrl(e) {
      return Skipped, files;
    }
    var file := QrFileName(e.item, i + 1, basename, dir);
    if file in files {
      return Succeeded, files;
    } else if draw(ItemUrl(e.item).value, file) {
      return Succeeded, files + {file};
    } else {
      return Failed, files;
    }
  }

  datatype Tally = Tally(success: nat, skipped: nat, failed: nat)

  /** `process_yaml_file`. `present` is the set of files that exist
      beforehand; `draw(url, file)` says whether drawing and saving the QR
      image succeeds. Returns the tally and the files that exist afterwards. */
  method ProcessYamlFile(doc: Document, basename: string, dir: string, present: set<string>,
                         draw: (string, string) -> bool)
    returns (tally: Tally, files: set<string>)
    ensures doc.NotAList? ==> tally == Tally(0, 0, 0) && files == present
    ensures doc.EntryList? ==> tally.success + tally.skipped + tally.failed == |doc.entries|
    ensures doc.EntryList? ==> tally.skipped == |doc.entries| - CountWithUrl(doc.entries)
    ensures present <= files
    ensures doc.EntryList? ==>
              forall f :: f in files - present ==>
                exists j :: WrittenFor(doc.entries, j, basename, dir, f)
    ensures (forall u, f :: draw(u, f)) ==> tally.failed == 0
  {
    if doc.NotAList? {
      return Tally(0, 0, 0), present;
    }
    var entries := doc.entries;
    tally := Tally(0, 0, 0);
    files := present;
    var i := 0;
    while i < |entries|
      invariant 0 <= i <= |entries|
      invariant tally.success + tally.skipped + tally.failed == i
      invariant tally.skipped == i - CountWithUrl(entries[..i])
      invariant present <= files
      invariant forall f :: f in files - present ==> exists j :: WrittenFor(entries, j, basename, dir, f)
      invariant (forall u, f :: draw(u, f)) ==> tally.failed == 0
    {
      CountWithUrlStep(entries, i);
      var outcome, after := ProcessEntry(entries, i, basename, dir, files, draw);
      WrittenGrows(entries, i, basename, dir, present, files, after);
      files := after;
      match outcome {
        case Skipped => tally := tally.(skipped := tally.skipped + 1);
        case Succeeded => tally := tally.(success := tally.success + 1);
        case Failed => tally := tally.(failed := tally.failed + 1);
      }
      i := i + 1;
    }
    assert entries[..i] == entries;
  }
}
