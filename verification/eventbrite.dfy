/** scripts/scrapers/scrape_eventbrite.py: reading events out of the
    JSON-LD blocks of the Eventbrite search page for Louisville, Colorado.
    Fetching the page and finding its `<script type="application/ld+json">`
    blocks are outside the model; each block arrives already decoded, and
    `datetime.fromisoformat` is an oracle. */
module Eventbrite {
  import opened Base
  import opened Text
  import opened Events

  /** A decoded JSON value. Numbers are integers here: no field the scraper
      reads is a fraction. */
  datatype Json =
    | JNull
    | JBool(b: bool)
    | JNum(n: int)
    | JStr(s: string)
    | JArr(items: seq<Json>)
    | JObj(fields: map<string, Json>)

  /** Python truthiness of a decoded value. */
  predicate JTruthy(v: Json)
  {
    match v
    case JNull => false
    case JBool(b) => b
    case JNum(n) => n != 0
    case JStr(s) => s != ""
    case JArr(items) => |items| > 0
    case JObj(fields) => |fields| > 0
  }

  /** `obj.get(key)` on an object; nothing on any other value. */
  function Get(v: Json, key: string): (r: Option<Json>)
    ensures r.Some? <==> v.JObj? && key in v.fields
  {
    if v.JObj? && key in v.fields then Some(v.fields[key]) else None
  }

  /** `obj.get('@type') == name`. */
  predicate HasType(v: Json, name: string)
  {
    Get(v, "@type") == Some(JStr(name))
  }

  /** The search page's own address, the `url` of events that give none. */
  const SearchPage: string := "https://www.eventbrite.com/d/co--louisville/events/"

  /** The elements a JSON-LD block lists: an `Event` object alone, the
      `itemListElement` of an `ItemList`, or the elements of an array.
      An `itemListElement` that is not an array yields no event in the
      source either: iterating an object or a string gives only strings,
      which are skipped, and iterating anything else raises before the
      first element. */
  function EventList(data: Json): (r: seq<Json>)
    ensures HasType(data, "Event") ==> r == [data]
    ensures data.JArr? ==> r == data.items
    ensures HasType(data, "ItemList") ==>
              r == match Get(data, "itemListElement") case Some(JArr(items)) => items case _ => []
    ensures !data.JArr? && !data.JObj? ==> r == []
    ensures data.JObj? && !HasType(data, "Event") && !HasType(data, "ItemList") ==> r == []
  {
    match data
    case JObj(_) =>
      if HasType(data, "Event") then [data]
      else if HasType(data, "ItemList") then
        match Get(data, "itemListElement")
        case Some(JArr(items)) => items
        case _ => []
      else []
    case JArr(items) => items
    case _ => []
  }

  /** A list element wrapped as `{"item": ...}` stands for its content. */
  function Unwrap(item: Json): (r: Json)
    ensures item.JObj? && "item" in item.fields ==> r == item.fields["item"]
    ensures !(item.JObj? && "item" in item.fields) ==> r == item
  {
    if item.JObj? && "item" in item.fields then item.fields["item"] else item
  }

  // ---------------------------------------------------------------------
  // Dates

  /** `parse_eventbrite_date`: the wall-clock time in ISO form with any UTC
      offset dropped. */
  function ParseEventbriteDate(text: string, fromIso: IsoParser): (r: Option<string>)
    ensures r.Some? <==> fromIso(IsoInput(text)).Some?
    ensures r.Some? ==> r.value == fromIso(IsoInput(text)).value.iso
  {
    match fromIso(IsoInput(text))
    case Some(dt) => Some(dt.iso)
    case None => None
  }

  /** A start time at midnight means the listing gave no time: seven in the
      evening is assumed instead. */
  function MidnightDefault(time: string): (r: string)
    ensures !EndsWith(time, "T00:00:00") ==> r == time
  {
    if EndsWith(time, "T00:00:00") then ReplaceAll(time, "T00:00:00", "T19:00:00") else time
  }

  /** When the date part carries no `T`, as in every ISO date, only the
      midnight suffix changes. */
  lemma MidnightDefaultTail(date: string)
    requires forall i :: 0 <= i < |date| ==> date[i] != 'T'
    ensures MidnightDefault(date + "T00:00:00") == date + "T19:00:00"
  {
    Framed(date, "T00:00:00", "");
    assert date + "T00:00:00" + "" == date + "T00:00:00";
    ReplaceTail(date, "T00:00:00", "T19:00:00");
  }

  /** The microsecond difference `end - start`, `None` where Python raises
      because one value is aware and the other naive. */
  function Elapsed(start: DateTime, end: DateTime): (r: Option<int>)
    ensures r.Some? <==> (start.offset.Some? <==> end.offset.Some?)
  {
    if start.offset.None? && end.offset.None? then Some(end.wall - start.wall)
    else if start.offset.Some? && end.offset.Some? then
      Some((end.wall - end.offset.value) - (start.wall - start.offset.value))
    else None
  }

  const MicrosPerMinute: int := 60_000_000

  /** `int(x / y)`: division rounding toward zero, as Python's `int` does
      to a quotient. */
  function TruncDiv(a: int, b: int): (q: int)
    requires b > 0
    ensures a >= 0 ==> q >= 0 && q * b <= a < (q + 1) * b
    ensures a < 0 ==> q <= 0 && (q - 1) * b < a <= q * b
  {
    if a >= 0 then
      DivBounds(a, b);
      a / b
    else
      NegDivBounds(a, b);
      -((-a) / b)
  }

  /** The negated quotient of a negative number's magnitude brackets it
      from above. */
  lemma NegDivBounds(a: int, b: int)
    requires a < 0 && b > 0
    ensures var q := -((-a) / b);
            q <= 0 && (q - 1) * b < a <= q * b
  {
    var p := (-a) / b;
    DivBounds(-a, b);
    MulNeg(p, b);
    MulNeg(p + 1, b);
  }

  lemma MulNeg(p: int, b: int)
    ensures (-p) * b == -(p * b)
  {
  }

  /** Euclidean division of a natural number brackets it between two
      multiples. */
  lemma DivBounds(a: int, b: int)
    requires a >= 0 && b > 0
    ensures a / b >= 0 && (a / b) * b <= a < (a / b + 1) * b
  {
    var q := a / b;
    assert a == q * b + a % b;
    assert (q + 1) * b == q * b + b;
  }

  /** The minutes an event lasts when the listing gives no usable end. */
  const DefaultDuration: int := 120

  /** The duration computation: whole minutes from start to end, or two
      hours when there is no end or either end does not parse. */
  function Duration(start: string, end: Option<Json>, fromIso: IsoParser): (r: int)
    ensures (end.None? || !JTruthy(end.value)) ==> r == DefaultDuration
  {
    if end.Some? && end.value.JStr? && end.value.s != "" then
      var s := fromIso(IsoInput(start));
      var t := fromIso(IsoInput(end.value.s));
      if s.Some? && t.Some? && Elapsed(s.value, t.value).Some? then
        TruncDiv(Elapsed(s.value, t.value).value, MicrosPerMinute)
      else DefaultDuration
    else DefaultDuration
  }

  /** An end that parses, on the same footing as the start, gives the
      elapsed whole minutes, rounded toward zero. */
  lemma DurationMinutes(start: string, end: string, fromIso: IsoParser, minutes: int, rest: int)
    requires end != ""
    requires fromIso(IsoInput(start)).Some? && fromIso(IsoInput(end)).Some?
    requires Elapsed(fromIso(IsoInput(start)).value, fromIso(IsoInput(end)).value)
             == Some(minutes * MicrosPerMinute + rest)
    requires minutes >= 0 && 0 <= rest < MicrosPerMinute
    ensures Duration(start, Some(JStr(end)), fromIso) == minutes
  {
    var us := minutes * MicrosPerMinute + rest;
    assert us / MicrosPerMinute == minutes;
  }

  // ---------------------------------------------------------------------
  // Location

  /** The address parts the scraper reads, in the order it joins them. */
  const AddressKeys: seq<string> := ["streetAddress", "addressLocality", "addressRegion", "postalCode"]

  /** The truthy values among `keys` in `addr`, in order. */
  function PresentParts(addr: Json, keys: seq<string>): (r: seq<Json>)
    ensures |r| <= |keys|
    ensures forall v :: v in r ==> JTruthy(v)
    decreases |keys|
  {
    if |keys| == 0 then []
    else
      var v := Get(addr, keys[0]);
      (if v.Some? && JTruthy(v.value) then [v.value] else []) + PresentParts(addr, keys[1..])
  }

  /** The texts of a list of values, `None` if one of them is not text. */
  function Texts(vs: seq<Json>): (r: Option<seq<string>>)
    ensures r.Some? <==> forall k :: 0 <= k < |vs| ==> vs[k].JStr?
    ensures r.Some? ==> |r.value| == |vs| && forall k :: 0 <= k < |vs| ==> r.value[k] == vs[k].s
    decreases |vs|
  {
    if |vs| == 0 then Some([])
    else if !vs[0].JStr? then None
    else
      match Texts(vs[1..])
      case Some(rest) => Some([vs[0].s] + rest)
      case None => None
  }

  /** What the location block yields: a name and an address, each possibly
      absent, or a failure where Python raises (`', '.join` over a part that
      is not text). */
  datatype Place = Place(name: Option<Json>, address: Option<string>) | PlaceError

  /** The address of a location block: the `', '`-join of the present parts
      of an address object, a text address as it is, or none. */
  function Address(addr: Json): (r: Option<Option<string>>)
    ensures addr.JStr? ==> r == Some(if addr.s != "" then Some(addr.s) else None)
    ensures addr.JObj? && PresentParts(addr, AddressKeys) == [] ==> r == Some(None)
    ensures r.Some? && r.value.Some? && addr.JObj? ==>
              forall v :: v in PresentParts(addr, AddressKeys) ==> v.JStr? && Contains(r.value.value, v.s)
  {
    if addr.JObj? then
      var parts := PresentParts(addr, AddressKeys);
      match Texts(parts)
      case None => None
      case Some(texts) =>
        if |texts| == 0 then Some(None)
        else
          var joined := Join(texts, ", ");
          forall v | v in parts
            ensures v.JStr? && Contains(joined, v.s)
          {
            var k :| 0 <= k < |parts| && parts[k] == v;
            JoinContains(texts, ", ", k);
          }
          Some(Some(joined))
    else if addr.JStr? && addr.s != "" then Some(Some(addr.s))
    else Some(None)
  }

  /** An address object with all four parts as non-empty text gives them
      joined by `", "` in the order street, locality, region, postal code. */
  lemma AddressAllParts(street: string, town: string, region: string, zip: string, extra: map<string, Json>)
    requires street != "" && town != "" && region != "" && zip != ""
    ensures var addr := JObj(extra["streetAddress" := JStr(street)]["addressLocality" := JStr(town)]
                                  ["addressRegion" := JStr(region)]["postalCode" := JStr(zip)]);
            Address(addr) == Some(Some(street + ", " + town + ", " + region + ", " + zip))
  {
    var addr := JObj(extra["streetAddress" := JStr(street)]["addressLocality" := JStr(town)]
                          ["addressRegion" := JStr(region)]["postalCode" := JStr(zip)]);
    var parts := PresentParts(addr, AddressKeys);
    PartsAll(addr, street, town, region, zip);
    var texts := [street, town, region, zip];
    assert Texts(parts).value == texts;
    JoinFour(street, town, region, zip);
  }

  lemma PartsAll(addr: Json, street: string, town: string, region: string, zip: string)
    requires street != "" && town != "" && region != "" && zip != ""
    requires Get(addr, "streetAddress") == Some(JStr(street)) && Get(addr, "addressLocality") == Some(JStr(town))
    requires Get(addr, "addressRegion") == Some(JStr(region)) && Get(addr, "postalCode") == Some(JStr(zip))
    ensures PresentParts(addr, AddressKeys) == [JStr(street), JStr(town), JStr(region), JStr(zip)]
  {
    var ks := AddressKeys;
    assert ks[1..][1..][1..][1..] == [];
  }

  /** Leaving out the street drops it and its separator. */
  lemma AddressNoStreet(town: string, region: string, zip: string, extra: map<string, Json>)
    requires town != "" && region != "" && zip != ""
    requires "streetAddress" !in extra
    ensures var addr := JObj(extra["addressLocality" := JStr(town)]
                                  ["addressRegion" := JStr(region)]["postalCode" := JStr(zip)]);
            Address(addr) == Some(Some(town + ", " + region + ", " + zip))
  {
    var addr := JObj(extra["addressLocality" := JStr(town)]
                          ["addressRegion" := JStr(region)]["postalCode" := JStr(zip)]);
    var parts := PresentParts(addr, AddressKeys);
    PartsNoStreet(addr, town, region, zip);
    var texts := [town, region, zip];
    assert Texts(parts).value == texts;
    JoinThree(town, region, zip);
  }

  lemma PartsNoStreet(addr: Json, town: string, region: string, zip: string)
    requires town != "" && region != "" && zip != ""
    requires Get(addr, "streetAddress") == None && Get(addr, "addressLocality") == Some(JStr(town))
    requires Get(addr, "addressRegion") == Some(JStr(region)) && Get(addr, "postalCode") == Some(JStr(zip))
    ensures PresentParts(addr, AddressKeys) == [JStr(town), JStr(region), JStr(zip)]
  {
    var ks := AddressKeys;
    assert ks[1..][1..][1..][1..] == [];
  }

  lemma JoinThree(a: string, b: string, c: string)
    ensures Join([a, b, c], ", ") == a + ", " + b + ", " + c
  {
    var ts := [a, b, c];
    assert ts[1..] == [b, c] && ts[1..][1..] == [c];
    assert Join([c], ", ") == c;
    assert Join([b, c], ", ") == b + ", " + c;
  }

  lemma JoinFour(a: string, b: string, c: string, d: string)
    ensures Join([a, b, c, d], ", ") == a + ", " + b + ", " + c + ", " + d
  {
    var ts := [a, b, c, d];
    assert ts[1..] == [b, c, d];
    JoinThree(b, c, d);
  }

  /** The location block of an event: its truthy `name`, and its address. */
  function PlaceOf(location: Option<Json>): (r: Place)
    ensures location.None? || !location.value.JObj? ==> r == Place(None, None)
  {
    if location.Some? && location.value.JObj? then
      var v := location.value;
      var name := if Get(v, "name").Some? && JTruthy(Get(v, "name").value) then Get(v, "name") else None;
      var addr := Get(v, "address");
      if addr.None? || !JTruthy(addr.value) then Place(name, None)
      else
        match Address(addr.value)
        case None => PlaceError
        case Some(a) => Place(name, a)
    else Place(None, None)
  }

  // ---------------------------------------------------------------------
  // One event

  /** What one listed element comes to: nothing, an event, or an exception
      that ends the processing of the rest of its block. */
  datatype Outcome = Skip | Emit(event: Event) | Raise

  /** The venue Eventbrite events are matched to. */
  const Underground: string := "The Louisville Underground"

  /** The longest description kept in full. */
  const DescriptionLimit: nat := 200

  /** A value as optional text: text as it is, `null` or absence as
      nothing. */
  function TextOf(v: Option<Json>): Option<string>
  {
    match v
    case Some(JStr(s)) => Some(s)
    case _ => None
  }

  /** `image`: the first of a list, then the `url` of an object. */
  function ImageOf(image: Option<Json>): Option<string>
  {
    var first := if image.Some? && image.value.JArr? && |image.value.items| > 0
                 then Some(image.value.items[0]) else image;
    if first.Some? && first.value.JObj? then TextOf(Get(first.value, "url")) else TextOf(first)
  }

  /** `event_data.get('url', url)`: the search page when the key is
      missing. */
  function UrlOf(v: Option<Json>): (r: Option<string>)
    ensures v.None? ==> r == Some(SearchPage)
    ensures v.Some? && v.value.JStr? ==> r == Some(v.value.s)
  {
    match v
    case None => Some(SearchPage)
    case Some(_) => TextOf(v)
  }

  /** The wall-clock reading of an element's `startDate`, when it is
      non-empty text that parses to a non-empty reading. */
  function StartOf(data: Json, fromIso: IsoParser): (r: Option<string>)
    ensures r.Some? <==> Get(data, "startDate").Some? && Get(data, "startDate").value.JStr?
                         && Get(data, "startDate").value.s != ""
                         && ParseEventbriteDate(Get(data, "startDate").value.s, fromIso).Some?
                         && ParseEventbriteDate(Get(data, "startDate").value.s, fromIso).value != ""
    ensures r.Some? ==> r == ParseEventbriteDate(Get(data, "startDate").value.s, fromIso)
  {
    var start := Get(data, "startDate");
    if start.None? || !start.value.JStr? || start.value.s == "" then None
    else
      match ParseEventbriteDate(start.value.s, fromIso)
      case Some(t) => if t == "" then None else Some(t)
      case None => None
  }

  /** The per-element body of the loop in `scrape_eventbrite`. */
  function Process(item: Json, fromIso: IsoParser): (r: Outcome)
    ensures !HasType(Unwrap(item), "Event") ==> r == Skip
    ensures r.Emit? ==> HasType(Unwrap(item), "Event")
    ensures r.Emit? ==> r.event.title != "" && Get(Unwrap(item), "name") == Some(JStr(r.event.title))
    ensures r.Emit? ==> StartOf(Unwrap(item), fromIso).Some?
                        && r.event.time == Some(MidnightDefault(StartOf(Unwrap(item), fromIso).value))
                        && r.event.duration == Duration(Get(Unwrap(item), "startDate").value.s,
                                                        Get(Unwrap(item), "endDate"), fromIso)
    ensures r.Emit? ==> r.event.location.Some?
                        && PlaceOf(Get(Unwrap(item), "location")) == Place(Some(JStr(r.event.location.value)), r.event.address)
    ensures r.Emit? ==> Some(r.event.description) == DescriptionOf(Get(Unwrap(item), "description"), r.event.location.value)
    ensures r.Emit? ==> r.event.url == UrlOf(Get(Unwrap(item), "url"))
    ensures r.Emit? ==> r.event.image == ImageOf(Get(Unwrap(item), "image")) && r.event.qrCode.None?
    ensures r.Emit? ==> r.event.location.Some? && !Contains(Lower(r.event.location.value), "online")
    ensures r.Emit? ==> r.event.address.Some?
                        && Contains(Lower(r.event.address.value), "louisville")
                        && Contains(Lower(r.event.address.value), "co")
    ensures r.Emit? ==> !r.event.isMajor && r.event.description != ""
                        && |r.event.description| <= DescriptionLimit + 3 + |r.event.location.value| + 9
    ensures r.Emit? ==> (r.event.relatedBusiness == Some(Underground)
                         <==> Contains(Lower(r.event.location.value), "louisville underground"))
    ensures r.Emit? ==> r.event.relatedBusiness.None? || r.event.relatedBusiness == Some(Underground)
  {
    var data := Unwrap(item);
    if !HasType(data, "Event") then Skip
    else
      var name := Get(data, "name");
      var start := Get(data, "startDate");
      if name.None? || !JTruthy(name.value) || !name.value.JStr? then Skip
      else if start.None? || !JTruthy(start.value) || !start.value.JStr? then Skip
      else
        match ParseEventbriteDate(start.value.s, fromIso)
        case None => Skip
        case Some(t) =>
          if t == "" then Skip
          else
            var time := MidnightDefault(t);
            var duration := Duration(start.value.s, Get(data, "endDate"), fromIso);
            match PlaceOf(Get(data, "location"))
            case PlaceError => Raise
            case Place(locName, address) =>
              if locName.None? then Skip
              else if !locName.value.JStr? then Raise
              else
                var venue := locName.value.s;
                if Contains(Lower(venue), "online") || address.None? then Skip
                else if !Contains(Lower(address.value), "louisville") || !Contains(Lower(address.value), "co") then Skip
                else
                  var url := UrlOf(Get(data, "url"));
                  match DescriptionOf(Get(data, "description"), venue)
                  case None => Raise
                  case Some(description) =>
                    Emit(Event(name.value.s, description, Some(time), duration, Some(venue), address,
                               url, ImageOf(Get(data, "image")), false,
                               if Contains(Lower(venue), "louisville underground") then Some(Underground) else None,
                               None))
  }

  /** An `Event` element with a non-empty text name, a start that reads,
      a named venue that is not online, an address in Louisville, CO and a
      description that is text or absent becomes an event. */
  lemma ProcessEmits(item: Json, fromIso: IsoParser, title: string, venue: string, address: string)
    requires HasType(Unwrap(item), "Event")
    requires title != "" && Get(Unwrap(item), "name") == Some(JStr(title))
    requires StartOf(Unwrap(item), fromIso).Some?
    requires PlaceOf(Get(Unwrap(item), "location")) == Place(Some(JStr(venue)), Some(address))
    requires !Contains(Lower(venue), "online")
    requires Contains(Lower(address), "louisville") && Contains(Lower(address), "co")
    requires Get(Unwrap(item), "description").None? || Get(Unwrap(item), "description").value.JStr?
    ensures Process(item, fromIso).Emit?
    ensures Process(item, fromIso).event.title == title
    ensures Process(item, fromIso).event.location == Some(venue)
    ensures Process(item, fromIso).event.address == Some(address)
  {
  }

  /** A listing whose start reads as a date at midnight is placed at seven
      in the evening on that date. */
  lemma ProcessMidnight(item: Json, fromIso: IsoParser, date: string)
    requires Process(item, fromIso).Emit?
    requires forall i :: 0 <= i < |date| ==> date[i] != 'T'
    requires StartOf(Unwrap(item), fromIso) == Some(date + "T00:00:00")
    ensures Process(item, fromIso).event.time == Some(date + "T19:00:00")
  {
    MidnightDefaultTail(date);
  }

  /** The description: at most 200 characters and an ellipsis, or
      `Event at {venue}` when empty; `None` where `len` raises on a value
      that is not text. */
  function DescriptionOf(description: Option<Json>, venue: string): (r: Option<string>)
    ensures description.None? ==> r == Some("Event at " + venue)
    ensures r.Some? ==> r.value != ""
    ensures r.Some? ==> |r.value| <= DescriptionLimit + 3 || r.value == "Event at " + venue
    ensures description.Some? && description.value.JStr? && description.value.s != "" ==>
              r == Some(Ellipsize(description.value.s, DescriptionLimit))
  {
    match description
    case None => Some("Event at " + venue)
    case Some(JStr(s)) =>
      var d := Ellipsize(s, DescriptionLimit);
      if d == "" then Some("Event at " + venue) else Some(d)
    case _ => None
  }

  /** The per-element body as a value, for the list-level definitions. */
  function StepOf(fromIso: IsoParser): Json -> Outcome
  {
    item => Process(item, fromIso)
  }

  /** Elements read by `step` in order until one raises. */
  function Run(items: seq<Json>, step: Json -> Outcome): (r: seq<Event>)
    ensures |r| <= |items|
    ensures forall e :: e in r ==> exists k :: 0 <= k < |items| && step(items[k]) == Emit(e)
    decreases |items|
  {
    if |items| == 0 then []
    else
      var rest := Run(items[1..], step);
      assert forall k :: 0 <= k < |items| - 1 ==> items[1..][k] == items[k + 1];
      match step(items[0])
      case Raise => []
      case Skip => rest
      case Emit(e) => [e] + rest
  }

  /** The elements of one block processed in order until one raises. */
  function ProcessAll(items: seq<Json>, fromIso: IsoParser): (r: seq<Event>)
    ensures |r| <= |items|
    ensures forall e :: e in r ==> exists k :: 0 <= k < |items| && Process(items[k], fromIso) == Emit(e)
  {
    Run(items, StepOf(fromIso))
  }

  /** The position of the first element that raises, or the length of the
      list when none does. */
  function FirstRaise(items: seq<Json>, step: Json -> Outcome): (n: nat)
    ensures n <= |items|
    ensures n < |items| ==> step(items[n]) == Raise
    decreases |items|
  {
    if |items| == 0 then 0
    else if step(items[0]) == Raise then 0
    else 1 + FirstRaise(items[1..], step)
  }

  /** No element before the first raise raises. */
  lemma {:induction false} FirstRaiseFirst(items: seq<Json>, step: Json -> Outcome, k: nat)
    requires k < FirstRaise(items, step)
    ensures step(items[k]) != Raise
    decreases |items|
  {
    if k > 0 {
      FirstRaiseFirst(items[1..], step, k - 1);
      assert items[1..][k - 1] == items[k];
    }
  }

  /** What one element contributes when it does not raise. */
  function EmitOf(item: Json, step: Json -> Outcome): seq<Event>
  {
    match step(item)
    case Emit(e) => [e]
    case _ => []
  }

  /** The reference reading: the events the elements emit, in list order,
      built from the back. */
  function Emits(items: seq<Json>, step: Json -> Outcome): (r: seq<Event>)
    decreases |items|
  {
    if |items| == 0 then []
    else Emits(items[..|items| - 1], step) + EmitOf(items[|items| - 1], step)
  }

  /** An event is among the emitted ones exactly when some element emits
      it. */
  lemma {:induction false} EmitsMembers(items: seq<Json>, step: Json -> Outcome, e: Event)
    ensures e in Emits(items, step) <==> exists k :: 0 <= k < |items| && step(items[k]) == Emit(e)
    decreases |items|
  {
    if |items| > 0 {
      var front := items[..|items| - 1];
      EmitsMembers(front, step, e);
      assert forall k :: 0 <= k < |front| ==> front[k] == items[k];
      if e in Emits(items, step) && e !in Emits(front, step) {
        assert step(items[|items| - 1]) == Emit(e);
      }
    }
  }

  lemma {:induction false} EmitsCons(x: Json, rest: seq<Json>, step: Json -> Outcome)
    ensures Emits([x] + rest, step) == EmitOf(x, step) + Emits(rest, step)
    decreases |rest|
  {
    var s := [x] + rest;
    if |rest| == 0 {
      assert s == [x] && s[..0] == [];
    } else {
      var front := rest[..|rest| - 1];
      assert s[..|s| - 1] == [x] + front;
      assert s[|s| - 1] == rest[|rest| - 1];
      EmitsCons(x, front, step);
    }
  }

  /** Reading a list stops at the first raise and keeps, in order, every
      event emitted before it. */
  lemma {:induction false} RunEmits(items: seq<Json>, step: Json -> Outcome)
    ensures Run(items, step) == Emits(items[..FirstRaise(items, step)], step)
    decreases |items|
  {
    var n := FirstRaise(items, step);
    if |items| > 0 {
      if step(items[0]) == Raise {
        assert items[..0] == [];
      } else {
        RunEmits(items[1..], step);
        var m := FirstRaise(items[1..], step);
        assert items[..n] == [items[0]] + items[1..][..m];
        EmitsCons(items[0], items[1..][..m], step);
      }
    }
  }

  /** Every event emitted before the first raise is kept. */
  lemma RunKeeps(items: seq<Json>, step: Json -> Outcome, k: nat)
    requires k < FirstRaise(items, step) && step(items[k]).Emit?
    ensures step(items[k]).event in Run(items, step)
  {
    var n := FirstRaise(items, step);
    RunEmits(items, step);
    assert items[..n][k] == items[k];
    EmitsMembers(items[..n], step, step(items[k]).event);
  }

  /** A block's events are exactly those its elements before the first
      raise emit, in order, and a block in which nothing raises gives all
      its elements' events. */
  lemma ProcessAllEmits(items: seq<Json>, fromIso: IsoParser)
    ensures var n := FirstRaise(items, StepOf(fromIso));
            ProcessAll(items, fromIso) == Emits(items[..n], StepOf(fromIso))
            && (n == |items| ==> ProcessAll(items, fromIso) == Emits(items, StepOf(fromIso)))
  {
    var step := StepOf(fromIso);
    RunEmits(items, step);
    if FirstRaise(items, step) == |items| {
      RunEmitsAll(items, step);
    }
  }

  lemma RunEmitsAll(items: seq<Json>, step: Json -> Outcome)
    requires FirstRaise(items, step) == |items|
    ensures Run(items, step) == Emits(items, step)
  {
    RunEmits(items, step);
    assert items[..|items|] == items;
  }

  /** Every event an element emits before the first raise is among the
      block's events. */
  lemma ProcessAllKeeps(items: seq<Json>, fromIso: IsoParser, k: nat)
    requires k < FirstRaise(items, StepOf(fromIso)) && Process(items[k], fromIso).Emit?
    ensures Process(items[k], fromIso).event in ProcessAll(items, fromIso)
  {
    var step := StepOf(fromIso);
    assert step(items[k]) == Process(items[k], fromIso);
    RunKeeps(items, step, k);
  }

  /** An element that raises ends its block: nothing after it is read. */
  lemma RaiseEndsBlock(items: seq<Json>, k: nat, fromIso: IsoParser)
    requires k < |items| && Process(items[k], fromIso) == Raise
    ensures ProcessAll(items, fromIso) == ProcessAll(items[..k], fromIso)
  {
    RunRaiseEnds(items, k, StepOf(fromIso));
  }

  lemma {:induction false} RunRaiseEnds(items: seq<Json>, k: nat, step: Json -> Outcome)
    requires k < |items| && step(items[k]) == Raise
    ensures Run(items, step) == Run(items[..k], step)
    decreases |items|
  {
    if k == 0 {
      assert items[..0] == [];
    } else {
      RunRaiseEnds(items[1..], k - 1, step);
      assert items[..k][0] == items[0] && items[..k][1..] == items[1..][..k - 1];
    }
  }

  /** A JSON-LD block: decoded, or text `json.loads` rejects. */
  datatype Block = Decoded(data: Json) | Malformed

  /** The events one block yields: those of its listed elements, or none
      when it does not decode. */
  function BlockEvents(b: Block, fromIso: IsoParser): seq<Event>
  {
    match b
    case Decoded(data) => ProcessAll(EventList(data), fromIso)
    case Malformed => []
  }

  /** What `eventsOf` gives for each block, concatenated in page order. */
  function Concat(blocks: seq<Block>, eventsOf: Block -> seq<Event>): (r: seq<Event>)
    decreases |blocks|
  {
    if |blocks| == 0 then [] else eventsOf(blocks[0]) + Concat(blocks[1..], eventsOf)
  }

  /** `BlockEvents` as a value, for `Concat`. */
  function BlockYield(fromIso: IsoParser): Block -> seq<Event>
  {
    b => BlockEvents(b, fromIso)
  }

  /** `scrape_eventbrite`: the events of every block, in page order; `None`
      is a page that could not be fetched. */
  function ScrapeEventbrite(page: Option<seq<Block>>, fromIso: IsoParser): (r: seq<Event>)
    ensures page.None? ==> r == []
    ensures page.Some? ==> r == Concat(page.value, BlockYield(fromIso))
    ensures page.Some? ==> forall e :: e in r <==> exists k :: 0 <= k < |page.value| && e in BlockEvents(page.value[k], fromIso)
    ensures forall e :: e in r ==> !e.isMajor && e.address.Some?
  {
    if page.None? then []
    else
      var blocks := page.value;
      var r := Concat(blocks, BlockYield(fromIso));
      forall e | true
        ensures e in r <==> exists k :: 0 <= k < |blocks| && e in BlockEvents(blocks[k], fromIso)
        ensures e in r ==> !e.isMajor && e.address.Some?
      {
        ConcatMembers(blocks, BlockYield(fromIso), e);
        if e in r {
          var k :| 0 <= k < |blocks| && e in BlockYield(fromIso)(blocks[k]);
          assert e in BlockEvents(blocks[k], fromIso);
        }
      }
      r
  }

  /** An event is in the concatenation exactly when some block yields it. */
  lemma {:induction false} ConcatMembers(blocks: seq<Block>, eventsOf: Block -> seq<Event>, e: Event)
    ensures e in Concat(blocks, eventsOf) <==> exists k :: 0 <= k < |blocks| && e in eventsOf(blocks[k])
    decreases |blocks|
  {
    if |blocks| > 0 {
      var rest := blocks[1..];
      ConcatMembers(rest, eventsOf, e);
      assert forall k :: 0 <= k < |rest| ==> rest[k] == blocks[k + 1];
      if e !in eventsOf(blocks[0]) && exists k :: 0 <= k < |blocks| && e in eventsOf(blocks[k]) {
        var k :| 0 <= k < |blocks| && e in eventsOf(blocks[k]);
        assert k > 0 && rest[k - 1] == blocks[k];
      }
    }
  }

  /** Blocks contribute in page order: the page's events are those of its
      first part followed by those of the rest. */
  lemma {:induction false} ConcatAppend(a: seq<Block>, b: seq<Block>, eventsOf: Block -> seq<Event>)
    ensures Concat(a + b, eventsOf) == Concat(a, eventsOf) + Concat(b, eventsOf)
    decreases |a|
  {
    if |a| == 0 {
      assert a + b == b;
    } else {
      ConcatAppend(a[1..], b, eventsOf);
      assert (a + b)[0] == a[0] && (a + b)[1..] == a[1..] + b;
    }
  }

  /** A block that does not decode contributes nothing to the page, and
      the blocks around it keep their events in order. */
  lemma MalformedBlockSkipped(a: seq<Block>, b: seq<Block>, fromIso: IsoParser)
    ensures Concat(a + [Malformed] + b, BlockYield(fromIso))
            == Concat(a, BlockYield(fromIso)) + Concat(b, BlockYield(fromIso))
  {
    MalformedAlone(fromIso);
    ConcatSilent(a, [Malformed], b, BlockYield(fromIso));
  }

  lemma ConcatSilent(a: seq<Block>, m: seq<Block>, b: seq<Block>, eventsOf: Block -> seq<Event>)
    requires Concat(m, eventsOf) == []
    ensures Concat(a + m + b, eventsOf) == Concat(a, eventsOf) + Concat(b, eventsOf)
  {
    ConcatAppend(a + m, b, eventsOf);
    ConcatAppend(a, m, eventsOf);
    assert Concat(a, eventsOf) + [] == Concat(a, eventsOf);
  }

  lemma MalformedAlone(fromIso: IsoParser)
    ensures Concat([Malformed], BlockYield(fromIso)) == []
  {
    var m: seq<Block> := [Malformed];
    assert BlockYield(fromIso)(Malformed) == [] && m[1..] == [];
  }
}
