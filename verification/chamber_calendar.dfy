/** scripts/scrapers/scrape_chamber_calendar.py: turning the Louisville
    Chamber of Commerce calendar's event cards into event records. Fetching
    the page and selecting elements with CSS selectors are outside the
    model: a card arrives as the texts of the elements the scraper reads.
    `datetime.strptime`, `datetime.fromisoformat` and the two date
    regular-expression searches are oracles, and the current year is a
    parameter. */
module ChamberCalendar {
  import opened Base
  import opened Text
  import opened Events
  import StreetAddress

  // ---------------------------------------------------------------------
  // Month names

  /** The table of `month_to_num`: full English month names and their
      three-letter abbreviations, lower case. */
  const MonthTable: map<string, string> := map[
    "jan" := "01", "january" := "01",
    "feb" := "02", "february" := "02",
    "mar" := "03", "march" := "03",
    "apr" := "04", "april" := "04",
    "may" := "05",
    "jun" := "06", "june" := "06",
    "jul" := "07", "july" := "07",
    "aug" := "08", "august" := "08",
    "sep" := "09", "september" := "09",
    "oct" := "10", "october" := "10",
    "nov" := "11", "november" := "11",
    "dec" := "12", "december" := "12"]

  const MonthNames: seq<string> := ["january", "february", "march", "april", "may", "june", "july",
                                    "august", "september", "october", "november", "december"]

  /** The two-digit number of each month, in calendar order. */
  const MonthCodes: seq<string> := ["01", "02", "03", "04", "05", "06", "07", "08", "09", "10", "11", "12"]

  /** `month_to_num`: case-insensitive lookup, defaulting to January. */
  function MonthToNum(name: string): (r: string)
    ensures r in MonthCodes
    ensures Lower(name) !in MonthTable ==> r == "01"
  {
    var key := Lower(name);
    if key in MonthTable then MonthTable[key] else "01"
  }

  /** Each month code is two digits denoting the month's number. */
  lemma MonthCodeValues(k: nat)
    requires k < 12
    ensures |MonthCodes[k]| == 2 && AllDigits(MonthCodes[k])
    ensures DigitsValue(MonthCodes[k]) == k + 1
  {
    var c := MonthCodes[k];
    assert c[..1][..0] == [];
    assert DigitsValue(c[..1]) == DigitValue(c[0]);
  }

  /** A month's full name and its three-letter abbreviation, in any letter
      case, give that month's number. */
  lemma MonthToNumNames(name: string, k: nat)
    requires k < 12
    requires Lower(name) == MonthNames[k] || Lower(name) == MonthNames[k][..3]
    ensures MonthToNum(name) == MonthCodes[k]
    ensures DigitsValue(MonthToNum(name)) == k + 1
  {
    MonthCodeValues(k);
    MonthTableEntry(k);
  }

  lemma MonthTableEntry(k: nat)
    requires k < 12
    ensures MonthNames[k] in MonthTable && MonthTable[MonthNames[k]] == MonthCodes[k]
    ensures MonthNames[k][..3] in MonthTable && MonthTable[MonthNames[k][..3]] == MonthCodes[k]
  {
    FullNameEntry(k);
    AbbreviationEntry(k);
  }

  lemma FullNameEntry(k: nat)
    requires k < 12
    ensures MonthNames[k] in MonthTable && MonthTable[MonthNames[k]] == MonthCodes[k]
  {
  }

  lemma AbbreviationEntry(k: nat)
    requires k < 12
    ensures MonthNames[k][..3] in MonthTable && MonthTable[MonthNames[k][..3]] == MonthCodes[k]
  {
    AbbreviationIsPrefix(k);
  }

  /** The first three letters of each month's name. */
  const MonthAbbreviations: seq<string> := ["jan", "feb", "mar", "apr", "may", "jun", "jul",
                                            "aug", "sep", "oct", "nov", "dec"]

  lemma AbbreviationIsPrefix(k: nat)
    requires k < 12
    ensures MonthNames[k][..3] == MonthAbbreviations[k]
  {
  }

  /** Whatever the name, the number is a two-digit month from 1 to 12. */
  lemma MonthToNumField(name: string)
    ensures |MonthToNum(name)| == 2 && AllDigits(MonthToNum(name))
    ensures 1 <= DigitsValue(MonthToNum(name)) <= 12
  {
    var k :| 0 <= k < 12 && MonthCodes[k] == MonthToNum(name);
    MonthCodeValues(k);
  }

  /** The lookup ignores letter case: an upper-cased name gives the same
      number. */
  lemma MonthToNumUpper(name: string)
    ensures MonthToNum(Upper(name)) == MonthToNum(name)
  {
    LowerUpper(name);
  }

  // ---------------------------------------------------------------------
  // 12-hour to 24-hour clock

  /** The hour arithmetic of `convert_to_24h`: with a meridiem, `PM` adds 12
      except at 12 and `12 AM` is midnight; without one the hour stays. */
  function Hour24(h: nat, meridiem: Option<string>): (r: nat)
    ensures r % 12 == h % 12
    ensures !Truthy(meridiem) ==> r == h
    ensures r == h || r == h + 12 || (h == 12 && r == 0)
  {
    if Truthy(meridiem) then
      var m := Upper(meridiem.value);
      if m == "PM" && h != 12 then h + 12
      else if m == "AM" && h == 12 then 0
      else h
    else h
  }

  /** On a clock hour 1..12 with `AM` or `PM` in any letter case, the result
      is an hour of the day, in the afternoon exactly for `PM`. */
  lemma Hour24Clock(h: nat, meridiem: string)
    requires 1 <= h <= 12
    requires Upper(meridiem) == "AM" || Upper(meridiem) == "PM"
    ensures Hour24(h, Some(meridiem)) < 24
    ensures Hour24(h, Some(meridiem)) >= 12 <==> Upper(meridiem) == "PM"
  {
    assert meridiem != "";
  }

  /** `convert_to_24h`: `None` where `int(hour)` raises. The hour is printed
      with at least two digits and the minute text is kept as it is. */
  function ConvertTo24h(hour: string, minute: string, meridiem: Option<string>): (r: Option<string>)
    ensures r.Some? <==> ParseInt(hour).Some?
    ensures r.Some? ==> EndsWith(r.value, ":" + minute)
  {
    match ParseInt(hour)
    case None => None
    case Some(h) =>
      var hh := ZeroFill(NatToString(Hour24(h, meridiem)), 2);
      Framed(hh, ":", minute);
      Some(hh + ":" + minute)
  }

  /** The hour field reads back as the converted hour: it is two digits for
      any hour of the day and denotes `Hour24`. */
  lemma ConvertTo24hHour(hour: string, minute: string, meridiem: Option<string>, h: nat)
    requires ParseInt(hour) == Some(h)
    requires Hour24(h, meridiem) < 100
    ensures ConvertTo24h(hour, minute, meridiem).Some?
    ensures var t := ConvertTo24h(hour, minute, meridiem).value;
            |t| == 3 + |minute| && AllDigits(t[..2]) && t[2] == ':' && t[3..] == minute
            && DigitsValue(t[..2]) == Hour24(h, meridiem)
  {
    var hh := ZeroFill(NatToString(Hour24(h, meridiem)), 2);
    var t := hh + ":" + minute;
    var hr := Hour24(h, meridiem);
    if hr >= 10 {
      assert |NatToString(hr / 10)| == 1;
    }
    assert |hh| == 2;
    assert t[..2] == hh;
    assert t[3..] == minute;
  }

  // ---------------------------------------------------------------------
  // ISO 8601 combined date and time of day

  /** The fields of a local date and time of day, as text. */
  datatype LocalDateTime = LocalDateTime(year: string, month: string, day: string,
                                         hour: string, minute: string, second: string)

  predicate DigitField(s: string, n: nat) { |s| == n && AllDigits(s) }

  /** Fields fit for the extended format of section 4.3.2 of ISO 8601:2004
      (`YYYY-MM-DDThh:mm:ss`): fixed-width digit fields, a month 1..12 and an
      hour 0..23. */
  predicate ValidFields(t: LocalDateTime)
  {
    DigitField(t.year, 4) && DigitField(t.month, 2) && DigitField(t.day, 2)
    && DigitField(t.hour, 2) && DigitField(t.minute, 2) && DigitField(t.second, 2)
    && 1 <= DigitsValue(t.month) <= 12 && DigitsValue(t.hour) <= 23
  }

  /** The extended-format rendering `YYYY-MM-DDThh:mm:ss`. */
  function Extended(t: LocalDateTime): string
  {
    t.year + "-" + t.month + "-" + t.day + "T" + t.hour + ":" + t.minute + ":" + t.second
  }

  /** A rendered date-time is 19 characters with its separators in place,
      and each field reads back from its fixed position. */
  lemma ExtendedFields(t: LocalDateTime)
    requires ValidFields(t)
    ensures var s := Extended(t);
            |s| == 19 && s[4] == '-' && s[7] == '-' && s[10] == 'T' && s[13] == ':' && s[16] == ':'
            && s[..4] == t.year && s[5..7] == t.month && s[8..10] == t.day
            && s[11..13] == t.hour && s[14..16] == t.minute && s[17..] == t.second
  {
    var s := Extended(t);
    assert s[..4] == t.year;
    assert s[5..7] == t.month;
    assert s[8..10] == t.day;
    assert s[11..13] == t.hour;
    assert s[14..16] == t.minute;
    assert s[17..] == t.second;
  }

  /** Rendering loses nothing: valid fields are recovered from the text. */
  lemma ExtendedInjective(a: LocalDateTime, b: LocalDateTime)
    requires ValidFields(a) && ValidFields(b)
    requires Extended(a) == Extended(b)
    ensures a == b
  {
    ExtendedFields(a);
    ExtendedFields(b);
  }

  // ---------------------------------------------------------------------
  // Date and time texts

  /** The groups of a match of
      `(?:\w{3}\s+)?(\w+)\s+(\d+)(?:,?\s+(\d{4}))?\s+(\d+):(\d+)\s*(AM|PM)?`. */
  datatype DateTimeGroups = DateTimeGroups(month: string, day: string, year: Option<string>,
                                           hour: string, minute: string, meridiem: Option<string>)

  /** The groups of a match of `(?:\w{3}\s+)?(\w+)\s+(\d+)(?:,?\s+(\d{4}))?`. */
  datatype DateGroups = DateGroups(month: string, day: string, year: Option<string>)

  /** The library calls the scraper relies on, and the current year:
      `strptime(text, format)` and `fromIso(text)` give the `isoformat()` of
      the parsed value or `None` where Python raises; `dateTime` and
      `dateOnly` are `re.search` with the two patterns above, ignoring case. */
  datatype Parsers = Parsers(
    strptime: (string, string) -> Option<string>,
    fromIso: string -> Option<string>,
    dateTime: string -> Option<DateTimeGroups>,
    dateOnly: string -> Option<DateGroups>,
    currentYear: nat)

  /** `match.group(3) if match.group(3) else str(datetime.now().year)`. */
  function YearText(year: Option<string>, currentYear: nat): (r: string)
    ensures Truthy(year) ==> r == year.value
    ensures !Truthy(year) ==> AllDigits(r) && DigitsValue(r) == currentYear
  {
    if Truthy(year) then year.value else NatToString(currentYear)
  }

  /** The regular-expression reading of `parse_datetime`:
      `{year}-{month}-{day}T{hh:mm}:00`, or `None` where the hour is not an
      integer. */
  function GroupsStamp(g: DateTimeGroups, currentYear: nat): (r: Option<string>)
    ensures r.Some? <==> ParseInt(g.hour).Some?
    ensures r.Some? ==> EndsWith(r.value, ":00")
  {
    match ConvertTo24h(g.hour, g.minute, g.meridiem)
    case None => None
    case Some(time) =>
      var stamp := YearText(g.year, currentYear) + "-" + MonthToNum(g.month) + "-"
                   + ZeroFill(g.day, 2) + "T" + time;
      Framed(stamp, ":", "00");
      Some(stamp + ":" + "00")
  }

  /** `parse_datetime`: the ISO reading when `fromisoformat` accepts the text
      (with `Z` spelled `+00:00`), else the regular-expression reading. */
  function ParseDatetime(text: string, parsers: Parsers): (r: Option<string>)
    ensures text == "" ==> r.None?
    ensures text != "" && parsers.fromIso(ReplaceAll(text, "Z", "+00:00")).Some? ==>
              r == parsers.fromIso(ReplaceAll(text, "Z", "+00:00"))
    ensures (text != "" && parsers.fromIso(ReplaceAll(text, "Z", "+00:00")).None?
             && parsers.dateTime(text).None?) ==> r.None?
    ensures r.Some? && parsers.fromIso(ReplaceAll(text, "Z", "+00:00")).None? ==> EndsWith(r.value, ":00")
  {
    if text == "" then None
    else
      var iso := parsers.fromIso(ReplaceAll(text, "Z", "+00:00"));
      if iso.Some? then iso
      else
        match parsers.dateTime(text)
        case None => None
        case Some(g) => GroupsStamp(g, parsers.currentYear)
  }

  /** Groups as the date-time pattern captures them from a real calendar
      card: a day of one or two digits, a four-digit year if any, a clock
      hour 1..12 with `AM` or `PM`, and a two-digit minute. */
  predicate CardGroups(g: DateTimeGroups)
  {
    1 <= |g.day| <= 2 && AllDigits(g.day)
    && (Truthy(g.year) ==> DigitField(g.year.value, 4))
    && ParseInt(g.hour).Some? && 1 <= ParseInt(g.hour).value <= 12
    && g.meridiem.Some? && (Upper(g.meridiem.value) == "AM" || Upper(g.meridiem.value) == "PM")
    && DigitField(g.minute, 2)
  }

  /** The fields a card's groups stand for. */
  predicate FieldsOf(t: LocalDateTime, g: DateTimeGroups, currentYear: nat)
    requires CardGroups(g) && ValidFields(t)
  {
    t.month == MonthToNum(g.month) && DigitsValue(t.day) == DigitsValue(g.day)
    && DigitsValue(t.hour) == Hour24(ParseInt(g.hour).value, g.meridiem) && t.minute == g.minute
    && t.second == "00"
    && (Truthy(g.year) ==> t.year == g.year.value)
    && (!Truthy(g.year) ==> DigitsValue(t.year) == currentYear)
  }

  /** On such groups the regular-expression reading is an extended-format
      ISO 8601 date-time whose fields are the captured ones: the looked-up
      month, the padded day, the year or else the current year, the 24-hour
      clock hour, the minute, and zero seconds. */
  lemma GroupsStampExtended(g: DateTimeGroups, currentYear: nat)
    requires CardGroups(g)
    requires 1000 <= currentYear <= 9999
    ensures exists t :: ValidFields(t) && FieldsOf(t, g, currentYear)
                        && GroupsStamp(g, currentYear) == Some(Extended(t))
  {
    var t := CardFields(g, currentYear);
    var time := ConvertTo24h(g.hour, g.minute, g.meridiem).value;
    ExtendedOf(t, YearText(g.year, currentYear) + "-" + MonthToNum(g.month) + "-" + ZeroFill(g.day, 2) + "T" + time);
  }

  /** The fields the groups of a card stand for, read off the stamp. */
  lemma CardFields(g: DateTimeGroups, currentYear: nat) returns (t: LocalDateTime)
    requires CardGroups(g)
    requires 1000 <= currentYear <= 9999
    ensures ConvertTo24h(g.hour, g.minute, g.meridiem).Some?
    ensures t.year == YearText(g.year, currentYear) && t.month == MonthToNum(g.month)
            && t.day == ZeroFill(g.day, 2)
            && ConvertTo24h(g.hour, g.minute, g.meridiem).value == t.hour + ":" + t.minute
    ensures ValidFields(t) && FieldsOf(t, g, currentYear)
  {
    var h := ParseInt(g.hour).value;
    Hour24Clock(h, g.meridiem.value);
    ConvertTo24hHour(g.hour, g.minute, g.meridiem, h);
    var time := ConvertTo24h(g.hour, g.minute, g.meridiem).value;
    var year := YearText(g.year, currentYear);
    if !Truthy(g.year) {
      YearDigits(currentYear);
    }
    MonthToNumField(g.month);
    t := LocalDateTime(year, MonthToNum(g.month), ZeroFill(g.day, 2), time[..2], g.minute, "00");
    assert time == t.hour + ":" + t.minute;
  }

  /** The same for the whole of `parse_datetime` when `fromisoformat`
      rejects the text and the pattern matches. */
  lemma ParseDatetimeExtended(text: string, parsers: Parsers)
    requires text != "" && parsers.fromIso(ReplaceAll(text, "Z", "+00:00")).None?
    requires parsers.dateTime(text).Some? && CardGroups(parsers.dateTime(text).value)
    requires 1000 <= parsers.currentYear <= 9999
    ensures exists t :: ValidFields(t) && FieldsOf(t, parsers.dateTime(text).value, parsers.currentYear)
                        && ParseDatetime(text, parsers) == Some(Extended(t))
  {
    GroupsStampExtended(parsers.dateTime(text).value, parsers.currentYear);
  }

  /** A year of the common era from 1000 to 9999 prints as four digits. */
  lemma YearDigits(y: nat)
    requires 1000 <= y <= 9999
    ensures |NatToString(y)| == 4
  {
    var a := y / 10;
    var b := a / 10;
    var c := b / 10;
    assert |NatToString(c)| == 1;
    assert |NatToString(b)| == 2;
    assert |NatToString(a)| == 3;
  }

  lemma ExtendedOf(t: LocalDateTime, stamp: string)
    requires stamp == t.year + "-" + t.month + "-" + t.day + "T" + t.hour + ":" + t.minute
    ensures stamp + ":" + t.second == Extended(t)
  {
  }

  /** `parse_date_only`: the date found by the date-only pattern at six in
      the evening. */
  function ParseDateOnly(text: string, parsers: Parsers): (r: Option<string>)
    ensures r.Some? <==> text != "" && parsers.dateOnly(text).Some?
    ensures r.Some? ==> EndsWith(r.value, "T18:00:00")
  {
    if text == "" then None
    else
      match parsers.dateOnly(text)
      case None => None
      case Some(g) => Some(DateStamp(g, parsers.currentYear))
  }

  /** `{year}-{month}-{day}T18:00:00`. */
  function DateStamp(g: DateGroups, currentYear: nat): (r: string)
    ensures EndsWith(r, "T18:00:00")
  {
    var date := YearText(g.year, currentYear) + "-" + MonthToNum(g.month) + "-" + ZeroFill(g.day, 2);
    Framed(date, "", "T18:00:00");
    assert date + "" == date;
    date + "T18:00:00"
  }

  /** On a day of one or two digits and a four-digit year, if any, the
      date-only reading is an extended-format date-time at 18:00:00. */
  lemma DateStampExtended(g: DateGroups, currentYear: nat)
    requires 1 <= |g.day| <= 2 && AllDigits(g.day) && (Truthy(g.year) ==> DigitField(g.year.value, 4))
    requires 1000 <= currentYear <= 9999
    ensures exists t :: ValidFields(t) && DateStamp(g, currentYear) == Extended(t)
                        && t.month == MonthToNum(g.month) && DigitsValue(t.day) == DigitsValue(g.day)
                        && t.hour == "18" && t.minute == "00" && t.second == "00"
  {
    var year := YearText(g.year, currentYear);
    if !Truthy(g.year) {
      YearDigits(currentYear);
    }
    MonthToNumField(g.month);
    var t := LocalDateTime(year, MonthToNum(g.month), ZeroFill(g.day, 2), "18", "00", "00");
    SixInTheEvening();
    assert ValidFields(t);
    ExtendedOf(t, year + "-" + MonthToNum(g.month) + "-" + ZeroFill(g.day, 2) + "T" + "18" + ":" + "00");
    EveningStamp(year + "-" + MonthToNum(g.month) + "-" + ZeroFill(g.day, 2));
  }

  lemma SixInTheEvening()
    ensures DigitField("18", 2) && DigitsValue("18") == 18
    ensures DigitField("00", 2) && DigitsValue("00") == 0
  {
    assert "18"[..1] == "1";
    assert "18"[..1][..0] == [];
    assert "00"[..1] == "0";
    assert "00"[..1][..0] == [];
  }

  lemma EveningStamp(date: string)
    ensures date + "T" + "18" + ":" + "00" + ":" + "00" == date + "T18:00:00"
  {
    assert "T" + "18" + ":" + "00" + ":" + "00" == "T18:00:00";
  }

  /** The same for the whole of `parse_date_only` when the pattern matches. */
  lemma ParseDateOnlyExtended(text: string, parsers: Parsers)
    requires text != "" && parsers.dateOnly(text).Some?
    requires var g := parsers.dateOnly(text).value;
             1 <= |g.day| <= 2 && AllDigits(g.day) && (Truthy(g.year) ==> DigitField(g.year.value, 4))
    requires 1000 <= parsers.currentYear <= 9999
    ensures exists t :: ValidFields(t) && ParseDateOnly(text, parsers) == Some(Extended(t))
                        && t.month == MonthToNum(parsers.dateOnly(text).value.month)
                        && t.hour == "18" && t.minute == "00" && t.second == "00"
  {
    DateStampExtended(parsers.dateOnly(text).value, parsers.currentYear);
  }

  /** The formats `parse_schema_datetime` tries, in order. */
  const SchemaFormats: seq<string> := ["%m/%d/%Y %I:%M:%S %p", "%m/%d/%Y %I:%M %p", "%m/%d/%Y"]

  /** The reading of the first format in `formats[i..]` that accepts `text`. */
  function FirstFormat(text: string, formats: seq<string>, i: nat,
                       strptime: (string, string) -> Option<string>): (r: Option<string>)
    ensures r.Some? ==> exists k :: i <= k < |formats| && r == strptime(text, formats[k])
                                    && forall j :: i <= j < k ==> strptime(text, formats[j]).None?
    ensures r.None? ==> forall k :: i <= k < |formats| ==> strptime(text, formats[k]).None?
    decreases |formats| - i
  {
    if i >= |formats| then None
    else if strptime(text, formats[i]).Some? then strptime(text, formats[i])
    else FirstFormat(text, formats, i + 1, strptime)
  }

  /** `parse_schema_datetime`: the first of the three formats that parses
      the `startDate` content. */
  function ParseSchemaDatetime(text: string, parsers: Parsers): (r: Option<string>)
    ensures text == "" ==> r.None?
    ensures r.Some? ==> exists k :: 0 <= k < |SchemaFormats| && r == parsers.strptime(text, SchemaFormats[k])
                                    && forall j :: 0 <= j < k ==> parsers.strptime(text, SchemaFormats[j]).None?
    ensures text != "" && r.None? ==> forall k :: 0 <= k < |SchemaFormats| ==> parsers.strptime(text, SchemaFormats[k]).None?
  {
    if text == "" then None else FirstFormat(text, SchemaFormats, 0, parsers.strptime)
  }

  // ---------------------------------------------------------------------
  // Classification and addresses

  /** Title keywords that mark a major event. */
  const MajorKeywords: seq<string> := ["festival", "taste of louisville", "pints in the park",
                                       "golf scramble", "awards dinner", "summerfest"]

  /** Whether one of `words[i..]` occurs in `text`. */
  function AnyOccurs(text: string, words: seq<string>, i: nat): (r: bool)
    ensures r <==> exists k :: i <= k < |words| && Contains(text, words[k])
    decreases |words| - i
  {
    if i >= |words| then false
    else Contains(text, words[i]) || AnyOccurs(text, words, i + 1)
  }

  /** A card is a major event exactly when its lower-cased title contains
      one of the keywords. */
  function IsMajor(title: string): (r: bool)
    ensures r <==> exists k :: 0 <= k < |MajorKeywords| && Contains(Lower(title), MajorKeywords[k])
  {
    AnyOccurs(Lower(title), MajorKeywords, 0)
  }

  /** Any title mentioning a festival is major, in whatever letter case. */
  lemma FestivalIsMajor(title: string, i: nat)
    requires OccursAt(Lower(title), "festival", i)
    ensures IsMajor(title)
  {
    ContainsIff(Lower(title), "festival");
    assert Contains(Lower(title), MajorKeywords[0]);
  }

  /** The businesses the calendar's events are matched against, in the
      order they are tried. */
  const KnownBusinesses: seq<string> := ["12Degree Brewing", "Bittersweet Cafe", "Moxie Bread",
                                         "Shopey's Pizza", "Louisville Center for the Arts"]

  /** The first of `names[i..]` whose lower-cased form occurs in `text`. */
  function FirstMentioned(text: string, names: seq<string>, i: nat): (r: Option<nat>)
    ensures r.Some? ==> i <= r.value < |names| && Contains(text, Lower(names[r.value]))
    ensures r.Some? ==> forall j :: i <= j < r.value ==> !Contains(text, Lower(names[j]))
    ensures r.None? ==> forall j :: i <= j < |names| ==> !Contains(text, Lower(names[j]))
    decreases |names| - i
  {
    if i >= |names| then None
    else if Contains(text, Lower(names[i])) then Some(i)
    else FirstMentioned(text, names, i + 1)
  }

  /** `match_related_business`: the first known business named anywhere in
      the title, description or location, ignoring letter case. */
  function MatchRelatedBusiness(title: string, description: string, location: string): (r: Option<string>)
    ensures var text := Lower(title + " " + description + " " + location);
            && (r.Some? ==> exists k :: 0 <= k < |KnownBusinesses| && r.value == KnownBusinesses[k]
                                        && Contains(text, Lower(KnownBusinesses[k]))
                                        && forall j :: 0 <= j < k ==> !Contains(text, Lower(KnownBusinesses[j])))
            && (r.None? <==> forall k :: 0 <= k < |KnownBusinesses| ==> !Contains(text, Lower(KnownBusinesses[k])))
  {
    match FirstMentioned(Lower(title + " " + description + " " + location), KnownBusinesses, 0)
    case Some(k) => Some(KnownBusinesses[k])
    case None => None
  }

  /** The address used when nothing better is known. */
  const DefaultAddress: string := "Louisville, CO 80027"

  /** `extract_address`: the leftmost street address in the lower-cased
      location and description, completed with the town when the text does
      not mention it; otherwise the location, or the town's address when
      there is no location. */
  function ExtractAddress(location: string, description: string): (r: string)
    ensures var text := Lower(location + " " + description);
            && (StreetAddress.StreetSearch(text).None? ==> r == if location != "" then location else DefaultAddress)
            && (StreetAddress.StreetSearch(text).Some? ==>
                  var m := StreetAddress.StreetSearch(text).value;
                  StartsWith(r, text[m.start..m.end])
                  && (Contains(text, "louisville") ==> r == text[m.start..m.end])
                  && (!Contains(text, "louisville") ==> r == text[m.start..m.end] + ", " + DefaultAddress))
  {
    var text := Lower(location + " " + description);
    match StreetAddress.StreetSearch(text)
    case Some(m) =>
      var street := text[m.start..m.end];
      if Contains(text, "louisville") then street
      else
        Framed(street, ", " + DefaultAddress, "");
        assert street + (", " + DefaultAddress) + "" == street + ", " + DefaultAddress;
        street + ", " + DefaultAddress
    case None => if location != "" then location else DefaultAddress
  }

  /** Stated against the street pattern itself: when the text holds no
      street address, the result is the location, or the town's address
      when there is no location. */
  lemma ExtractAddressNoStreet(location: string, description: string)
    requires forall i, d, p, n :: !StreetAddress.StreetAt(Lower(location + " " + description), StreetAddress.Suffixes, i, d, p, n)
    ensures ExtractAddress(location, description) == if location != "" then location else DefaultAddress
  {
    StreetAddress.StreetSearchNone(Lower(location + " " + description));
  }

  /** When the text holds a street address, the result begins with the text
      of the match Python's search reports: the leftmost, with the longest
      run before the street type and the first street type that fits. */
  lemma ExtractAddressStreet(location: string, description: string, i0: nat, d0: nat, p0: nat, n0: nat)
    requires StreetAddress.StreetAt(Lower(location + " " + description), StreetAddress.Suffixes, i0, d0, p0, n0)
    ensures var text := Lower(location + " " + description);
            exists a, e :: StreetAddress.Reported(text, a, e) && 0 <= a <= e <= |text|
                           && StartsWith(ExtractAddress(location, description), text[a..e])
  {
    var text := Lower(location + " " + description);
    StreetAddress.StreetSearchFinds(text, i0, d0, p0, n0);
    var m := StreetAddress.StreetSearch(text).value;
    assert StartsWith(ExtractAddress(location, description), text[m.start..m.end]);
  }

  // ---------------------------------------------------------------------
  // Event cards

  /** The parts of one calendar card the scraper reads, as stripped text.
      `title` is `None` when the card has no title link; `href` when the
      link has no target; `schemaStart` when there is no `startDate` meta
      element with a `content` attribute; `location` and `description`
      when those elements are missing. Missing month, day and time
      elements read as empty text. */
  datatype Card = Card(
    title: Option<string>,
    href: Option<string>,
    month: string,
    day: string,
    time: string,
    schemaStart: Option<string>,
    location: Option<string>,
    description: Option<string>)

  /** The minutes an event from the calendar is assumed to last. */
  const ChamberDuration: int := 120

  /** The text the primary parse reads, and its reading. */
  function PrimaryTime(card: Card, parsers: Parsers): Option<string>
  {
    if card.schemaStart.Some? then ParseSchemaDatetime(card.schemaStart.value, parsers)
    else ParseDatetime(Strip(card.month + " " + card.day + " " + card.time), parsers)
  }

  /** The text of the card's month and day, the date alone. */
  function DateText(card: Card): string
  {
    Strip(card.month + " " + card.day)
  }

  /** The record built once the card has a title and a time. */
  function Record(card: Card, title: string, time: string): (e: Event)
    ensures e.title == title && e.time == Some(time)
    ensures e.duration == ChamberDuration && e.image.None? && e.qrCode.None?
    ensures e.location == Some(card.location.GetOr(DefaultLocation))
    ensures e.description == card.description.GetOr("")
    ensures e.url == Some(card.href.GetOr(""))
    ensures e.isMajor == IsMajor(title)
    ensures e.address == Some(ExtractAddress(e.location.value, e.description))
    ensures e.relatedBusiness == MatchRelatedBusiness(title, e.description, e.location.value)
  {
    var location := card.location.GetOr(DefaultLocation);
    var description := card.description.GetOr("");
    Event(title, description, Some(time), ChamberDuration, Some(location),
          Some(ExtractAddress(location, description)), Some(card.href.GetOr("")), None,
          IsMajor(title), MatchRelatedBusiness(title, description, location), None)
  }

  /** `parse_event_item` as written: when the primary parse fails, the
      fallback names the undefined variable `date_text`; the `NameError` is
      caught by the function's own handler and the card yields nothing. */
  function ParseEventItemAsWritten(card: Card, parsers: Parsers): (r: Option<Event>)
    ensures card.title.None? ==> r.None?
    ensures r.Some? <==> card.title.Some? && PrimaryTime(card, parsers).Some?
  {
    if card.title.None? then None
    else
      match PrimaryTime(card, parsers)
      case Some(time) => Some(Record(card, card.title.value, time))
      case None => None
  }

  /** `parse_event_item` with the fallback reading the card's month and day
      through `parse_date_only`, as its comment describes. */
  function ParseEventItem(card: Card, parsers: Parsers): (r: Option<Event>)
    ensures card.title.None? ==> r.None?
    ensures r.Some? <==> card.title.Some? && (PrimaryTime(card, parsers).Some?
                                              || ParseDateOnly(DateText(card), parsers).Some?)
    ensures r.Some? ==> r.value.title == card.title.value && r.value.time.Some?
                        && r.value.duration == ChamberDuration && r.value.image.None?
    ensures r.Some? && PrimaryTime(card, parsers).None? ==> EndsWith(r.value.time.value, "T18:00:00")
  {
    if card.title.None? then None
    else
      match PrimaryTime(card, parsers)
      case Some(time) => Some(Record(card, card.title.value, time))
      case None =>
        match ParseDateOnly(DateText(card), parsers)
        case Some(time) => Some(Record(card, card.title.value, time))
        case None => None
  }

  /** The two agree whenever the primary parse succeeds. */
  lemma ParseEventItemAgrees(card: Card, parsers: Parsers)
    requires PrimaryTime(card, parsers).Some?
    ensures ParseEventItem(card, parsers) == ParseEventItemAsWritten(card, parsers)
  {
  }

  /** A titled card whose time cannot be read but whose date can (a card
      with no time element, say): as written it is lost, while the fallback
      keeps it at six in the evening. */
  lemma DateFallbackLost(card: Card, parsers: Parsers)
    requires card.title.Some? && PrimaryTime(card, parsers).None?
    requires DateText(card) != "" && parsers.dateOnly(DateText(card)).Some?
    ensures ParseEventItemAsWritten(card, parsers).None?
    ensures ParseEventItem(card, parsers).Some?
    ensures EndsWith(ParseEventItem(card, parsers).value.time.value, "T18:00:00")
  {
  }

  /** Every record from the calendar lasts two hours, has no image, and is
      major exactly when its title names a major-event keyword. */
  lemma CalendarRecordDefaults(card: Card, parsers: Parsers)
    requires ParseEventItem(card, parsers).Some?
    ensures var e := ParseEventItem(card, parsers).value;
            e.duration == 120 && e.image.None? && e.location.Some?
            && (e.isMajor <==> exists k :: 0 <= k < |MajorKeywords| && Contains(Lower(e.title), MajorKeywords[k]))
            && (card.location.None? ==> e.location == Some(DefaultLocation))
  {
  }

  /** `parse_event_item` as written, as a value. */
  function AsWrittenOf(parsers: Parsers): Card -> Option<Event>
  {
    c => ParseEventItemAsWritten(c, parsers)
  }

  /** The corrected `parse_event_item`, as a value. */
  function CorrectedOf(parsers: Parsers): Card -> Option<Event>
  {
    c => ParseEventItem(c, parsers)
  }

  /** `scrape_chamber_calendar`: the records `parse_event_item`, as written,
      makes of the cards, in page order; `None` is a page that could not be
      fetched. */
  function ScrapeChamberCalendar(page: Option<seq<Card>>, parsers: Parsers): (r: seq<Event>)
    ensures page.None? ==> r == []
    ensures page.Some? ==> r == CollectCards(page.value, AsWrittenOf(parsers))
    ensures page.Some? ==> |r| <= |page.value|
    ensures page.Some? ==> forall e :: e in r <==>
              exists k :: 0 <= k < |page.value| && ParseEventItemAsWritten(page.value[k], parsers) == Some(e)
    ensures forall e :: e in r ==> e.duration == ChamberDuration && e.image.None? && e.time.Some?
  {
    if page.None? then []
    else
      var cards := page.value;
      var r := CollectCards(cards, AsWrittenOf(parsers));
      forall e | true
        ensures e in r <==> exists k :: 0 <= k < |cards| && ParseEventItemAsWritten(cards[k], parsers) == Some(e)
      {
        CollectCardsMembers(cards, AsWrittenOf(parsers), e);
      }
      r
  }

  /** The same scrape with the corrected fallback. */
  function ScrapeChamberCalendarCorrected(page: Option<seq<Card>>, parsers: Parsers): (r: seq<Event>)
    ensures page.None? ==> r == []
    ensures page.Some? ==> r == CollectCards(page.value, CorrectedOf(parsers))
    ensures page.Some? ==> forall e :: e in r <==>
              exists k :: 0 <= k < |page.value| && ParseEventItem(page.value[k], parsers) == Some(e)
  {
    if page.None? then []
    else
      var cards := page.value;
      var r := CollectCards(cards, CorrectedOf(parsers));
      forall e | true
        ensures e in r <==> exists k :: 0 <= k < |cards| && ParseEventItem(cards[k], parsers) == Some(e)
      {
        CollectCardsMembers(cards, CorrectedOf(parsers), e);
      }
      r
  }

  /** The loop of `scrape_chamber_calendar`: what `parse` makes of each
      card, in order, skipping the cards it makes nothing of. */
  function CollectCards(cards: seq<Card>, parse: Card -> Option<Event>): (r: seq<Event>)
    ensures |r| <= |cards|
    ensures |r| == |cards| <==> forall k :: 0 <= k < |cards| ==> parse(cards[k]).Some?
    decreases |cards|
  {
    if |cards| == 0 then []
    else
      var rest := CollectCards(cards[1..], parse);
      assert forall k :: 0 <= k < |cards| - 1 ==> cards[1..][k] == cards[k + 1];
      match parse(cards[0])
      case Some(e) => [e] + rest
      case None => rest
  }

  /** A record is collected exactly when some card yields it. */
  lemma {:induction false} CollectCardsMembers(cards: seq<Card>, parse: Card -> Option<Event>, e: Event)
    ensures e in CollectCards(cards, parse) <==> exists k :: 0 <= k < |cards| && parse(cards[k]) == Some(e)
    decreases |cards|
  {
    if |cards| > 0 {
      var rest := cards[1..];
      CollectCardsMembers(rest, parse, e);
      assert forall k :: 0 <= k < |rest| ==> rest[k] == cards[k + 1];
      if parse(cards[0]) != Some(e) && exists k :: 0 <= k < |cards| && parse(cards[k]) == Some(e) {
        var k :| 0 <= k < |cards| && parse(cards[k]) == Some(e);
        assert k > 0 && rest[k - 1] == cards[k];
      }
    }
  }

  /** Records keep the page order: collecting two runs of cards gives the
      records of the first followed by those of the second. */
  lemma {:induction false} CollectCardsAppend(a: seq<Card>, b: seq<Card>, parse: Card -> Option<Event>)
    ensures CollectCards(a + b, parse) == CollectCards(a, parse) + CollectCards(b, parse)
    decreases |a|
  {
    if |a| == 0 {
      assert a + b == b;
    } else {
      CollectCardsAppend(a[1..], b, parse);
      assert (a + b)[0] == a[0] && (a + b)[1..] == a[1..] + b;
    }
  }

  /** Two parsers that agree on every card collect the same records. */
  lemma {:induction false} CollectCardsSame(cards: seq<Card>, p: Card -> Option<Event>, q: Card -> Option<Event>)
    requires forall k :: 0 <= k < |cards| ==> p(cards[k]) == q(cards[k])
    ensures CollectCards(cards, p) == CollectCards(cards, q)
    decreases |cards|
  {
    if |cards| > 0 {
      assert forall k :: 0 <= k < |cards| - 1 ==> cards[1..][k] == cards[k + 1];
      CollectCardsSame(cards[1..], p, q);
    }
  }

  /** As written, a page whose cards all carry a readable time is scraped
      as the corrected program would scrape it, while a page on which no
      card's time can be read yields nothing, whatever its dates. */
  lemma ScrapeAsWrittenVersusCorrected(cards: seq<Card>, parsers: Parsers)
    ensures (forall k :: 0 <= k < |cards| ==> PrimaryTime(cards[k], parsers).Some?) ==>
              ScrapeChamberCalendar(Some(cards), parsers) == ScrapeChamberCalendarCorrected(Some(cards), parsers)
    ensures (forall k :: 0 <= k < |cards| ==> PrimaryTime(cards[k], parsers).None?) ==>
              ScrapeChamberCalendar(Some(cards), parsers) == []
  {
    var w := AsWrittenOf(parsers);
    if forall k :: 0 <= k < |cards| ==> PrimaryTime(cards[k], parsers).Some? {
      forall k | 0 <= k < |cards|
        ensures w(cards[k]) == CorrectedOf(parsers)(cards[k])
      {
        ParseEventItemAgrees(cards[k], parsers);
      }
      CollectCardsSame(cards, w, CorrectedOf(parsers));
    }
    if forall k :: 0 <= k < |cards| ==> PrimaryTime(cards[k], parsers).None? {
      var r := CollectCards(cards, w);
      if |r| > 0 {
        CollectCardsMembers(cards, w, r[0]);
      }
    }
  }
}
