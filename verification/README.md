# Louisville kiosk content preparation, in Dafny

The Louisville, Colorado kiosk shows local businesses, town facts and upcoming
events, each with a QR code and a map. A set of Python scripts prepares that
content before the browser sees it. This project models the rules those
scripts follow:

- the one `slugify` the scripts share, which names every QR, map and event-image file;
- the naming of QR images (`generate_qrcodes.py`) and the `qr_code` field
  written into events (`add_event_qrcodes.py`);
- reading the Chamber of Commerce calendar (`scrapers/scrape_chamber_calendar.py`):
  month names, the 12-hour clock, ISO 8601 extended date-times, the major-event
  keywords, the related-business matcher and the street-address search;
- reading Eventbrite's JSON-LD blocks (`scrapers/scrape_eventbrite.py`);
- gathering the scrapers' events, keeping today's and later ones and naming
  event images (`scrape_events.py`);
- cleaning and completing addresses, removing repeated events, naming map
  images and clearing out superseded ones (`generate_maps.py`).

The browser-side rotation scheduler and playback are not among the modelled
sources: no code for them is part of this model. Where the written
description of the system and the code differ, the model follows the code.
The members named after the scripts model the code as written, including
the two defects listed under Findings; the corrected behaviour is modelled
alongside, in members whose names say so.

Everything is pure: immutable datatypes and functions, with methods for the
loops that keep counters. The clock (today's midnight, the current year), the
file system (which files exist, whether a QR code or map is drawn, whether a
download is saved), the geocoder, MD5, and Python's `strptime`/`fromisoformat`
are parameters. The two chamber date regular-expression searches are
parameters too, handing back their captured groups.

Modules, one per file: `Base` (options, truthiness, subsequences), `Text`
(ASCII case, trimming, searching, joining, digits), `Events` (the event
record), `Slug`, `QrCodes`, `EventQrCodes`, `StreetAddress` (the address
search of the chamber scraper), `ChamberCalendar`, `Eventbrite`,
`EventPipeline` and `Maps`.

## Model

| member | source | states |
|---|---|---|
| Slug.RemoveDisallowed | scripts/generate_qrcodes.py:15 | Only word characters, whitespace and hyphens survive. The text never grows, and no capital appears that was not there. |
| Slug.CollapseShape | scripts/generate_qrcodes.py:16 | After collapsing, separators remain only as single hyphens and no two hyphens are adjacent. A leading hyphen appears exactly when the text starts with a separator. Text made of separators, lower-case letters and digits collapses to slug characters only. |
| Slug.Slugify | scripts/generate_qrcodes.py:12-17 | Every result is a slug: lower-case ASCII letters, digits and hyphens, no doubled hyphen, and no hyphen at either end. |
| Slug.TrimHyphensGivesSlug | scripts/generate_qrcodes.py:17 | Stripping the end hyphens of a collapsed text yields a slug. |
| Slug.RemoveDisallowedKeepsKept | scripts/generate_qrcodes.py:15 | Text holding only allowed characters passes the first substitution unchanged. |
| Slug.CollapseKeepsSlugs | scripts/generate_qrcodes.py:16 | Slug characters with no doubled hyphen pass the second substitution unchanged. |
| Slug.SlugifyKeepsSlugs | scripts/generate_qrcodes.py:12-17 | A slug is its own slug. |
| Slug.SlugifyIdempotent | scripts/generate_qrcodes.py:12-17 | Slugifying twice gives the same as slugifying once. |
| Slug.CollapseJoinedWords | scripts/generate_qrcodes.py:16 | Plain words joined by single spaces collapse to the same words joined by hyphens. |
| Slug.SlugifyJoinsWords | scripts/generate_qrcodes.py:12-17 | A title whose lower-case form is plain words separated by single spaces slugs to those words joined by hyphens. |
| Slug.BittersweetCafeSlug | scripts/generate_qrcodes.py:76 | "Bittersweet Cafe" slugs to "bittersweet-cafe". |
| Slug.AlnumRemoveDisallowed | scripts/generate_qrcodes.py:15 | The first substitution keeps every lower-case letter and digit, in order. |
| Slug.AlnumCollapse | scripts/generate_qrcodes.py:16 | Collapsing separators keeps every lower-case letter and digit, in order. |
| Slug.AlnumTrimHyphens | scripts/generate_qrcodes.py:17 | Stripping hyphens keeps every lower-case letter and digit. |
| Slug.SlugifyKeepsAlnums | scripts/generate_qrcodes.py:12-17 | The slug's letters and digits are exactly those of the lower-cased text, in order. Nothing is invented and nothing alphanumeric is lost. |
| Slug.SlugifyEmptyIff | scripts/generate_qrcodes.py:12-17 | The slug is empty exactly when the lower-cased text has no ASCII letter or digit. |
| QrCodes.ItemIdentifier | scripts/generate_qrcodes.py:55-70 | The tag is `name` exactly when the item has a name. It is `title` when there is a title but no name, and `content` when there is content but neither. The text is the field the tag names. Content of at most 50 characters is kept whole. Longer content becomes 53 characters: its first 50, then "...". Otherwise the text is "Item from {basename}". |
| QrCodes.QrFileName | scripts/generate_qrcodes.py:72-100 | One name per documented case, each under `{dir}/` and ending in `-qr.png`. `town-facts` gives `fact-{index}`. `events` gives `event-` and the slug of the identifier. A named business gives the slug of its name. Other files give `{basename}-` and the slug of the name, else of the title. An entry with neither gives `{basename}-{index}`. |
| QrCodes.QrFileNameInjective | scripts/generate_qrcodes.py:72-100 | Two items share a file in the same directory exactly when their stems agree. |
| QrCodes.FactFileNames | scripts/generate_qrcodes.py:83-85 | In `town-facts` the file depends only on the position. Items at the same index share it, whatever their fields, and different indexes never do. |
| QrCodes.NumberedFileNames | scripts/generate_qrcodes.py:98-100 | In a file other than `town-facts` and `events`, entries with neither name nor title are numbered by position. Two such entries share a file exactly when they share an index, and entry 1 of `town-images` is `town-images-1-qr.png`. |
| QrCodes.PrefixedFileNames | scripts/generate_qrcodes.py:94-97 | In a file other than `town-facts`, `events` and `businesses`, a named or titled entry is filed under `{basename}-` and the slug of its name, else of its title. |
| QrCodes.EventStem | scripts/generate_qrcodes.py:86-89 | An `events` stem is `event-` followed by a slug: that of the item's identifier. |
| QrCodes.BusinessStem | scripts/generate_qrcodes.py:90-100 | A named business's stem is the slug of its name. An unnamed one falls through to a `businesses-` prefixed stem. |
| QrCodes.BittersweetCafeQrFile | scripts/generate_qrcodes.py:76 | The business "Bittersweet Cafe" gets `bittersweet-cafe-qr.png` at any position. |
| QrCodes.ItemUrl | scripts/generate_qrcodes.py:132-134 | An address exists exactly when `url` or `website` is truthy. It is never empty, and `url` wins when both are set. |
| QrCodes.ProcessEntry | scripts/generate_qrcodes.py:126-169 | An item is skipped exactly when it is not a mapping or has no address. Otherwise it succeeds exactly when its file is present afterwards. No file is removed, and only the item's own file can be added. A failure needs a failing draw. |
| QrCodes.ProcessYamlFile | scripts/generate_qrcodes.py:102-175 | Input that is not a list gives (0, 0, 0) and touches no file. For a list, the three counters sum to the number of items, and `skip` counts exactly the items without an address. Every new file belongs to some item. When drawing never fails, nothing is counted as failed. |
| EventQrCodes.AddEventQrCodes | scripts/add_event_qrcodes.py:27-49 | Order and length are kept. Each event with a truthy `url` gains `qr_code = images/qrcodes/event-{slug}-qr.png` and nothing else. The others are untouched. `updated` counts the linked events, and the two counters sum to the number of events. |
| EventQrCodes.AnnotationIdempotent | scripts/add_event_qrcodes.py:31-45 | Annotating an annotated event changes nothing. |
| EventQrCodes.GeneratedEventFile | scripts/generate_qrcodes.py:86-89 | For an `events` item with a title and no name, the generator's file is `event-` + the title's slug + `-qr.png`, in any directory. |
| EventQrCodes.EventQrPathIsGenerated | scripts/add_event_qrcodes.py:41-42 | The recorded path is the file the QR generator writes for the same event, at any position. This holds both relative to the kiosk root and under any root directory. |
| EventQrCodes.EventQrPathShape | scripts/add_event_qrcodes.py:41-42 | The path is `images/qrcodes/event-`, a slug, then `-qr.png`. |
| EventPipeline.Upcomings | scripts/scrape_events.py:153-176 | Reference filter. Its members are exactly the input events that have a time which is not before today. A time that does not parse is kept. |
| EventPipeline.UpcomingsSubsequence | scripts/scrape_events.py:150-181 | The kept events are an order-preserving subsequence of the input. |
| EventPipeline.FilterPartition | scripts/scrape_events.py:156-176 | Every event is exactly one of: kept, counted as past, or dropped for want of a time. |
| EventPipeline.FilterFutureEvents | scripts/scrape_events.py:140-181 | The loop returns the reference filter's result and counts exactly the past events. Every kept event has a time. |
| EventPipeline.AfterLast | scripts/scrape_events.py:73 | The result is the suffix after the last `.`, or all of the text if there is none, and holds no `.`. |
| EventPipeline.BeforeFirst | scripts/scrape_events.py:73 | The result is the prefix before the first `?`, or all of the text if there is none, and holds no `?`. |
| EventPipeline.ImageExtension | scripts/scrape_events.py:72-75 | The extension is the text between the last `.` and the first `?` after it when that is one of jpg, jpeg, png, gif, webp. Otherwise it is jpg. |
| EventPipeline.ImageExtensionKnown | scripts/scrape_events.py:72-75 | An address ending in `.` + a known type, optionally followed by a `?` query with no `.`, keeps that type. |
| EventPipeline.ImageExtensionUnknown | scripts/scrape_events.py:72-75 | An address whose last segment, before any `?` query, is not a known type gets jpg. |
| EventPipeline.DownloadEventImage | scripts/scrape_events.py:58-94 | An empty address gives nothing. Otherwise a path results exactly when the image is saved as `{slug of title}.{ext}`, and the path is `images/events/{slug of title}.{ext}` with the extension read from the address. |
| EventPipeline.DownloadKnownImage | scripts/scrape_events.py:72-91 | A saved image whose address ends in a known type, with or without a query, is recorded under the event's slug with that same type. |
| EventPipeline.GatherAppend | scripts/scrape_events.py:118-128 | Gathering distributes over concatenation of the scrapers' results. |
| EventPipeline.GatherFailure | scripts/scrape_events.py:121-126 | A scraper that raises adds nothing, and the events of the scrapers before and after it are all kept, in order. |
| EventPipeline.ScrapeAllEvents | scripts/scrape_events.py:97-137 | The result is the filter applied to everything gathered, and a subsequence of it. |
| Eventbrite.EventList | scripts/scrapers/scrape_eventbrite.py:57-64 | An `Event` object gives itself alone and an array gives its elements. An `ItemList` gives its `itemListElement` when that is an array, and nothing otherwise. An object of any other type, or a scalar, gives nothing. |
| Eventbrite.Unwrap | scripts/scrapers/scrape_eventbrite.py:67-70 | An object with an `item` key stands for that value. Anything else stands for itself. |
| Eventbrite.ParseEventbriteDate | scripts/scrapers/scrape_eventbrite.py:14-27 | The date is read exactly when `fromisoformat` accepts the text with `Z` spelled `+00:00`. The result is then the wall-clock reading without offset. |
| Eventbrite.MidnightDefault | scripts/scrapers/scrape_eventbrite.py:89-91 | A time not ending in `T00:00:00` is unchanged. |
| Eventbrite.MidnightDefaultTail | scripts/scrapers/scrape_eventbrite.py:89-91 | A date followed by `T00:00:00` becomes the same date followed by `T19:00:00`. |
| Eventbrite.Elapsed | scripts/scrapers/scrape_eventbrite.py:100 | A difference exists exactly when both ends are aware or both are naive. |
| Eventbrite.TruncDiv | scripts/scrapers/scrape_eventbrite.py:100 | `int` of a quotient rounds toward zero, for negative differences too. |
| Eventbrite.Duration | scripts/scrapers/scrape_eventbrite.py:93-102 | With no end, or an end that is not truthy, the duration is 120 minutes. |
| Eventbrite.DurationMinutes | scripts/scrapers/scrape_eventbrite.py:94-102 | An end that parses, on the same footing as the start, gives the whole minutes between them. |
| Eventbrite.PresentParts | scripts/scrapers/scrape_eventbrite.py:116-124 | Only truthy parts are taken, in key order, at most one per key. |
| Eventbrite.Texts | scripts/scrapers/scrape_eventbrite.py:126 | The parts have texts exactly when every one of them is text, and the texts are theirs, position by position. |
| Eventbrite.Address | scripts/scrapers/scrape_eventbrite.py:112-128 | A text address is used verbatim, or absent when empty. An object with no present part gives none. An object's address contains every present part. |
| Eventbrite.AddressAllParts | scripts/scrapers/scrape_eventbrite.py:116-126 | All four parts join as `street, locality, region, postal code`. |
| Eventbrite.AddressNoStreet | scripts/scrapers/scrape_eventbrite.py:116-126 | A missing street drops together with its separator. |
| Eventbrite.PlaceOf | scripts/scrapers/scrape_eventbrite.py:105-128 | A location that is missing or not an object gives neither name nor address. |
| Eventbrite.DescriptionOf | scripts/scrapers/scrape_eventbrite.py:151-153 | A missing description becomes "Event at {venue}". A non-empty text becomes its first 200 characters plus "..." when longer. The result is never empty. |
| Eventbrite.Process | scripts/scrapers/scrape_eventbrite.py:66-176 | Only an `Event` object can emit. An emitted event has the element's non-empty `name` as title. Its time is the parsed `startDate` with a bare midnight moved to 19:00, and its duration is computed from `startDate` and `endDate`. Its venue and address are those of `location`, with a venue without "online" and an address containing "louisville" and "co", ignoring case. Its description is the trimmed one or "Event at {venue}". Its `url` falls back to the search page, its image is read from `image`, and it has no QR code. It is not major, and its related business is "The Louisville Underground" exactly when the venue mentions it. |
| Eventbrite.ProcessEmits | scripts/scrapers/scrape_eventbrite.py:66-176 | Conversely, an `Event` object with a text name, a readable start, a venue without "online", an address in Louisville, CO, and a text or missing description emits an event with that title, venue and address. |
| Eventbrite.ProcessMidnight | scripts/scrapers/scrape_eventbrite.py:89-91 | A start at exactly midnight is recorded at 19:00 on the same date. |
| Eventbrite.ProcessAll | scripts/scrapers/scrape_eventbrite.py:66-183 | At most one event per element, and each comes from an element that emits it. |
| Eventbrite.ProcessAllEmits | scripts/scrapers/scrape_eventbrite.py:66-183 | The events are exactly those the elements before the first raise emit, in list order. When no element raises, they are those of all elements, in order. |
| Eventbrite.ProcessAllKeeps | scripts/scrapers/scrape_eventbrite.py:66-176 | Every event emitted by an element before the first raise is kept. |
| Eventbrite.RaiseEndsBlock | scripts/scrapers/scrape_eventbrite.py:179-183 | An element that raises ends its block: the events are those of the elements before it. |
| Eventbrite.ScrapeEventbrite | scripts/scrapers/scrape_eventbrite.py:30-190 | A page that cannot be fetched gives no event. Otherwise the events are those of the page's blocks, in page order, each block giving what its list of elements yields and a malformed block nothing. An event is scraped exactly when some block yields it. Every event has an address and is not major. |
| Eventbrite.ConcatAppend | scripts/scrapers/scrape_eventbrite.py:52-183 | Blocks contribute in page order: two runs of blocks give the events of the first followed by those of the second. |
| Eventbrite.ConcatMembers | scripts/scrapers/scrape_eventbrite.py:52-183 | An event is on the page exactly when some block yields it. |
| Eventbrite.MalformedBlockSkipped | scripts/scrapers/scrape_eventbrite.py:179-180 | A block that does not decode contributes nothing, and the blocks around it keep their events in order. |
| ChamberCalendar.MonthToNum | scripts/scrapers/scrape_chamber_calendar.py:254-270 | The result is one of "01".."12". A name outside the table gives "01". |
| ChamberCalendar.MonthToNumNames | scripts/scrapers/scrape_chamber_calendar.py:256-270 | A month's full name and its three-letter abbreviation, in any case, give the same number: the month's place in the year. |
| ChamberCalendar.MonthToNumField | scripts/scrapers/scrape_chamber_calendar.py:254-270 | Every result is two digits valued 1..12. |
| ChamberCalendar.MonthToNumUpper | scripts/scrapers/scrape_chamber_calendar.py:270 | The lookup ignores case. |
| ChamberCalendar.Hour24 | scripts/scrapers/scrape_chamber_calendar.py:275-282 | The hour changes only by adding 12 or by 12 becoming 0, so it keeps its value modulo 12. Without a meridiem it is unchanged. |
| ChamberCalendar.Hour24Clock | scripts/scrapers/scrape_chamber_calendar.py:277-282 | For a clock hour 1..12 with AM or PM, the result is 0..23, and it is 12 or more exactly for PM. |
| ChamberCalendar.ConvertTo24h | scripts/scrapers/scrape_chamber_calendar.py:273-284 | A time results exactly when the hour parses as an integer, and it ends with `:` + the minute, verbatim. |
| ChamberCalendar.ConvertTo24hHour | scripts/scrapers/scrape_chamber_calendar.py:284 | An hour below 100 is written as two digits with the converted value, then `:`, then the minute. |
| ChamberCalendar.ExtendedFields | scripts/scrapers/scrape_chamber_calendar.py:220 | An extended-format stamp is 19 characters, with separators at fixed places and each field readable at its place. |
| ChamberCalendar.ExtendedInjective | scripts/scrapers/scrape_chamber_calendar.py:220 | Two valid date-times with the same stamp are equal. |
| ChamberCalendar.YearText | scripts/scrapers/scrape_chamber_calendar.py:212 | A captured year is kept. Otherwise the current year is written in decimal. |
| ChamberCalendar.GroupsStamp | scripts/scrapers/scrape_chamber_calendar.py:208-220 | A stamp results exactly when the hour is an integer, and it ends in `:00`. |
| ChamberCalendar.ParseDatetime | scripts/scrapers/scrape_chamber_calendar.py:185-224 | Empty text gives nothing. Text `fromisoformat` accepts gives its reading. Otherwise no pattern match gives nothing, and a match gives a stamp ending in `:00`. |
| ChamberCalendar.GroupsStampExtended | scripts/scrapers/scrape_chamber_calendar.py:208-220 | Groups from a real card yield an ISO 8601 extended date-time. Its fields are the looked-up month, the zero-padded day and the year (or else the current year). The hour is the 24-hour clock hour, the minute is the captured one and the seconds are zero. |
| ChamberCalendar.ParseDatetimeExtended | scripts/scrapers/scrape_chamber_calendar.py:185-224 | When `fromisoformat` fails, card text gives that extended date-time. |
| ChamberCalendar.ParseDateOnly | scripts/scrapers/scrape_chamber_calendar.py:227-251 | A result exists exactly when the text is non-empty and the pattern matches, and it ends in `T18:00:00`. |
| ChamberCalendar.DateStamp | scripts/scrapers/scrape_chamber_calendar.py:238-247 | The stamp ends at six in the evening. |
| ChamberCalendar.DateStampExtended | scripts/scrapers/scrape_chamber_calendar.py:238-247 | A day of one or two digits and a four-digit year, if any, give an extended date-time at 18:00:00. It carries the looked-up month and the day's value. |
| ChamberCalendar.ParseDateOnlyExtended | scripts/scrapers/scrape_chamber_calendar.py:227-251 | Such text gives that extended date-time. |
| ChamberCalendar.FirstFormat | scripts/scrapers/scrape_chamber_calendar.py:172-177 | The result is the reading of the first format that parses, and nothing when none does. |
| ChamberCalendar.ParseSchemaDatetime | scripts/scrapers/scrape_chamber_calendar.py:156-182 | Empty text gives nothing. Otherwise the result is the first of the three formats that `strptime` accepts, in order, or nothing. |
| ChamberCalendar.IsMajor | scripts/scrapers/scrape_chamber_calendar.py:130-133 | An event is major exactly when its lower-cased title contains one of the six keywords. |
| ChamberCalendar.FestivalIsMajor | scripts/scrapers/scrape_chamber_calendar.py:130-131 | A title mentioning "festival", in any case, is major. |
| ChamberCalendar.FirstMentioned | scripts/scrapers/scrape_chamber_calendar.py:324-326 | The result is the first name in list order that the text contains, or none when the text contains none. |
| ChamberCalendar.MatchRelatedBusiness | scripts/scrapers/scrape_chamber_calendar.py:309-328 | The result is the first known business, in list order, whose lower-cased name occurs in the lower-cased `title description location`. It is none exactly when no business occurs. |
| ChamberCalendar.ExtractAddress | scripts/scrapers/scrape_chamber_calendar.py:287-306 | With no street match, the result is the location, or "Louisville, CO 80027" when that is empty. With a match, it is the matched text, followed by ", Louisville, CO 80027" exactly when "louisville" is absent. |
| ChamberCalendar.ExtractAddressNoStreet | scripts/scrapers/scrape_chamber_calendar.py:305-306 | Text with no number-words-suffix street anywhere gives the location or the default. |
| ChamberCalendar.ExtractAddressStreet | scripts/scrapers/scrape_chamber_calendar.py:295-303 | Text holding a street gives an address beginning with the leftmost street the pattern reports. |
| ChamberCalendar.Record | scripts/scrapers/scrape_chamber_calendar.py:120-149 | The record has the card's title and the time read. It lasts 120 minutes and has no image. The location defaults to "Louisville, CO", the description to empty text and the link to empty text. It carries the major flag, the address and the related business of those fields. |
| ChamberCalendar.ParseEventItemAsWritten | scripts/scrapers/scrape_chamber_calendar.py:76-153 | As written, a record results exactly when the card has a title and its primary date-time parses. |
| ChamberCalendar.ParseEventItem | scripts/scrapers/scrape_chamber_calendar.py:76-153 | A record results exactly when the card has a title and either the primary date-time or the date alone parses. A record from the date alone is at `T18:00:00`. |
| ChamberCalendar.ParseEventItemAgrees | scripts/scrapers/scrape_chamber_calendar.py:103-111 | When the primary parse succeeds, the corrected and as-written readings agree. |
| ChamberCalendar.DateFallbackLost | scripts/scrapers/scrape_chamber_calendar.py:113-118 | Take a titled card whose date parses but whose date-time does not. As written it is lost; corrected, it is kept at six in the evening. |
| ChamberCalendar.CalendarRecordDefaults | scripts/scrapers/scrape_chamber_calendar.py:128-149 | Every record lasts 120 minutes, has no image and is major exactly when its title names a keyword. A card without a location is at "Louisville, CO". |
| ChamberCalendar.ScrapeChamberCalendar | scripts/scrapers/scrape_chamber_calendar.py:14-73 | As written: a page that cannot be fetched gives nothing. Otherwise the events are the cards' as-written records in page order, at most one per card, and an event is scraped exactly when some card's as-written parse yields it. Every event lasts 120 minutes, has no image and has a time. |
| ChamberCalendar.CollectCards | scripts/scrapers/scrape_chamber_calendar.py:55-62 | At most one event per card. There are as many events as cards exactly when every card yields one. |
| ChamberCalendar.CollectCardsMembers | scripts/scrapers/scrape_chamber_calendar.py:55-62 | An event is collected exactly when some card yields it. |
| ChamberCalendar.CollectCardsAppend | scripts/scrapers/scrape_chamber_calendar.py:55-62 | Cards are collected in page order: two runs of cards give the records of the first followed by those of the second. |
| ChamberCalendar.ScrapeChamberCalendarCorrected | scripts/scrapers/scrape_chamber_calendar.py:14-73 | With the corrected fallback, an event is scraped exactly when some card's corrected parse yields it. |
| ChamberCalendar.ScrapeAsWrittenVersusCorrected | scripts/scrapers/scrape_chamber_calendar.py:103-118 | When every card's date-time can be read, the as-written and corrected scrapes agree. When none can, the as-written scrape yields nothing. |
| StreetAddress.FirstSuffixSpec | scripts/scrapers/scrape_chamber_calendar.py:295 | The alternation takes the first listed suffix that fits at a position. |
| StreetAddress.LastSuffixSpec | scripts/scrapers/scrape_chamber_calendar.py:295 | The greedy `[\w\s]+` backs off to the last position in the run where a suffix fits. |
| StreetAddress.SearchFrom | scripts/scrapers/scrape_chamber_calendar.py:296 | The search reports the leftmost start where the pattern matches. No start before it matches. |
| StreetAddress.StreetSearchNone | scripts/scrapers/scrape_chamber_calendar.py:295-296 | The search finds nothing exactly when no number, whitespace, words and suffix occur anywhere. |
| StreetAddress.StreetSearchSome | scripts/scrapers/scrape_chamber_calendar.py:295-296 | A match starts at the leftmost street and ends after the last suffix its run allows. |
| StreetAddress.StreetSearchFinds | scripts/scrapers/scrape_chamber_calendar.py:295-296 | Any street in the text makes the search succeed, at the leftmost one. |
| Maps.MatchLen | scripts/generate_maps.py:46-47 | A match starts with a comma or whitespace and ends exactly where its run of token characters ends. |
| Maps.UnitWordOnlyAt | scripts/generate_maps.py:46 | With prefix-free unit words, a word followed by a non-letter is the alternative the pattern takes. |
| Maps.RemoveUnchangedIff | scripts/generate_maps.py:50-52 | A deletion pass leaves the text unchanged exactly when its pattern matches nowhere. |
| Maps.CleanAddress | scripts/generate_maps.py:29-58 | The cleaned address has no whitespace at either end. |
| Maps.CleanDropsUnit | scripts/generate_maps.py:45-58 | An address followed by `, {Suite, Ste, ...} {token}`, in any case, cleans to the same as the address alone. |
| Maps.CleanDropsHash | scripts/generate_maps.py:45-58 | An address followed by `, #{token}` cleans to the same as the address alone. |
| Maps.CleanDropsUnitMid | scripts/generate_maps.py:44-58 | A `, {unit word} {token}` part inside an address, before a further comma, cleans away as it does at the end. |
| Maps.CleanDropsHashMid | scripts/generate_maps.py:44-58 | A `, #{token}` part inside an address, before a further comma and a part with no unit, cleans away. |
| Maps.CleanDropsSpacedHash | scripts/generate_maps.py:44-58 | A ` #{token}` suffix without a comma, after an address with no unit part that ends in a letter, digit or dash, cleans away. |
| Maps.CleanAddressKeepsClean | scripts/generate_maps.py:45-58 | An address with no unit part, no `#` part and no `Hwy`, and already trimmed, is unchanged. |
| Maps.ExpandLength | scripts/generate_maps.py:56 | Each whole-word `Hwy` grows by four characters, as `Highway`. |
| Maps.ExpandUnchangedIff | scripts/generate_maps.py:56 | Expansion leaves an address unchanged exactly when it has no whole-word `Hwy`. |
| Maps.FirstOccurrences | scripts/generate_maps.py:198-207 | The kept events have pairwise distinct `(title, address)` keys, and every input key is among them. |
| Maps.FirstOccurrencesSubsequence | scripts/generate_maps.py:199-207 | The kept events are an order-preserving subsequence of the input. |
| Maps.FirstOccurrenceKept | scripts/generate_maps.py:202-206 | An event whose key has not appeared before it is kept. |
| Maps.DistinctKeysKept | scripts/generate_maps.py:199-207 | A list whose keys are already distinct is unchanged. |
| Maps.DedupeIdempotent | scripts/generate_maps.py:199-207 | De-duplicating twice equals doing it once. |
| Maps.DedupeEvents | scripts/generate_maps.py:198-207 | The loop returns the first occurrences: a subsequence with distinct keys covering every key. |
| Maps.CompleteAddress | scripts/generate_maps.py:289-296 | An address naming `CO` or `80027` is unchanged. Any other becomes itself, `, `, then the location, or "Louisville, CO" when there is none. |
| Maps.CompletionCompletes | scripts/generate_maps.py:289-296 | With a location that names the state, the completed address names it too, and completing again changes nothing. |
| Maps.MapFileName | scripts/generate_maps.py:232-235 | The name is `{dir}/{slug}-`, eight digest characters, then `-map.jpg`, with the digest at a fixed place. |
| Maps.MapFileNameInjective | scripts/generate_maps.py:232-235 | Equal map names in one directory mean an equal slug and an equal digest. |
| Maps.StaleAsWritten | scripts/generate_maps.py:246-251 | As written, the cleanup takes exactly the present files that match `{slug}-*-map.jpg`, other than the current one. |
| Maps.StaleAsWrittenTakesLongerSlug | scripts/generate_maps.py:247-250 | As written, the cleanup for slug `a` also removes a map of slug `a-c`, another business. |
| Maps.Stale | scripts/generate_maps.py:246-251 | Corrected, the cleanup removes exactly the present files of the form `{slug}-{8 characters}-map.jpg` other than the current one. That is a subset of what the glob takes. |
| Maps.StaleTakesOwnMaps | scripts/generate_maps.py:246-251 | A map of the same slug with an older digest is removed. |
| Maps.StaleSparesOtherSlugs | scripts/generate_maps.py:246-251 | Corrected, no map of another slug is ever removed. |
| Maps.DigestGlobSlug | scripts/generate_maps.py:247 | A map name matches a slug's digest pattern only for its own slug. |
| Maps.MapStep | scripts/generate_maps.py:220-275 | With no address, the item fails and nothing is touched. With its map present, it succeeds untouched. Otherwise, exactly the files the chosen cleanup takes are removed, and it succeeds exactly when the address is located and the map drawn. A success means its map is present afterwards. Only its own map is ever added. |
| Maps.Swept | scripts/generate_maps.py:246-251 | The files a cleanup takes are exactly the present ones it matches, other than the current map: the glob as written, or the same-slug digest form. |
| Maps.MapStepTakesLongerSlug | scripts/generate_maps.py:246-251 | Drawing a new map for `a`, the as-written pass removes the map of slug `a-c`, and the corrected pass keeps it. |
| Maps.MapAll | scripts/generate_maps.py:220-344 | The counters sum to the number of items. Every removed file is one that the chosen cleanup takes for one of the items. |
| Maps.GenerateMaps | scripts/generate_maps.py:198-344 | As written: the counters sum to the number of businesses plus the number of distinct events. Every removed file matches the glob `{slug}-*-map.jpg` of some business's or event's slug. |
| Maps.GenerateMapsCorrected | scripts/generate_maps.py:198-344 | With the corrected cleanup, every removed file is an older map `{slug}-{digest}-map.jpg` of some business or event. |

## Left out

- Network and files: the page fetches, image downloads and the geocoder are left out. So are YAML loading and saving (and the headers written with it), directory creation, `time.sleep` and every `print` or traceback. Their results are parameters or datatypes.
- HTML: element selection with CSS selectors is left out. A chamber card arrives as the texts of the elements the scraper reads, and an Eventbrite block arrives as decoded JSON or as malformed.
- Rendering: QR images, map tiles and pin drawing are parameters saying whether a file was written. `scripts/convert_backgrounds_grayscale.py` converts images only and is not part of this model.
- `scripts/scrapers/__init__.py` holds only a docstring. The community-calendar scraper that `scrape_events.py` imports is not part of this model: its result is one of the scrapers' results.
- `hash_address` is an oracle returning eight characters, because MD5 is not modelled. `get_coordinates` is the oracle `located`, because it needs a geocoder and floating point. Its "zero latitude or longitude fails" rule is folded into that oracle.
- Python library calls: `strptime`, `fromisoformat` and `datetime.now()` are parameters.
- Python's Unicode `\w`, `\s`, `lower()` and IGNORECASE are not modelled: the model is ASCII.
- ChamberCalendar.ParseDatetime, ChamberCalendar.ParseDateOnly: the two date patterns are oracles returning their groups, because their backtracking is not modelled. The contracts state the shape of the result for any groups. The ISO 8601 field-by-field results are stated for groups as real cards produce them, in GroupsStampExtended and DateStampExtended.
- Maps.CleanAddress: the contract states only that the ends are trimmed. What the two deletions and the `Hwy` rewrite do is stated separately by CleanDropsUnit, CleanDropsHash, ExpandLength, ExpandUnchangedIff and CleanAddressKeepsClean. Python's alternation is modelled as the first listed unit word that fits. That is the same thing for this prefix-free list (UnitWordOnlyAt), not for an arbitrary one.
- Maps.CompleteAddress: an event whose `location` key holds null gets ", None" appended by the source. The model treats it like a missing key and uses "Louisville, CO". An event title that is null, which makes `slugify` raise, is not modelled: titles are text.
- QrCodes.ItemIdentifier: a key holding null is treated as absent. The source would return None and `slugify` would raise for it.
- Eventbrite.Process: a truthy `name` that is not text is skipped rather than stored as the title, because titles are text. A `url` that is present but not text (an object, a list, a number or null) is stored as none; the source stores the value itself. An `image` whose final value, after taking the first of a list and the `url` of an object, is not text is stored as none too. A `description` that is not text is treated as raising. That matches the source for null, and for lists only when they are longer than 200.
- Eventbrite.Duration: the source divides float seconds by 60. The model truncates the exact microsecond difference, so float rounding is not modelled.
- EventPipeline.FilterFutureEvents: comparing an aware time with today's naive midnight is done on the wall clock with the offset dropped, as the source does. A `time` value that is not text is not modelled.
- Per-item console verbosity in `process_yaml_file` is left out, along with the `main` functions that walk the data directory and print totals.

## Findings

| source | as written | input that shows it | evidently intended | confidence | as-written member | corrected member |
|---|---|---|---|---|---|---|
| scripts/scrapers/scrape_chamber_calendar.py:113-118 | When the primary parse fails, the fallback calls `parse_date_only(date_text)`, but no `date_text` is defined. The `NameError` is caught by the handler at the end of the function, so the card yields nothing. | A titled card with month "January", day "15" and no time element. `parse_datetime("January 15")` fails, so the card is dropped. | The fallback reads the card's month and day and keeps the event at 18:00, as its comment says. | not executed | ChamberCalendar.ParseEventItemAsWritten, ChamberCalendar.DateFallbackLost, ChamberCalendar.ScrapeChamberCalendar | ChamberCalendar.ParseEventItem, ChamberCalendar.ScrapeChamberCalendarCorrected |
| scripts/generate_maps.py:247-251 | The cleanup globs `{slug}-*-map.jpg`. The `*` also matches hyphens, so the glob takes maps of every slug that extends this one. | Businesses "Moxie" and "Moxie Bread". Processing "Moxie" with a new address removes `moxie-bread-{hash}-map.jpg`. The same happens in the events loop at lines 316-320. | Only older maps of this slug are removed: `{slug}-` followed by one eight-character digest. | not executed | Maps.StaleAsWritten, Maps.StaleAsWrittenTakesLongerSlug, Maps.MapStepTakesLongerSlug, Maps.GenerateMaps | Maps.Stale, Maps.StaleSparesOtherSlugs, Maps.GenerateMapsCorrected |
