/** The event record every scraper produces and events.yaml stores. Keys the
    downstream scripts read with `event.get(...)` are optional: `None` stands
    for a missing key or a null value. */
module Events {
  import opened Base
  import opened Text

  datatype Event = Event(
    title: string,
    description: string,
    time: Option<string>,
    duration: int,
    location: Option<string>,
    address: Option<string>,
    url: Option<string>,
    image: Option<string>,
    isMajor: bool,
    relatedBusiness: Option<string>,
    qrCode: Option<string>)

  /** The location assumed for an event that names none: the chamber
      calendar's default, and the completion the map generator appends to
      addresses without a state or ZIP code. */
  const DefaultLocation: string := "Louisville, CO"

  /** A value `datetime.fromisoformat` returns: the wall-clock reading in
      microseconds from a fixed origin, the UTC offset in microseconds for
      an aware value, and the `isoformat()` of the wall-clock reading
      without its offset. */
  datatype DateTime = DateTime(wall: int, offset: Option<int>, iso: string)

  /** `datetime.fromisoformat`, `None` where it raises. */
  type IsoParser = string -> Option<DateTime>

  /** The text the scripts hand to `fromisoformat`: every `Z` spelled as
      `+00:00`. */
  function IsoInput(text: string): string
  {
    ReplaceAll(text, "Z", "+00:00")
  }
}
