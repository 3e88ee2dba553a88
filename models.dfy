/** The three tables of carnaval_map/models.py and the database holding them.

    The source declares no `neighborhood` column, yet the scraper writes it
    and the views and the repair command read it; both record types carry it
    here as a plain string. */
module Models {
  import opened Wrappers
  import opened Dates

  /** models.RawBloco: one scraped event before geocoding. */
  datatype RawBloco = RawBloco(
    city: string,
    name: string,
    subtitle: Option<string>,
    description: string,
    ticketInfo: Option<string>,
    ticketUrl: Option<string>,
    address: string,
    addressGmapsUrl: Option<string>,
    eventPageUrl: Option<string>,
    eventDate: Option<CalendarDate>,
    eventDay: Option<string>,
    eventTime: Option<string>,
    neighborhood: string,
    processed: bool)

  /** models.Bloco: the geocoded event; `rawData` is the position of its
      RawBloco in the database (the one-to-one `raw_data` key). */
  datatype Bloco = Bloco(
    rawData: nat,
    city: string,
    name: string,
    subtitle: Option<string>,
    description: string,
    ticketInfo: Option<string>,
    ticketUrl: Option<string>,
    address: string,
    addressGmapsUrl: Option<string>,
    eventPageUrl: Option<string>,
    eventDate: Option<CalendarDate>,
    eventDay: Option<string>,
    eventTime: Option<string>,
    neighborhood: string,
    latitude: Option<real>,
    longitude: Option<real>)

  /** models.City: the map centre of one city. */
  datatype City = City(name: string, avgLatitude: Option<real>, avgLongitude: Option<real>)

  // Column widths of the CharFields; a URLField is 200 wide by default.
  const CityWidth := 100
  const NameWidth := 200
  const SubtitleWidth := 200
  const TicketInfoWidth := 50
  const UrlWidth := 200
  const AddressWidth := 255
  const DayTimeWidth := 20

  predicate Fits(s: Option<string>, width: nat) {
    s.None? || |s.value| <= width
  }

  predicate RawBlocoFits(r: RawBloco) {
    && |r.city| <= CityWidth && |r.name| <= NameWidth && Fits(r.subtitle, SubtitleWidth)
    && Fits(r.ticketInfo, TicketInfoWidth) && Fits(r.ticketUrl, UrlWidth)
    && |r.address| <= AddressWidth && Fits(r.addressGmapsUrl, UrlWidth) && Fits(r.eventPageUrl, UrlWidth)
    && Fits(r.eventDay, DayTimeWidth) && Fits(r.eventTime, DayTimeWidth)
  }

  predicate BlocoFits(b: Bloco) {
    && |b.city| <= CityWidth && |b.name| <= NameWidth && Fits(b.subtitle, SubtitleWidth)
    && Fits(b.ticketInfo, TicketInfoWidth) && Fits(b.ticketUrl, UrlWidth)
    && |b.address| <= AddressWidth && Fits(b.addressGmapsUrl, UrlWidth) && Fits(b.eventPageUrl, UrlWidth)
    && Fits(b.eventDay, DayTimeWidth) && Fits(b.eventTime, DayTimeWidth)
  }

  predicate CityFits(c: City) {
    |c.name| <= CityWidth
  }

  /** RawBloco.__str__ */
  function RawBlocoText(r: RawBloco): string {
    "[RAW] " + r.name + " - " + r.city
  }

  /** Bloco.__str__ */
  function BlocoText(b: Bloco): string {
    b.name + " - " + b.city
  }

  /** A coordinate pair is either wholly present or wholly absent. */
  predicate PairedCoordinates(b: Bloco) {
    b.latitude.Some? <==> b.longitude.Some?
  }

  /** Every Bloco points at an existing RawBloco (the schema's link), which
      is marked processed (what the commands keep). */
  predicate BlocosLinked(raws: seq<RawBloco>, blocos: seq<Bloco>) {
    forall k :: 0 <= k < |blocos| ==> blocos[k].rawData < |raws| && raws[blocos[k].rawData].processed
  }

  /** `raw_data` is one-to-one: no two Blocos share a RawBloco. */
  predicate OneBlocoPerRaw(blocos: seq<Bloco>) {
    forall j, k :: 0 <= j < k < |blocos| ==> blocos[j].rawData != blocos[k].rawData
  }

  /** `City.name` is unique. */
  predicate UniqueCityNames(cities: seq<City>) {
    forall j, k :: 0 <= j < k < |cities| ==> cities[j].name != cities[k].name
  }

  /** The invariant the database keeps. The schema declares two parts of it:
      `raw_data` links each Bloco to its own existing RawBloco, and
      `City.name` is unique. The commands keep the other two, which the
      schema does not declare: the linked RawBloco is marked processed, and
      every Bloco has both coordinates or neither. */
  predicate Consistent(raws: seq<RawBloco>, blocos: seq<Bloco>, cities: seq<City>) {
    && BlocosLinked(raws, blocos)
    && OneBlocoPerRaw(blocos)
    && (forall k :: 0 <= k < |blocos| ==> PairedCoordinates(blocos[k]))
    && UniqueCityNames(cities)
  }

  /** The database: the three tables, each in primary-key order. */
  class Database {
    var raws: seq<RawBloco>
    var blocos: seq<Bloco>
    var cities: seq<City>

    ghost predicate Valid()
      reads this
    {
      Consistent(raws, blocos, cities)
    }

    constructor ()
      ensures Valid()
      ensures raws == [] && blocos == [] && cities == []
    {
      raws, blocos, cities := [], [], [];
    }
  }
}
