/** Turning an event address into coordinates: the query text, the two
    geocoders' answers, and the CSV steps of web_scraping/get_coords.py and
    web_scraping/get_coords_geocode.py. A geocoder is a parameter: the
    function from query text to its answer. */
module Geocoding {
  import opened Wrappers
  import opened Text
  import opened Filtering
  import opened Standalone

  /** `f"Brasil, {city.replace('-', ' ')}, {address}"` */
  function GeocodeQuery(city: string, address: string): (q: string)
    ensures |q| == 10 + |city| + |address|
    ensures q[..8] == "Brasil, " && q[8 + |city|..10 + |city|] == ", " && q[10 + |city|..] == address
    ensures '-' !in q[8..8 + |city|]
    ensures forall k :: 0 <= k < |city| && city[k] != '-' ==> q[8 + k] == city[k]
    ensures forall k :: 0 <= k < |city| && city[k] == '-' ==> q[8 + k] == ' '
  {
    var c := ReplaceChar(city, '-', ' ');
    var q := "Brasil, " + c + ", " + address;
    assert q[8..8 + |city|] == c;
    q
  }

  /** The slug is recovered from the query where it had no spaces. */
  lemma GeocodeQueryCity(city: string, address: string)
    requires ' ' !in city
    ensures var q := GeocodeQuery(city, address);
            ReplaceChar(q[8..8 + |city|], ' ', '-') == ReplaceChar(city, ' ', '-')
            && (('-' in city) ==> q != "Brasil, " + city + ", " + address)
  {
    var q := GeocodeQuery(city, address);
    SpacesBackToDashes(q[8..8 + |city|], city);
    if '-' in city {
      var k :| 0 <= k < |city| && city[k] == '-';
      DashKeptInPlain(city, address, k);
    }
  }

  lemma SpacesBackToDashes(c: string, city: string)
    requires |c| == |city| && ' ' !in city
    requires forall k :: 0 <= k < |city| ==> c[k] == (if city[k] == '-' then ' ' else city[k])
    ensures ReplaceChar(c, ' ', '-') == ReplaceChar(city, ' ', '-') == city
  {
  }

  lemma DashKeptInPlain(city: string, address: string, k: nat)
    requires k < |city| && city[k] == '-'
    ensures ("Brasil, " + city + ", " + address)[8 + k] == '-'
    ensures GeocodeQuery(city, address)[8 + k] == ' '
  {
  }

  /** What the Google client answers: its result list, or an exception. */
  datatype GoogleReply = Results(locations: seq<(real, real)>) | Failed

  /** `get_coordinates` with the Google client: the first result's
      location, None on an empty list or an exception. */
  function GoogleCoordinates(reply: GoogleReply): (r: Option<(real, real)>)
    ensures r.Some? <==> reply.Results? && |reply.locations| > 0
    ensures r.Some? ==> r.value == reply.locations[0]
  {
    match reply
    case Failed => None
    case Results(locations) => if |locations| == 0 then None else Some(locations[0])
  }

  /** What Nominatim answers: a location, nothing, a time-out, or any
      other exception. */
  datatype NominatimReply = Location(latitude: real, longitude: real) | NoLocation | TimedOut | OtherError

  /** `get_coordinates` with Nominatim: only a time-out is caught; any
      other exception escapes. */
  function NominatimCoordinates(reply: NominatimReply): (r: Result<Option<(real, real)>>)
    ensures r.Err? <==> reply.OtherError?
    ensures r.Ok? && r.value.Some? <==> reply.Location?
    ensures reply.Location? ==> r == Ok(Some((reply.latitude, reply.longitude)))
  {
    match reply
    case Location(lat, lon) => Ok(Some((lat, lon)))
    case NoLocation => Ok(None)
    case TimedOut => Ok(None)
    case OtherError => Err("GeocoderError")
  }

  /** An event row with the two coordinate columns added. */
  datatype CoordRow = CoordRow(row: EventRow, latitude: Option<real>, longitude: Option<real>)

  function Located(row: EventRow, coords: Option<(real, real)>): (r: CoordRow)
    ensures r.row == row
    ensures r.latitude.Some? <==> r.longitude.Some?
    ensures r.latitude.Some? <==> coords.Some?
    ensures coords.Some? ==> r.latitude == Some(coords.value.0) && r.longitude == Some(coords.value.1)
  {
    match coords
    case None => CoordRow(row, None, None)
    case Some((lat, lon)) => CoordRow(row, Some(lat), Some(lon))
  }

  // ------------------------------------------------------------ get_coords

  /** The rows whose address is not among the processed ones, in order. */
  function NewAddresses(rows: seq<EventRow>, processed: set<string>): (r: seq<EventRow>)
    ensures forall x :: x in r <==> x in rows && x.address !in processed
    ensures r == [] <==> forall x :: x in rows ==> x.address in processed
    ensures |r| <= |rows|
  {
    var r := Filter(rows, (x: EventRow) => x.address !in processed);
    assert r != [] ==> r[0] in r;
    r
  }

  /** The new rows keep the order of the input CSV, duplicates included. */
  lemma NewAddressesInOrder(a: seq<EventRow>, x: EventRow, b: seq<EventRow>, processed: set<string>)
    ensures NewAddresses(a + [x] + b, processed)
            == NewAddresses(a, processed) + (if x.address !in processed then [x] else []) + NewAddresses(b, processed)
  {
    FilterAround(a, x, b, (x: EventRow) => x.address !in processed);
  }

  /** The rows of the output CSV, none when it does not exist. */
  function Previous(existing: Option<seq<CoordRow>>): seq<CoordRow> {
    if existing.None? then [] else existing.value
  }

  function ProcessedAddresses(existing: Option<seq<CoordRow>>): set<string> {
    if existing.None? then {} else set r | r in existing.value :: r.row.address
  }

  /** The geocoded new rows, one Google query each. */
  function GoogleLocated(rows: seq<EventRow>, geocode: string -> GoogleReply): (r: seq<CoordRow>)
    ensures |r| == |rows|
    ensures forall k :: 0 <= k < |rows| ==> r[k].row == rows[k]
    ensures forall k :: 0 <= k < |rows| ==>
              var c := GoogleCoordinates(geocode(GeocodeQuery(rows[k].city, rows[k].address)));
              && (c.None? ==> r[k].latitude.None? && r[k].longitude.None?)
              && (c.Some? ==> r[k].latitude == Some(c.value.0) && r[k].longitude == Some(c.value.1))
  {
    var r := seq(|rows|, k requires 0 <= k < |rows| =>
      Located(rows[k], GoogleCoordinates(geocode(GeocodeQuery(rows[k].city, rows[k].address)))));
    assert forall k :: 0 <= k < |rows| ==>
      r[k] == Located(rows[k], GoogleCoordinates(geocode(GeocodeQuery(rows[k].city, rows[k].address))));
    r
  }

  /** The output CSV `process_addresses` writes; None when there is no new
      address and nothing is written. */
  function AddressesTable(input: seq<EventRow>, existing: Option<seq<CoordRow>>,
                          geocode: string -> GoogleReply): Option<seq<CoordRow>>
  {
    var unseen := NewAddresses(input, ProcessedAddresses(existing));
    if unseen == [] then None
    else Some(Previous(existing) + GoogleLocated(unseen, geocode))
  }

  /** The loop of `process_addresses`: two coordinate lists filled row by
      row, then added as columns and appended to the processed rows. */
  method ProcessAddressesCsv(input: seq<EventRow>, existing: Option<seq<CoordRow>>,
                             geocode: string -> GoogleReply)
    returns (out: Option<seq<CoordRow>>)
    ensures out == AddressesTable(input, existing, geocode)
  {
    var unseen := NewAddresses(input, ProcessedAddresses(existing));
    if unseen == [] {
      return None;
    }
    var latitudes: seq<Option<real>> := [];
    var longitudes: seq<Option<real>> := [];
    for i := 0 to |unseen|
      invariant |latitudes| == i && |longitudes| == i
      invariant forall k :: 0 <= k < i ==>
        var c := Located(unseen[k], GoogleCoordinates(geocode(GeocodeQuery(unseen[k].city, unseen[k].address))));
        latitudes[k] == c.latitude && longitudes[k] == c.longitude
    {
      var coords := GoogleCoordinates(geocode(GeocodeQuery(unseen[i].city, unseen[i].address)));
      if coords.None? {
        latitudes := latitudes + [None];
        longitudes := longitudes + [None];
      } else {
        latitudes := latitudes + [Some(coords.value.0)];
        longitudes := longitudes + [Some(coords.value.1)];
      }
    }
    var located := seq(|unseen|, k requires 0 <= k < |unseen| => CoordRow(unseen[k], latitudes[k], longitudes[k]));
    assert located == GoogleLocated(unseen, geocode);
    out := Some(Previous(existing) + located);
  }

  /** The processed rows stay first and unchanged; every input row with a
      new address is geocoded; nothing is written exactly when every
      address was processed before. */
  lemma AddressesTableContents(input: seq<EventRow>, existing: Option<seq<CoordRow>>,
                               geocode: string -> GoogleReply)
    ensures var processed := ProcessedAddresses(existing);
            var out := AddressesTable(input, existing, geocode);
            && (out.None? <==> forall x :: x in input ==> x.address in processed)
            && (out.Some? && existing.Some? ==> out.value[..|existing.value|] == existing.value)
            && (out.Some? ==> forall x :: x in input && x.address !in processed ==>
                  exists c :: c in out.value && c.row == x)
  {
    var processed := ProcessedAddresses(existing);
    var unseen := NewAddresses(input, processed);
    var old_rows := Previous(existing);
    if unseen != [] {
      assert unseen[0] in unseen;
      var located := GoogleLocated(unseen, geocode);
      var out := old_rows + located;
      assert out[..|old_rows|] == old_rows;
      forall x | x in input && x.address !in processed
        ensures exists c :: c in out && c.row == x
      {
        assert x in unseen;
        var k :| 0 <= k < |unseen| && unseen[k] == x;
        assert out[|old_rows| + k] == located[k];
      }
    }
  }

  /** Every row after the processed ones has an address not processed
      before, and has both coordinates or neither. */
  lemma AddressesTableNewRows(input: seq<EventRow>, existing: Option<seq<CoordRow>>,
                              geocode: string -> GoogleReply)
    ensures var out := AddressesTable(input, existing, geocode);
            out.Some? ==> forall k :: |Previous(existing)| <= k < |out.value| ==>
              out.value[k].row.address !in ProcessedAddresses(existing)
              && (out.value[k].latitude.Some? <==> out.value[k].longitude.Some?)
  {
    var unseen := NewAddresses(input, ProcessedAddresses(existing));
    var old_rows := Previous(existing);
    if unseen != [] {
      var located := GoogleLocated(unseen, geocode);
      var out := old_rows + located;
      forall k | |old_rows| <= k < |out|
        ensures out[k].row.address !in ProcessedAddresses(existing)
                && (out[k].latitude.Some? <==> out[k].longitude.Some?)
      {
        assert out[k] == located[k - |old_rows|];
        assert unseen[k - |old_rows|] in unseen;
      }
    }
  }

  /** The written table is the processed rows followed by the new rows in
      input order, each with the coordinates of its own Google query. */
  lemma AddressesTableLayout(input: seq<EventRow>, existing: Option<seq<CoordRow>>,
                             geocode: string -> GoogleReply)
    ensures var out := AddressesTable(input, existing, geocode);
            var unseen := NewAddresses(input, ProcessedAddresses(existing));
            out.Some? ==>
              && |out.value| == |Previous(existing)| + |unseen|
              && out.value[..|Previous(existing)|] == Previous(existing)
              && out.value[|Previous(existing)|..] == GoogleLocated(unseen, geocode)
  {
    var unseen := NewAddresses(input, ProcessedAddresses(existing));
    if unseen != [] {
      var old_rows := Previous(existing);
      var out := old_rows + GoogleLocated(unseen, geocode);
      assert out[..|old_rows|] == old_rows;
      assert out[|old_rows|..] == GoogleLocated(unseen, geocode);
    }
  }

  /** Running the step again on its own output writes nothing: every
      address of the input is then processed. */
  lemma AddressesTableSettles(input: seq<EventRow>, existing: Option<seq<CoordRow>>,
                              geocode: string -> GoogleReply, again: string -> GoogleReply)
    requires AddressesTable(input, existing, geocode).Some?
    ensures AddressesTable(input, AddressesTable(input, existing, geocode), again).None?
  {
    var processed := ProcessedAddresses(existing);
    var unseen := NewAddresses(input, processed);
    var old_rows := Previous(existing);
    var out := AddressesTable(input, existing, geocode);
    var located := GoogleLocated(unseen, geocode);
    assert out.value == old_rows + located;
    forall x | x in input ensures x.address in ProcessedAddresses(out) {
      if x.address in processed {
        var c :| c in existing.value && c.row.address == x.address;
        assert c in out.value;
      } else {
        assert x in unseen;
        var k :| 0 <= k < |unseen| && unseen[k] == x;
        assert located[k] == Located(unseen[k], GoogleCoordinates(geocode(GeocodeQuery(unseen[k].city, unseen[k].address))));
        assert located[k].row == x;
        assert out.value[|old_rows| + k] == located[k];
      }
    }
  }

  // ----------------------------------------------------- get_coords_geocode

  /** `process_df` with Nominatim: every row geocoded in order; an exception
      other than a time-out ends the run before anything is written. */
  function NominatimTable(rows: seq<EventRow>, geocode: string -> NominatimReply): (r: Result<seq<CoordRow>>)
    ensures r.Ok? ==> |r.value| == |rows|
    ensures r.Err? ==> r.reason == "GeocoderError"
  {
    if rows == [] then Ok([])
    else match NominatimCoordinates(geocode(GeocodeQuery(rows[0].city, rows[0].address)))
      case Err(e) => Err(e)
      case Ok(coords) =>
        match NominatimTable(rows[1..], geocode)
        case Err(e) => Err(e)
        case Ok(rest) => Ok([Located(rows[0], coords)] + rest)
  }

  /** The table is written exactly when no query raises other than by a
      time-out, and then holds every row with its own coordinates. */
  lemma {:induction false} NominatimTableContents(rows: seq<EventRow>, geocode: string -> NominatimReply)
    ensures var r := NominatimTable(rows, geocode);
            && (r.Err? <==> exists k :: 0 <= k < |rows| && geocode(GeocodeQuery(rows[k].city, rows[k].address)).OtherError?)
            && (r.Ok? ==> forall k :: 0 <= k < |rows| ==>
                  r.value[k] == Located(rows[k], NominatimCoordinates(geocode(GeocodeQuery(rows[k].city, rows[k].address))).value))
  {
    if rows != [] {
      NominatimTableContents(rows[1..], geocode);
      var tail := rows[1..];
      assert forall k :: 1 <= k < |rows| ==> rows[k] == tail[k - 1];
      if exists k :: 0 <= k < |rows| && geocode(GeocodeQuery(rows[k].city, rows[k].address)).OtherError? {
        var k :| 0 <= k < |rows| && geocode(GeocodeQuery(rows[k].city, rows[k].address)).OtherError?;
        if k > 0 {
          assert geocode(GeocodeQuery(tail[k - 1].city, tail[k - 1].address)).OtherError?;
        }
      }
    }
  }

  /** The loop of `process_df`: the coordinate lists filled row by row,
      then the table with its two new columns. */
  method ProcessDf(rows: seq<EventRow>, geocode: string -> NominatimReply)
    returns (out: Result<seq<CoordRow>>)
    ensures out == NominatimTable(rows, geocode)
  {
    var latitudes: seq<Option<real>> := [];
    var longitudes: seq<Option<real>> := [];
    NominatimTableContents(rows, geocode);
    for i := 0 to |rows|
      invariant |latitudes| == i && |longitudes| == i
      invariant forall k :: 0 <= k < i ==> !geocode(GeocodeQuery(rows[k].city, rows[k].address)).OtherError?
      invariant forall k :: 0 <= k < i ==>
        var c := Located(rows[k], NominatimCoordinates(geocode(GeocodeQuery(rows[k].city, rows[k].address))).value);
        latitudes[k] == c.latitude && longitudes[k] == c.longitude
    {
      var coords := NominatimCoordinates(geocode(GeocodeQuery(rows[i].city, rows[i].address)));
      if coords.Err? {
        assert geocode(GeocodeQuery(rows[i].city, rows[i].address)).OtherError?;
        return Err(coords.reason);
      }
      if coords.value.None? {
        latitudes := latitudes + [None];
        longitudes := longitudes + [None];
      } else {
        latitudes := latitudes + [Some(coords.value.value.0)];
        longitudes := longitudes + [Some(coords.value.value.1)];
      }
    }
    var located := seq(|rows|, k requires 0 <= k < |rows| => CoordRow(rows[k], latitudes[k], longitudes[k]));
    assert NominatimTable(rows, geocode).Ok?;
    assert located == NominatimTable(rows, geocode).value;
    out := Ok(located);
  }
}
