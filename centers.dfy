/** `update_city_coordinates` of the management command: the map centre of
    every city is the midpoint of the bounding box of its Blocos'
    coordinates, stored in the City table by name. */
module Centers {
  import opened Wrappers
  import opened Models

  /** The cities of the Blocos, each once, in order of first appearance. */
  function DistinctCities(blocos: seq<Bloco>): (r: seq<string>)
    ensures forall c :: c in r <==> exists k :: 0 <= k < |blocos| && blocos[k].city == c
    ensures forall i, j :: 0 <= i < j < |r| ==> r[i] != r[j]
  {
    if blocos == [] then []
    else
      var init := blocos[..|blocos| - 1];
      var r := DistinctCities(init);
      assert forall k :: 0 <= k < |init| ==> init[k] == blocos[k];
      if blocos[|blocos| - 1].city in r then r else r + [blocos[|blocos| - 1].city]
  }

  /** Latitude (`lat`) or longitude (not `lat`) of a Bloco. */
  function Axis(b: Bloco, lat: bool): Option<real> {
    if lat then b.latitude else b.longitude
  }

  /** The non-null values of one coordinate over the Blocos of `city`, the
      values a Django aggregate reads. */
  function Values(blocos: seq<Bloco>, city: string, lat: bool): (r: seq<real>)
    ensures forall x :: x in r <==> exists k :: 0 <= k < |blocos| && blocos[k].city == city && Axis(blocos[k], lat) == Some(x)
  {
    if blocos == [] then []
    else
      var init := blocos[..|blocos| - 1];
      var b := blocos[|blocos| - 1];
      var r := Values(init, city, lat);
      assert forall k :: 0 <= k < |init| ==> init[k] == blocos[k];
      if b.city == city && Axis(b, lat).Some? then r + [Axis(b, lat).value] else r
  }

  /** `Min`: the least value, None over no value. */
  function MinOf(xs: seq<real>): (m: Option<real>)
    ensures m.None? <==> xs == []
    ensures m.Some? ==> m.value in xs && forall x :: x in xs ==> m.value <= x
  {
    if xs == [] then None
    else
      var rest := MinOf(xs[1..]);
      assert forall x :: x in xs <==> x == xs[0] || x in xs[1..];
      if rest.None? || xs[0] <= rest.value then Some(xs[0]) else rest
  }

  /** `Max`: the greatest value, None over no value. */
  function MaxOf(xs: seq<real>): (m: Option<real>)
    ensures m.None? <==> xs == []
    ensures m.Some? ==> m.value in xs && forall x :: x in xs ==> x <= m.value
  {
    if xs == [] then None
    else
      var rest := MaxOf(xs[1..]);
      assert forall x :: x in xs <==> x == xs[0] || x in xs[1..];
      if rest.None? || xs[0] >= rest.value then Some(xs[0]) else rest
  }

  /** The centre of a city: None when one of the four aggregates is None. */
  function Center(blocos: seq<Bloco>, city: string): Option<(real, real)> {
    var minLat, maxLat := MinOf(Values(blocos, city, true)), MaxOf(Values(blocos, city, true));
    var minLon, maxLon := MinOf(Values(blocos, city, false)), MaxOf(Values(blocos, city, false));
    if minLat.None? || maxLat.None? || minLon.None? || maxLon.None? then None
    else Some(((minLat.value + maxLat.value) / 2.0, (minLon.value + maxLon.value) / 2.0))
  }

  /** The centre lies in the bounding box of the city's coordinates, half
      way between its sides on each axis. */
  lemma CenterInBox(blocos: seq<Bloco>, city: string)
    requires Center(blocos, city).Some?
    ensures var c := Center(blocos, city).value;
            var lats, lons := Values(blocos, city, true), Values(blocos, city, false);
            && MinOf(lats).value <= c.0 <= MaxOf(lats).value
            && MinOf(lons).value <= c.1 <= MaxOf(lons).value
            && c.0 - MinOf(lats).value == MaxOf(lats).value - c.0
            && c.1 - MinOf(lons).value == MaxOf(lons).value - c.1
  {
    var lats, lons := Values(blocos, city, true), Values(blocos, city, false);
    assert MinOf(lats).value <= MaxOf(lats).value by {
      assert MaxOf(lats).value in lats;
    }
    assert MinOf(lons).value <= MaxOf(lons).value by {
      assert MaxOf(lons).value in lons;
    }
  }

  /** Under paired coordinates, a city has a centre exactly when one of its
      Blocos has coordinates. */
  lemma CenterDefined(blocos: seq<Bloco>, city: string)
    requires forall k :: 0 <= k < |blocos| ==> PairedCoordinates(blocos[k])
    ensures Center(blocos, city).Some? <==> exists k :: 0 <= k < |blocos| && blocos[k].city == city && blocos[k].latitude.Some?
  {
    if k :| 0 <= k < |blocos| && blocos[k].city == city && blocos[k].latitude.Some? {
      assert blocos[k].latitude.value in Values(blocos, city, true);
      assert blocos[k].longitude.value in Values(blocos, city, false);
    }
  }

  /** The position of the City named `name`, if any. */
  function FindCity(cities: seq<City>, name: string): (r: Option<nat>)
    ensures r.Some? ==> r.value < |cities| && cities[r.value].name == name
    ensures r.None? ==> forall k :: 0 <= k < |cities| ==> cities[k].name != name
  {
    if cities == [] then None
    else if cities[0].name == name then Some(0)
    else match FindCity(cities[1..], name)
      case None => None
      case Some(i) => Some(i + 1)
  }

  /** `update_or_create(name=..., defaults=...)`: the new table and whether
      a row was created. */
  function Upsert(cities: seq<City>, name: string, lat: real, lon: real): (r: (seq<City>, bool))
    ensures r.1 <==> forall k :: 0 <= k < |cities| ==> cities[k].name != name
    ensures |r.0| == |cities| + (if r.1 then 1 else 0)
    ensures exists k :: 0 <= k < |r.0| && r.0[k] == City(name, Some(lat), Some(lon))
    ensures forall k :: 0 <= k < |cities| && cities[k].name != name ==> r.0[k] == cities[k]
    ensures forall k :: 0 <= k < |r.0| ==> r.0[k].name == name || (k < |cities| && r.0[k] == cities[k])
    ensures UniqueCityNames(cities) ==> UniqueCityNames(r.0)
  {
    var row := City(name, Some(lat), Some(lon));
    match FindCity(cities, name)
    case Some(i) =>
      var r := cities[i := row];
      assert r[i] == row;
      (r, false)
    case None =>
      var r := cities + [row];
      assert r[|cities|] == row;
      (r, true)
  }

  /** The centre of every city over the given Blocos. */
  function CenterOf(blocos: seq<Bloco>): string -> Option<(real, real)> {
    name => Center(blocos, name)
  }

  /** The City table after the loop over `names`, where `center(n)` is the
      centre computed for city `n`. */
  function UpdatedCities(cities: seq<City>, center: string -> Option<(real, real)>, names: seq<string>): seq<City>
    decreases |names|
  {
    if names == [] then cities
    else
      var next := if center(names[0]).None? then cities
                  else Upsert(cities, names[0], center(names[0]).value.0, center(names[0]).value.1).0;
      UpdatedCities(next, center, names[1..])
  }

  /** A City row holding the centre of its city. */
  predicate HasCenter(cities: seq<City>, center: string -> Option<(real, real)>, name: string) {
    center(name).Some? ==>
      exists k :: 0 <= k < |cities| && cities[k] == City(name, Some(center(name).value.0), Some(center(name).value.1))
  }

  /** The row holds the centre computed for its own city. */
  predicate HoldsItsCenter(row: City, center: string -> Option<(real, real)>) {
    center(row.name).Some? && row == City(row.name, Some(center(row.name).value.0), Some(center(row.name).value.1))
  }

  /** After the loop every listed city with a centre has it stored, the
      rows of other cities are unchanged, and names stay unique. Every row
      is either the old row in its place or a listed city holding its
      centre: no other row is added or changed. */
  lemma {:induction false} UpdatedCitiesFacts(cities: seq<City>, center: string -> Option<(real, real)>, names: seq<string>)
    requires UniqueCityNames(cities)
    requires forall i, j :: 0 <= i < j < |names| ==> names[i] != names[j]
    ensures var r := UpdatedCities(cities, center, names);
            && UniqueCityNames(r)
            && (forall n :: n in names ==> HasCenter(r, center, n))
            && |cities| <= |r|
            && (forall k :: 0 <= k < |cities| && (cities[k].name !in names || center(cities[k].name).None?) ==> r[k] == cities[k])
            && (forall k :: 0 <= k < |r| ==>
                  (k < |cities| && r[k] == cities[k]) || (r[k].name in names && HoldsItsCenter(r[k], center)))
    decreases |names|
  {
    if names != [] {
      var n := names[0];
      var next := if center(n).None? then cities else Upsert(cities, n, center(n).value.0, center(n).value.1).0;
      var tail := names[1..];
      assert forall i, j :: 0 <= i < j < |tail| ==> tail[i] != tail[j] by {
        forall i, j | 0 <= i < j < |tail| ensures tail[i] != tail[j] {
          assert tail[i] == names[i + 1] && tail[j] == names[j + 1];
        }
      }
      UpdatedCitiesFacts(next, center, tail);
      var r := UpdatedCities(next, center, tail);
      assert n !in tail by {
        forall j | 0 <= j < |tail| ensures tail[j] != n {
          assert tail[j] == names[j + 1];
        }
      }
      assert HasCenter(r, center, n) by {
        if center(n).Some? {
          var c := center(n).value;
          var k :| 0 <= k < |next| && next[k] == City(n, Some(c.0), Some(c.1));
          assert r[k] == next[k];
        }
      }
      forall m | m in names ensures HasCenter(r, center, m) {
        if m != n {
          assert m in tail;
        }
      }
      forall k | 0 <= k < |cities| && (cities[k].name !in names || center(cities[k].name).None?)
        ensures r[k] == cities[k]
      {
        assert next[k] == cities[k];
      }
      forall k | 0 <= k < |r|
        ensures (k < |cities| && r[k] == cities[k]) || (r[k].name in names && HoldsItsCenter(r[k], center))
      {
        if k < |next| && r[k] == next[k] && center(n).Some? && !(k < |cities| && next[k] == cities[k]) {
          var c := center(n).value;
          var j :| 0 <= j < |next| && next[j] == City(n, Some(c.0), Some(c.1));
          assert next[k].name == n;
          assert j == k;
        } else if !(k < |next| && r[k] == next[k]) {
          assert r[k].name in tail;
        }
      }
    }
  }

  /** Once every listed city with a centre has it stored, the loop changes
      nothing. */
  lemma {:induction false} UpdatedCitiesFixed(cities: seq<City>, center: string -> Option<(real, real)>, names: seq<string>)
    requires UniqueCityNames(cities)
    requires forall n :: n in names ==> HasCenter(cities, center, n)
    ensures UpdatedCities(cities, center, names) == cities
    decreases |names|
  {
    if names != [] {
      var n := names[0];
      assert HasCenter(cities, center, n) by {
        assert n in names;
      }
      if center(n).Some? {
        var c := center(n).value;
        var k :| 0 <= k < |cities| && cities[k] == City(n, Some(c.0), Some(c.1));
        var i := FindCity(cities, n).value;
        assert i == k;
        assert cities[i := City(n, Some(c.0), Some(c.1))] == cities;
      }
      assert forall m :: m in names[1..] ==> m in names;
      UpdatedCitiesFixed(cities, center, names[1..]);
    }
  }

  /** Running the recompute a second time over the same Blocos changes
      nothing. */
  lemma UpdatedCitiesIdempotent(cities: seq<City>, blocos: seq<Bloco>)
    requires UniqueCityNames(cities)
    ensures var names := DistinctCities(blocos);
            var once := UpdatedCities(cities, CenterOf(blocos), names);
            UpdatedCities(once, CenterOf(blocos), names) == once
  {
    var names := DistinctCities(blocos);
    UpdatedCitiesFacts(cities, CenterOf(blocos), names);
    UpdatedCitiesFixed(UpdatedCities(cities, CenterOf(blocos), names), CenterOf(blocos), names);
  }

  /** The per-city loop with the centres given. */
  method UpsertCenters(db: Database, center: string -> Option<(real, real)>, names: seq<string>)
    requires db.Valid()
    modifies db
    ensures db.Valid()
    ensures db.cities == UpdatedCities(old(db.cities), center, names)
    ensures db.raws == old(db.raws) && db.blocos == old(db.blocos)
  {
    var i := 0;
    while i < |names|
      invariant 0 <= i <= |names|
      invariant db.raws == old(db.raws) && db.blocos == old(db.blocos)
      invariant Consistent(db.raws, db.blocos, db.cities)
      invariant UpdatedCities(old(db.cities), center, names) == UpdatedCities(db.cities, center, names[i..])
    {
      assert names[i..][1..] == names[i + 1..];
      var c := center(names[i]);
      if c.Some? {
        var (cities, created) := Upsert(db.cities, names[i], c.value.0, c.value.1);
        db.cities := cities;
      }
      i := i + 1;
    }
  }

  /** `update_city_coordinates`: the loop over the distinct cities of the
      Blocos, each with the centre of its coordinates. */
  method UpdateCityCoordinates(db: Database)
    requires db.Valid()
    modifies db
    ensures db.Valid()
    ensures db.cities == UpdatedCities(old(db.cities), CenterOf(db.blocos), DistinctCities(db.blocos))
    ensures db.raws == old(db.raws) && db.blocos == old(db.blocos)
  {
    UpsertCenters(db, CenterOf(db.blocos), DistinctCities(db.blocos));
  }
}
