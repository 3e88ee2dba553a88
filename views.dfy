/** The two read-only views of the map: the page view, which lists the
    cities and dates of all Blocos, and the filter endpoint, which selects
    Blocos by city, date and neighbourhood and returns the date and
    neighbourhood facets of the selection. */
module Views {
  import opened Wrappers
  import opened Text
  import opened Dates
  import opened Models
  import Sorting
  import opened Filtering

  // ---------------------------------------------------------------- facets

  /** Chronological order on the dates a Bloco can carry. */
  function Chronological(): (CalendarDate, CalendarDate) -> bool {
    (a: CalendarDate, b: CalendarDate) => DateLess(a, b)
  }

  lemma ChronologicalIsStrictTotal()
    ensures Sorting.StrictTotalOrder(Chronological())
  {
  }

  /** Python's string order is a strict total order. */
  lemma StrLessIsStrictTotal()
    ensures Sorting.StrictTotalOrder(StrLess)
  {
    forall x: string ensures !StrLess(x, x) {
      StrLessIrreflexive(x);
    }
    forall x: string, y: string, z: string | StrLess(x, y) && StrLess(y, z) ensures StrLess(x, z) {
      StrLessTransitive(x, y, z);
    }
    forall x: string, y: string ensures x == y || StrLess(x, y) || StrLess(y, x) {
      StrLessTotal(x, y);
    }
  }

  /** A date as the views send it: its ISO text and its `DD/MM/YYYY` text. */
  function DateOption(d: CalendarDate): (p: (string, string))
    ensures ParseIso(p.0) == Some(d) && ParseDayMonthYear(p.1) == Some(d)
  {
    IsoTextRoundTrip(d);
    DisplayTextRoundTrip(d);
    (IsoText(d), DisplayText(d))
  }

  /** Each date of `ds`, in order, sent as its two texts. */
  function Options(ds: seq<CalendarDate>): (r: seq<(string, string)>)
    ensures |r| == |ds|
  {
    seq(|ds|, k requires 0 <= k < |ds| => DateOption(ds[k]))
  }

  lemma OptionsMembers(ds: seq<CalendarDate>)
    ensures forall p :: p in Options(ds) <==> exists d :: d in ds && p == DateOption(d)
  {
    var r := Options(ds);
    forall p ensures p in r <==> exists d :: d in ds && p == DateOption(d) {
      if p in r {
        var k :| 0 <= k < |r| && r[k] == p;
        assert ds[k] in ds;
      }
      if d :| d in ds && p == DateOption(d) {
        var k :| 0 <= k < |ds| && ds[k] == d;
        assert r[k] == p;
      }
    }
  }

  /** `sorted(set(dates))`, each date sent as its two texts. */
  function DateFacet(dates: seq<CalendarDate>): seq<(string, string)> {
    Options(Sorting.SortedDistinct(dates, Chronological()))
  }

  /** The date facet holds each date of the input once. */
  lemma DateFacetMembers(dates: seq<CalendarDate>)
    ensures forall p :: p in DateFacet(dates) <==> exists d :: d in dates && p == DateOption(d)
  {
    var sorted := Sorting.SortedDistinct(dates, Chronological());
    ChronologicalIsStrictTotal();
    Sorting.SortedDistinctCorrect(dates, Chronological());
    OptionsMembers(sorted);
  }

  /** The dates of the facet are in strictly increasing chronological
      order, and both texts of an entry name the same date. */
  lemma DateFacetOrdered(dates: seq<CalendarDate>)
    ensures var r := DateFacet(dates);
            && (forall k :: 0 <= k < |r| ==>
                  ParseIso(r[k].0).Some? && ParseDayMonthYear(r[k].1) == ParseIso(r[k].0))
            && (forall i, j :: 0 <= i < j < |r| ==>
                  ParseIso(r[i].0).Some? && ParseIso(r[j].0).Some?
                  && DateLess(ParseIso(r[i].0).value, ParseIso(r[j].0).value))
  {
    var sorted := Sorting.SortedDistinct(dates, Chronological());
    var r := DateFacet(dates);
    ChronologicalIsStrictTotal();
    Sorting.SortedDistinctCorrect(dates, Chronological());
    forall k | 0 <= k < |r| ensures ParseIso(r[k].0) == Some(sorted[k]) && ParseDayMonthYear(r[k].1) == Some(sorted[k]) {
      assert r[k] == DateOption(sorted[k]);
    }
    forall i, j | 0 <= i < j < |r|
      ensures DateLess(ParseIso(r[i].0).value, ParseIso(r[j].0).value)
    {
      assert Chronological()(sorted[i], sorted[j]);
    }
  }

  /** The neighbourhood of each Bloco, in table order. */
  function NeighborhoodsOf(blocos: seq<Bloco>): (r: seq<string>)
    ensures |r| == |blocos|
    ensures forall k :: 0 <= k < |blocos| ==> r[k] == blocos[k].neighborhood
  {
    seq(|blocos|, k requires 0 <= k < |blocos| => blocos[k].neighborhood)
  }

  /** `sorted(values_list("neighborhood").distinct())` */
  function NeighborhoodFacet(blocos: seq<Bloco>): seq<string> {
    Sorting.SortedDistinct(NeighborhoodsOf(blocos), StrLess)
  }

  /** The neighbourhood facet holds each neighbourhood of the Blocos once,
      in strictly increasing string order. */
  lemma NeighborhoodFacetCorrect(blocos: seq<Bloco>)
    ensures Sorting.StrictlySorted(NeighborhoodFacet(blocos), StrLess)
    ensures forall n :: n in NeighborhoodFacet(blocos) <==> exists b :: b in blocos && b.neighborhood == n
  {
    var names := NeighborhoodsOf(blocos);
    StrLessIsStrictTotal();
    Sorting.SortedDistinctCorrect(names, StrLess);
    forall n ensures n in names <==> exists b :: b in blocos && b.neighborhood == n {
      if n in names {
        var k :| 0 <= k < |names| && names[k] == n;
        assert blocos[k] in blocos;
      }
      if b :| b in blocos && b.neighborhood == n {
        var k :| 0 <= k < |blocos| && blocos[k] == b;
        assert names[k] == n;
      }
    }
  }

  /** The event date of each Bloco, or None when one of them has no date. */
  function EventDates(blocos: seq<Bloco>): (r: Option<seq<CalendarDate>>)
    ensures r.None? <==> exists b :: b in blocos && b.eventDate.None?
    ensures r.Some? ==> |r.value| == |blocos| && forall k :: 0 <= k < |blocos| ==> blocos[k].eventDate == Some(r.value[k])
  {
    if exists k :: 0 <= k < |blocos| && blocos[k].eventDate.None? then None
    else Some(seq(|blocos|, k requires 0 <= k < |blocos| => blocos[k].eventDate.value))
  }

  /** The date facet of some Blocos. A null date makes `sorted` compare None
      with a date, which raises `TypeError`; when every date is null the
      sort passes and formatting None raises `AttributeError`. */
  function DatesOf(blocos: seq<Bloco>): (r: Result<seq<(string, string)>>)
    ensures r.Err? <==> exists b :: b in blocos && b.eventDate.None?
    ensures r.Err? ==> (r.reason == "TypeError" <==> exists b :: b in blocos && b.eventDate.Some?)
    ensures r.Err? ==> r.reason in {"TypeError", "AttributeError"}
    ensures r.Ok? ==> forall p :: p in r.value <==> exists b :: b in blocos && b.eventDate.Some? && p == DateOption(b.eventDate.value)
    ensures r.Ok? ==> forall i, j :: 0 <= i < j < |r.value| ==>
              ParseIso(r.value[i].0).Some? && ParseIso(r.value[j].0).Some?
              && DateLess(ParseIso(r.value[i].0).value, ParseIso(r.value[j].0).value)
  {
    match EventDates(blocos)
    case None =>
      if exists b :: b in blocos && b.eventDate.Some? then Err("TypeError") else Err("AttributeError")
    case Some(dates) =>
      DateFacetMembers(dates);
      DateFacetOrdered(dates);
      assert forall d :: d in dates <==> exists b :: b in blocos && b.eventDate == Some(d) by {
        forall d ensures d in dates <==> exists b :: b in blocos && b.eventDate == Some(d) {
          if d in dates {
            var k :| 0 <= k < |dates| && dates[k] == d;
            assert blocos[k] in blocos;
          }
          if b :| b in blocos && b.eventDate == Some(d) {
            var k :| 0 <= k < |blocos| && blocos[k] == b;
            assert dates[k] == d;
          }
        }
      }
      Ok(DateFacet(dates))
  }

  // ------------------------------------------------------------- page view

  /** The label of a city slug: dashes become spaces, then title case. */
  function CityLabel(slug: string): (r: string)
    ensures |r| == |slug| && '-' !in r
    ensures forall i :: 0 <= i < |slug| && slug[i] == '-' ==> r[i] == ' '
    ensures forall i :: 0 <= i < |slug| && slug[i] != '-' && !IsLetter(slug[i]) ==> r[i] == slug[i]
    ensures forall i :: 0 <= i < |slug| && IsLetter(slug[i]) ==>
              ToLower(r[i]) == ToLower(slug[i])
              && (IsUpper(r[i]) <==> i == 0 || !IsLetter(slug[i - 1]))
  {
    var spaced := ReplaceChar(slug, '-', ' ');
    var r := Title(spaced);
    assert forall i :: 0 <= i < |slug| ==> (IsLetter(spaced[i]) <==> IsLetter(slug[i]));
    r
  }

  /** The city choices of the page: one (slug, label) pair per city that has
      a Bloco. */
  function MapCities(blocos: seq<Bloco>): (r: set<(string, string)>)
    ensures forall p :: p in r ==> p.1 == CityLabel(p.0)
    ensures forall c :: (c, CityLabel(c)) in r <==> exists b :: b in blocos && b.city == c
    ensures forall p, q :: p in r && q in r && p.0 == q.0 ==> p == q
  {
    set b | b in blocos :: (b.city, CityLabel(b.city))
  }

  /** The date choices of the page: the date facet of every Bloco. */
  function MapDates(blocos: seq<Bloco>): (r: Result<seq<(string, string)>>)
    ensures r.Err? <==> exists b :: b in blocos && b.eventDate.None?
  {
    DatesOf(blocos)
  }

  // ------------------------------------------------------- filter endpoint

  /** The query parameters of the filter endpoint; a missing one is "". */
  datatype Query = Query(city: string, date: string, neighborhood: string)

  /** What the endpoint answers: the selected Blocos and their facets. */
  datatype Filtered = Filtered(blocos: seq<Bloco>, dates: seq<(string, string)>, neighborhoods: seq<string>)

  /** Whether a Bloco passes every filter whose parameter is not empty. */
  predicate Wanted(b: Bloco, q: Query) {
    && (q.city != "" ==> b.city == q.city)
    && (q.date != "" ==> b.eventDate.Some? && ParseIso(q.date) == Some(b.eventDate.value))
    && (q.neighborhood != "" ==> b.neighborhood == q.neighborhood)
  }

  /** The queryset after the filters, in table order. */
  function Selected(blocos: seq<Bloco>, q: Query): (r: seq<Bloco>)
    ensures |r| <= |blocos|
    ensures forall b :: b in r <==> b in blocos && Wanted(b, q)
  {
    Filter(blocos, (b: Bloco) => Wanted(b, q))
  }

  /** The queryset keeps table order and lists each wanted row once: a Bloco
      is kept in its place exactly when it passes the filters. */
  lemma SelectedInOrder(a: seq<Bloco>, b: Bloco, c: seq<Bloco>, q: Query)
    ensures Selected(a + [b] + c, q) == Selected(a, q) + (if Wanted(b, q) then [b] else []) + Selected(c, q)
  {
    FilterAround(a, b, c, (b: Bloco) => Wanted(b, q));
  }

  /** With every parameter empty the endpoint selects every Bloco. */
  lemma {:induction false} NoFilterSelectsAll(blocos: seq<Bloco>)
    ensures Selected(blocos, Query("", "", "")) == blocos
  {
    if blocos != [] {
      NoFilterSelectsAll(blocos[1..]);
      assert [blocos[0]] + blocos[1..] == blocos;
    }
  }

  /** The filter endpoint. A date parameter Django cannot read as a date
      raises `ValidationError` as soon as `filter` is called with it. */
  function FilterBlocos(blocos: seq<Bloco>, q: Query): (r: Result<Filtered>)
    ensures q.date != "" && ParseIso(q.date).None? ==> r == Err("ValidationError")
  {
    if q.date != "" && ParseIso(q.date).None? then Err("ValidationError")
    else
      var selected := Selected(blocos, q);
      match DatesOf(selected)
      case Err(e) => Err(e)
      case Ok(dates) => Ok(Filtered(selected, dates, NeighborhoodFacet(selected)))
  }

  /** The endpoint answers exactly when the date parameter is empty or a
      date and no selected Bloco lacks a date; its Blocos are those that
      pass the filters, its date facet the dates of those Blocos and its
      neighbourhood facet their neighbourhoods, sorted and distinct. */
  lemma FilterBlocosCorrect(blocos: seq<Bloco>, q: Query)
    ensures FilterBlocos(blocos, q).Ok? <==>
              (q.date == "" || ParseIso(q.date).Some?)
              && !exists b :: b in blocos && Wanted(b, q) && b.eventDate.None?
    ensures FilterBlocos(blocos, q).Ok? ==>
              var f := FilterBlocos(blocos, q).value;
              && f.blocos == Selected(blocos, q)
              && (forall b :: b in f.blocos <==> b in blocos && Wanted(b, q))
              && (forall p :: p in f.dates <==>
                    exists b :: b in blocos && Wanted(b, q) && b.eventDate.Some? && p == DateOption(b.eventDate.value))
              && (forall i, j :: 0 <= i < j < |f.dates| ==>
                    ParseIso(f.dates[i].0).Some? && ParseIso(f.dates[j].0).Some?
                    && DateLess(ParseIso(f.dates[i].0).value, ParseIso(f.dates[j].0).value))
              && Sorting.StrictlySorted(f.neighborhoods, StrLess)
              && (forall n :: n in f.neighborhoods <==> exists b :: b in blocos && Wanted(b, q) && b.neighborhood == n)
  {
    if q.date == "" || ParseIso(q.date).Some? {
      NeighborhoodFacetCorrect(Selected(blocos, q));
    }
  }

  /** A date filter that reads as a date never meets a null date: the
      endpoint answers. */
  lemma DateFilterAnswers(blocos: seq<Bloco>, q: Query)
    requires q.date != "" && ParseIso(q.date).Some?
    ensures FilterBlocos(blocos, q).Ok?
    ensures forall p :: p in FilterBlocos(blocos, q).value.dates ==> p.0 == IsoText(ParseIso(q.date).value)
  {
    FilterBlocosCorrect(blocos, q);
  }

  /** The unfiltered endpoint offers the same dates as the page. */
  lemma UnfilteredMatchesPage(blocos: seq<Bloco>)
    ensures FilterBlocos(blocos, Query("", "", "")).Ok? <==> MapDates(blocos).Ok?
    ensures MapDates(blocos).Ok? ==> FilterBlocos(blocos, Query("", "", "")).value.dates == MapDates(blocos).value
    ensures FilterBlocos(blocos, Query("", "", "")).Ok? ==> FilterBlocos(blocos, Query("", "", "")).value.blocos == blocos
  {
    NoFilterSelectsAll(blocos);
  }
}
