/** The scraping step of the management command: `fetch_event_page` turns
    one event page into a RawBloco, and `process_links` saves the pages
    that parse. The download and the HTML lookups are an input: the fields
    read from the page, or None where the request or a lookup raises. */
module Scrape {
  import opened Wrappers
  import opened Dates
  import opened Models
  import Subtitle
  import Discovery

  /** `fetch_event_page`: None wherever the body raises and the exception
      handler returns None. */
  function ScrapeEvent(city: string, url: string, page: Option<Discovery.PageFields>): (r: Option<RawBloco>)
    ensures r.Some? <==> page.Some? && Subtitle.ParseEventSubtitle(page.value.subtitle).Some?
    ensures r.Some? ==> r.value.city == city && r.value.eventPageUrl == Some(url) && !r.value.processed
    ensures r.Some? ==>
              var p := page.value;
              && r.value.name == p.name && r.value.subtitle == Some(p.subtitle)
              && r.value.description == p.description && r.value.ticketInfo == Some(Text.Strip(p.ticketInfo))
              && r.value.ticketUrl == Some(p.ticketUrl) && r.value.address == Text.Strip(p.address)
              && r.value.addressGmapsUrl == Some(p.addressGmapsUrl)
    ensures r.Some? ==>
              var e := Subtitle.ParseEventSubtitle(page.value.subtitle).value;
              && r.value.eventDate == Some(e.eventDate) && r.value.eventDay == Some(e.eventDay)
              && r.value.eventTime == Some(e.eventTime) && r.value.neighborhood == e.neighborhood
  {
    match page
    case None => None
    case Some(p) =>
      match Subtitle.ParseEventSubtitle(p.subtitle)
      case None => None
      case Some(e) =>
        Some(RawBloco(city, p.name, Some(p.subtitle), p.description, Some(Text.Strip(p.ticketInfo)), Some(p.ticketUrl),
                      Text.Strip(p.address), Some(p.addressGmapsUrl), Some(url), Some(e.eventDate), Some(e.eventDay),
                      Some(e.eventTime), e.neighborhood, false))
  }

  /** A page with a well-formed subtitle is kept with its date, weekday and
      time, and with the whole third part, stripped, as neighbourhood. */
  lemma ScrapeWellFormed(city: string, url: string, p: Discovery.PageFields,
                         d: Date, day: string, time: string, place: string)
    requires ValidDate(d) && Subtitle.WellFormedParts(day, time, place)
    requires p.subtitle == Subtitle.Compose(d, day, time, place)
    ensures ScrapeEvent(city, url, Some(p)).Some?
    ensures var r := ScrapeEvent(city, url, Some(p)).value;
            && r.eventDate == Some(d) && r.eventDay == Some(day) && r.eventTime == Some(time)
            && r.neighborhood == Text.Strip(time + " " + place)
  {
    Subtitle.ScraperWellFormed(d, day, time, place);
  }

  /** The results of the fetches `process_links` submits, one per row of
      the link table; `pages(url)` is what `fetch_event_page` reads at `url`. */
  function Fetches(rows: seq<(string, string)>, pages: string -> Option<Discovery.PageFields>): (r: seq<Option<RawBloco>>)
    ensures |r| == |rows|
  {
    seq(|rows|, k requires 0 <= k < |rows| => ScrapeEvent(rows[k].0, rows[k].1, pages(rows[k].1)))
  }

  /** The values of the results that are present, in order. */
  function Somes<T>(results: seq<Option<T>>): (r: seq<T>)
    ensures |r| <= |results|
  {
    if results == [] then []
    else (if results[0].Some? then [results[0].value] else []) + Somes(results[1..])
  }

  /** A value is kept exactly when some result holds it. */
  lemma {:induction false} SomesMembers<T>(results: seq<Option<T>>)
    ensures forall x :: x in Somes(results) <==> Some(x) in results
  {
    if results != [] {
      SomesMembers(results[1..]);
      assert forall o :: o in results <==> o == results[0] || o in results[1..];
    }
  }

  /** The results are read in order: those of `a + b` give the values of
      `a` followed by those of `b`. */
  lemma {:induction false} SomesConcat<T>(a: seq<Option<T>>, b: seq<Option<T>>)
    ensures Somes(a + b) == Somes(a) + Somes(b)
  {
    if a == [] {
      assert a + b == b;
    } else {
      assert (a + b)[0] == a[0] && (a + b)[1..] == a[1..] + b;
      SomesConcat(a[1..], b);
    }
  }

  /** Each result gives its value once, in its place, when it is present,
      and nothing otherwise. */
  lemma SomesAround<T>(a: seq<Option<T>>, x: Option<T>, b: seq<Option<T>>)
    ensures Somes(a + [x] + b) == Somes(a) + (if x.Some? then [x.value] else []) + Somes(b)
  {
    SomesConcat(a + [x], b);
    SomesConcat(a, [x]);
    assert Somes([x]) == (if x.Some? then [x.value] else []) by {
      assert [x][1..] == [];
    }
  }

  /** The records `process_links` saves, in the order of the link table. */
  function ScrapedRecords(rows: seq<(string, string)>, pages: string -> Option<Discovery.PageFields>): seq<RawBloco>
  {
    Somes(Fetches(rows, pages))
  }

  /** Every saved record is new and is the record of one link of the table,
      and every page of the table that parses is saved. */
  lemma ScrapedRecordsMembers(rows: seq<(string, string)>, pages: string -> Option<Discovery.PageFields>)
    ensures |ScrapedRecords(rows, pages)| <= |rows|
    ensures forall r :: r in ScrapedRecords(rows, pages) ==>
              !r.processed && exists k :: 0 <= k < |rows| && ScrapeEvent(rows[k].0, rows[k].1, pages(rows[k].1)) == Some(r)
    ensures forall k :: 0 <= k < |rows| && ScrapeEvent(rows[k].0, rows[k].1, pages(rows[k].1)).Some? ==>
              ScrapeEvent(rows[k].0, rows[k].1, pages(rows[k].1)).value in ScrapedRecords(rows, pages)
  {
    var results := Fetches(rows, pages);
    SomesMembers(results);
    forall r | r in ScrapedRecords(rows, pages)
      ensures !r.processed && exists k :: 0 <= k < |rows| && ScrapeEvent(rows[k].0, rows[k].1, pages(rows[k].1)) == Some(r)
    {
      var k :| 0 <= k < |results| && results[k] == Some(r);
      assert ScrapeEvent(rows[k].0, rows[k].1, pages(rows[k].1)) == Some(r);
    }
    forall k | 0 <= k < |rows| && ScrapeEvent(rows[k].0, rows[k].1, pages(rows[k].1)).Some?
      ensures ScrapeEvent(rows[k].0, rows[k].1, pages(rows[k].1)).value in ScrapedRecords(rows, pages)
    {
      assert results[k] in results;
    }
  }

  /** Appending RawBlocos keeps the tables consistent. */
  lemma AppendKeepsConsistent(raws: seq<RawBloco>, added: seq<RawBloco>, blocos: seq<Bloco>, cities: seq<City>)
    requires Consistent(raws, blocos, cities)
    ensures Consistent(raws + added, blocos, cities)
  {
    forall k | 0 <= k < |blocos|
      ensures blocos[k].rawData < |raws + added| && (raws + added)[blocos[k].rawData].processed
    {
      assert (raws + added)[blocos[k].rawData] == raws[blocos[k].rawData];
    }
  }

  /** The saving loop of `process_links`: each present result becomes a new
      RawBloco. */
  method SaveResults(db: Database, results: seq<Option<RawBloco>>)
    requires db.Valid()
    modifies db
    ensures db.Valid()
    ensures db.raws == old(db.raws) + Somes(results)
    ensures db.blocos == old(db.blocos) && db.cities == old(db.cities)
  {
    ghost var saved: seq<RawBloco> := [];
    assert results[0..] == results;
    var i := 0;
    while i < |results|
      invariant 0 <= i <= |results|
      invariant Consistent(db.raws, db.blocos, db.cities)
      invariant db.raws == old(db.raws) + saved
      invariant Somes(results) == saved + Somes(results[i..])
      invariant db.blocos == old(db.blocos) && db.cities == old(db.cities)
    {
      assert results[i..][1..] == results[i + 1..];
      if results[i].Some? {
        AppendKeepsConsistent(db.raws, [results[i].value], db.blocos, db.cities);
        db.raws := db.raws + [results[i].value];
        saved := saved + [results[i].value];
      }
      i := i + 1;
    }
    assert results[i..] == [];
    assert saved + [] == saved;
  }

  /** `process_links`: every link of the table is fetched, then the pages
      that parse are saved. */
  method ProcessLinks(db: Database, rows: seq<(string, string)>, pages: string -> Option<Discovery.PageFields>)
    requires db.Valid()
    modifies db
    ensures db.Valid()
    ensures db.raws == old(db.raws) + ScrapedRecords(rows, pages)
    ensures db.blocos == old(db.blocos) && db.cities == old(db.cities)
  {
    var results := Fetches(rows, pages);
    SaveResults(db, results);
  }
}
