/** The standalone pipeline of web_scraping/get_data.py: the steps of the
    management command's link discovery, with the differences stated by
    `ScriptCitiesUrls`, `ScriptCityListing` and `ScriptSlug` (and no check
    of links against the stored ones), a CSV of event links merged with the
    previous one, one HTML file per event page, and a CSV of parsed events
    merged with the previous one.

    Files are values: a CSV is `None` when it does not exist, the raw page
    directory is a map from (city directory, file name) to contents. */
module Standalone {
  import opened Wrappers
  import opened Text
  import opened Discovery
  import Subtitle
  import Dates

  // ------------------------------------------------------------ discovery

  /** `get_cities_urls` of the script: [] on a non-200 answer; a request
      exception, or a page without the city selector, escapes. */
  function ScriptCitiesUrls(root: Fetched<Option<seq<string>>>): (r: Result<seq<string>>)
    ensures r.Err? <==> root.Raised? || root == Page(None)
    ensures r.Ok? ==> r.value == CitiesUrls(root)
  {
    match root
    case Raised => Err("RequestException")
    case HttpError => Ok([])
    case Page(None) => Err("AttributeError")
    case Page(Some(values)) => Ok(NonEmptyValues(values) + [BaseUrl])
  }

  /** `get_city_full_page_url` of the script: None on a non-200 answer; a
      request exception escapes. */
  function ScriptFullPageUrl(cityUrl: string, page: Fetched<seq<string>>): (r: Result<Option<string>>)
    ensures r.Err? <==> page.Raised?
    ensures r.Ok? ==> r.value == FullPageUrl(cityUrl, page)
  {
    match page
    case Raised => Err("RequestException")
    case HttpError => Ok(None)
    case Page(hrefs) =>
      match FirstContaining(hrefs, cityUrl)
      case None => Ok(None)
      case Some(i) => Ok(Some(hrefs[i]))
  }

  /** `get_city_events_links` of the script. The paging loop is the
      command's (`Listing`), but a request exception while reading the city
      page escapes, where the command's `get_city_full_page_url` catches it
      and the listing is []. On an answer both programs classify alike
      (status 200, a 4xx or 5xx status, or an exception) nothing else
      differs. */
  function ScriptCityListing(cityUrl: string, cityPage: Fetched<seq<string>>,
                             fetch: string -> Fetched<seq<string>>, last: nat): (r: Result<seq<string>>)
    requires ListingEnds(cityUrl, cityPage, fetch, last)
    ensures cityPage.Raised? ==> r == Err("RequestException")
    ensures !cityPage.Raised? ==> r == CityListing(cityUrl, cityPage, fetch, last)
  {
    match ScriptFullPageUrl(cityUrl, cityPage)
    case Err(e) => Err(e)
    case Ok(full) => if full.None? || full.value == "" then Ok([]) else Listing(fetch, full.value, 1, last)
  }

  /** Where the city page raises, the script fails and the command goes on
      with no link for that city. */
  lemma CityPageRaisedDiffers(cityUrl: string, fetch: string -> Fetched<seq<string>>, last: nat)
    ensures ListingEnds(cityUrl, Raised, fetch, last)
    ensures ScriptCityListing(cityUrl, Raised, fetch, last) == Err("RequestException")
    ensures CityListing(cityUrl, Raised, fetch, last) == Ok([])
  {
  }

  /** The city of a URL in `update_event_links`: "sao-paulo" whenever the
      whole URL contains "www", else its second-to-last `/` piece. */
  function ScriptSlug(url: string): (r: Result<string>)
    ensures Contains(url, "www") ==> r == Ok(DefaultCity)
  {
    if Contains(url, "www") then Ok(DefaultCity)
    else
      var parts := Split(url, "/");
      if |parts| < 2 then Err("IndexError") else Ok(parts[|parts| - 2])
  }

  /** On a URL without "www" the script and the command agree on the slug. */
  lemma ScriptSlugAgrees(url: string)
    requires !Contains(url, "www")
    ensures ScriptSlug(url).Ok? <==> CitySlug(url).Some?
    ensures ScriptSlug(url).Ok? ==> CitySlug(url) == Some(ScriptSlug(url).value)
  {
    var parts := Split(url, "/");
    if |parts| >= 2 {
      var tag := parts[|parts| - 2];
      assert !Contains(tag, "www") by {
        if Contains(tag, "www") {
          SplitPieceContained(url, "/", |parts| - 2, "www");
        }
      }
    }
  }

  lemma {:induction false} LacksLetterW(t: string)
    requires 'w' !in t
    ensures !Contains(t, "www")
  {
    forall j | 0 <= j ensures !OccursAt(t, "www", j) {
      if j < |t| {
        assert t[j] in t;
      }
    }
    assert IndexOf(t, "www").None?;
  }

  /** Every city URL on the "www" host is given "sao-paulo" by the script,
      where the command gives it its own slug. */
  lemma WwwCityUrlsCollapse(prefix: string, tag: string)
    requires Contains(prefix, "www") && '/' !in tag && !Contains(tag, "www")
    ensures ScriptSlug(prefix + "/" + tag + "/") == Ok(DefaultCity)
    ensures CitySlug(prefix + "/" + tag + "/") == Some(tag)
  {
    ContainsInLonger("", prefix, "/" + tag + "/", "www");
    assert "" + prefix + ("/" + tag + "/") == prefix + "/" + tag + "/";
    CityUrlSlug(prefix, tag);
  }

  const RioUrl: string := "https://www.blocosderua.com/rio-de-janeiro/"

  lemma RioUrlParts()
    ensures RioUrl == "https://www.blocosderua.com" + "/" + "rio-de-janeiro" + "/"
    ensures Contains("https://www.blocosderua.com", "www")
  {
    var host := "https://www.blocosderua.com";
    assert host[8..11] == "www";
    ContainsAt(host, "www", 8);
  }

  lemma RioSlugPlain()
    ensures '/' !in "rio-de-janeiro" && !Contains("rio-de-janeiro", "www")
  {
    LacksLetterW("rio-de-janeiro");
  }

  /** The Rio de Janeiro page, for one. */
  lemma RioDeJaneiroIsSaoPaulo()
    ensures ScriptSlug(RioUrl) == Ok(DefaultCity)
    ensures CitySlug(RioUrl) == Some("rio-de-janeiro")
  {
    RioUrlParts();
    RioSlugPlain();
    WwwCityUrlsCollapse("https://www.blocosderua.com", "rio-de-janeiro");
  }

  /** The events of `update_event_links` over `urls`, where `links(u)` is
      the outcome of `get_city_events_links(u)`. */
  function ScriptEvents(urls: seq<string>, links: string -> Result<seq<string>>): Result<seq<(string, string)>>
  {
    if urls == [] then Ok([])
    else match ScriptSlug(urls[0])
      case Err(e) => Err(e)
      case Ok(city) =>
        match links(urls[0])
        case Err(e) => Err(e)
        case Ok(found) => Prepend(WithCity(city, found), ScriptEvents(urls[1..], links))
  }

  // ------------------------------------------------- drop_duplicates

  /** `drop_duplicates(subset=key)` keeping the first row of each key,
      where the keys in `seen` count as already taken. */
  function DedupFrom<T(==)>(rows: seq<T>, key: T -> string, seen: set<string>): seq<T>
  {
    if rows == [] then []
    else if key(rows[0]) in seen then DedupFrom(rows[1..], key, seen)
    else [rows[0]] + DedupFrom(rows[1..], key, seen + {key(rows[0])})
  }

  function DropDuplicates<T(==)>(rows: seq<T>, key: T -> string): seq<T> {
    DedupFrom(rows, key, {})
  }

  function Keys<T(==)>(rows: seq<T>, key: T -> string): set<string> {
    set x | x in rows :: key(x)
  }

  /** The kept rows have distinct new keys, come from the table, and include
      the first row of every key not yet seen. */
  lemma {:induction false} DedupCorrect<T>(rows: seq<T>, key: T -> string, seen: set<string>)
    ensures var r := DedupFrom(rows, key, seen);
            && (forall i, j :: 0 <= i < j < |r| ==> key(r[i]) != key(r[j]))
            && (forall q :: q in r ==> q in rows && key(q) !in seen)
            && (forall i :: (0 <= i < |rows| && key(rows[i]) !in seen
                  && (forall j :: 0 <= j < i ==> key(rows[j]) != key(rows[i]))) ==> rows[i] in r)
  {
    if rows != [] {
      var x, tail := rows[0], rows[1..];
      if key(x) in seen {
        DedupCorrect(tail, key, seen);
        var r := DedupFrom(tail, key, seen);
        forall i | 0 <= i < |rows| && key(rows[i]) !in seen
            && (forall j :: 0 <= j < i ==> key(rows[j]) != key(rows[i]))
          ensures rows[i] in r
        {
          assert i > 0 ==> rows[i] == tail[i - 1];
          assert forall j :: 0 <= j < i - 1 ==> tail[j] == rows[j + 1];
        }
      } else {
        var seen' := seen + {key(x)};
        DedupCorrect(tail, key, seen');
        var sub := DedupFrom(tail, key, seen');
        var r := [x] + sub;
        assert DedupFrom(rows, key, seen) == r;
        forall i, j | 0 <= i < j < |r| ensures key(r[i]) != key(r[j]) {
          if i == 0 {
            assert r[j] == sub[j - 1] && r[j] in sub;
          } else {
            assert r[i] == sub[i - 1] && r[j] == sub[j - 1];
          }
        }
        forall i | 0 <= i < |rows| && key(rows[i]) !in seen
            && (forall j :: 0 <= j < i ==> key(rows[j]) != key(rows[i]))
          ensures rows[i] in r
        {
          if i > 0 {
            assert rows[i] == tail[i - 1];
            assert key(rows[0]) != key(rows[i]);
            assert forall j :: 0 <= j < i - 1 ==> tail[j] == rows[j + 1];
          }
        }
      }
    }
  }

  /** Deduplicating a concatenation: the first table deduplicated, then the
      rows of the second whose key is new. So `concat([existing, new])`
      keeps the existing rows first and drops the later duplicates. */
  lemma {:induction false} DedupMerge<T>(a: seq<T>, b: seq<T>, key: T -> string, seen: set<string>)
    ensures DedupFrom(a + b, key, seen) == DedupFrom(a, key, seen) + DedupFrom(b, key, seen + Keys(a, key))
  {
    if a == [] {
      assert a + b == b;
      assert Keys(a, key) == {};
      assert seen + {} == seen;
    } else {
      var x, rest := a[0], a[1..];
      assert (a + b)[0] == x && (a + b)[1..] == rest + b;
      assert Keys(a, key) == {key(x)} + Keys(rest, key) by {
        assert forall y :: y in a <==> y == x || y in rest;
      }
      if key(x) in seen {
        DedupMerge(rest, b, key, seen);
        assert seen + Keys(a, key) == seen + Keys(rest, key);
      } else {
        DedupMerge(rest, b, key, seen + {key(x)});
        assert seen + {key(x)} + Keys(rest, key) == seen + Keys(a, key);
      }
    }
  }

  // ------------------------------------------------- update_event_links

  /** The event-link table `update_event_links` writes, given the previous
      one (None when the CSV does not exist). */
  function WrittenLinks(root: Fetched<Option<seq<string>>>, links: string -> Result<seq<string>>,
                        existing: Option<seq<(string, string)>>): Result<seq<(string, string)>>
  {
    match ScriptCitiesUrls(root)
    case Err(e) => Err(e)
    case Ok(urls) =>
      match ScriptEvents(urls, links)
      case Err(e) => Err(e)
      case Ok(events) =>
        Ok(if existing.None? then events else DropDuplicates(existing.value + events, (e: (string, string)) => e.1))
  }

  method UpdateEventLinks(root: Fetched<Option<seq<string>>>, links: string -> Result<seq<string>>,
                          existing: Option<seq<(string, string)>>)
    returns (r: Result<seq<(string, string)>>)
    ensures r == WrittenLinks(root, links, existing)
  {
    var cities := ScriptCitiesUrls(root);
    if cities.Err? {
      return Err(cities.reason);
    }
    var urls := cities.value;
    var all: seq<(string, string)> := [];
    var i := 0;
    PrependNothing(ScriptEvents(urls, links));
    while i < |urls|
      invariant 0 <= i <= |urls|
      invariant ScriptEvents(urls, links) == Prepend(all, ScriptEvents(urls[i..], links))
    {
      assert urls[i..][1..] == urls[i + 1..];
      var city := ScriptSlug(urls[i]);
      if city.Err? {
        return Err(city.reason);
      }
      var found := links(urls[i]);
      if found.Err? {
        return Err(found.reason);
      }
      PrependTwice(all, WithCity(city.value, found.value), ScriptEvents(urls[i + 1..], links));
      all := all + WithCity(city.value, found.value);
      i := i + 1;
    }
    assert urls[i..] == [];
    assert all + [] == all;
    if existing.Some? {
      r := Ok(DropDuplicates(existing.value + all, (e: (string, string)) => e.1));
    } else {
      r := Ok(all);
    }
  }

  // ------------------------------------------------------ raw page files

  /** `url.split("/")[-2] + ".html"`; None where the index raises. */
  function FileName(url: string): (r: Option<string>)
    ensures r.Some? <==> |Split(url, "/")| >= 2
  {
    var parts := Split(url, "/");
    if |parts| < 2 then None else Some(parts[|parts| - 2] + ".html")
  }

  /** `fetch_event_page` of the script: stores the page under its city
      directory unless that file exists; a failed download stores nothing,
      and so does a URL whose file name cannot be formed (the exception is
      lost in `executor.map`). */
  function FetchEventPage(files: map<(string, string), string>, city: string, url: string,
                          response: Fetched<string>): (r: map<(string, string), string>)
    ensures forall f :: f in files ==> f in r && r[f] == files[f]
    ensures forall f :: f in r && f !in files ==> FileName(url).Some? && f == (city, FileName(url).value)
    ensures FileName(url).Some? && (city, FileName(url).value) !in files && response.Page? ==>
              r == files[(city, FileName(url).value) := response.content]
    ensures FileName(url).None? || (city, FileName(url).value) in files || !response.Page? ==> r == files
  {
    match FileName(url)
    case None => files
    case Some(name) =>
      if (city, name) in files then files
      else match response
        case Page(text) => files[(city, name) := text]
        case _ => files
  }

  /** Once a page is stored, fetching it again changes nothing, whatever
      the second answer; a failed first fetch leaves the second one to act
      alone. */
  lemma FetchEventPageIdempotent(files: map<(string, string), string>, city: string, url: string,
                                 first: Fetched<string>, second: Fetched<string>)
    ensures var once := FetchEventPage(files, city, url, first);
            && (first.Page? ==> FetchEventPage(once, city, url, second) == once)
            && (!first.Page? ==> FetchEventPage(once, city, url, second) == FetchEventPage(files, city, url, second))
  {
  }

  /** The event-page link rebuilt from a city directory and a file name. */
  function EventPageLink(cityDir: string, filename: string): string {
    BaseUrl + cityDir + "/programacao/" + Replace(filename, ".html", "")
  }

  lemma {:induction false} ReplaceSuffix(slug: string)
    requires '.' !in slug
    ensures Replace(slug + ".html", ".html", "") == slug
  {
    var s := slug + ".html";
    forall j | 0 <= j < |slug| ensures !OccursAt(slug + ".html" + "", ".html", j) {
      assert slug[j] in slug;
      assert (slug + ".html" + "")[j] != '.';
    }
    assert s == slug + ".html" + "";
    SplitAtFirst(slug, ".html", "");
    assert IndexOf("", ".html").None?;
    assert Split(s, ".html") == [slug, ""];
    assert Join([slug, ""], "") == slug + "" + "";
  }

  /** The link rebuilt from the file name of an event page is the page's
      URL without its final slash. */
  lemma EventPageLinkRoundTrip(city: string, slug: string)
    requires '/' !in slug && '.' !in slug
    ensures var url := BaseUrl + city + "/programacao/" + slug + "/";
            FileName(url) == Some(slug + ".html")
            && EventPageLink(city, slug + ".html") + "/" == url
  {
    var prefix := BaseUrl + city + "/programacao";
    assert BaseUrl + city + "/programacao/" + slug + "/" == prefix + "/" + slug + "/";
    SecondToLastPiece(prefix, slug);
    ReplaceSuffix(slug);
  }

  // ---------------------------------------------------- process_event_pages

  /** A file of the raw page directory, with what the code reads from it;
      None when an element it reads is missing, where the lookup raises. */
  datatype HtmlFile = HtmlFile(cityDir: string, filename: string, fields: Option<PageFields>)

  /** A row of the event CSV. */
  datatype EventRow = EventRow(
    city: string, eventName: string, eventSubtitle: string, eventText: string,
    ticket: string, ticketLink: string, address: string, addressGmaps: string,
    eventPageLink: string, date: Option<string>, dateDay: Option<string>, time: Option<string>)

  predicate EndsWith(s: string, t: string) {
    |t| <= |s| && s[|s| - |t|..] == t
  }

  /** The row of one page: the two `h6` texts are stripped, the other
      fields kept as read. */
  function NewRow(cityDir: string, p: PageFields, link: string): EventRow {
    EventRow(cityDir, p.name, p.subtitle, p.description, Strip(p.ticketInfo), p.ticketUrl,
             Strip(p.address), p.addressGmapsUrl, link, None, None, None)
  }

  /** The rows read from the `.html` files whose link is not processed yet. */
  function CollectRows(files: seq<HtmlFile>, processed: set<string>): Result<seq<EventRow>>
  {
    if files == [] then Ok([])
    else
      var f := files[0];
      if !EndsWith(f.filename, ".html") then CollectRows(files[1..], processed)
      else
        var link := EventPageLink(f.cityDir, f.filename);
        if link in processed then CollectRows(files[1..], processed)
        else match f.fields
          case None => Err("AttributeError")
          case Some(p) => Prepend([NewRow(f.cityDir, p, link)], CollectRows(files[1..], processed))
  }

  /** The rows are those of the `.html` files with an unprocessed link:
      every row comes from such a file, and every such file gives its row. */
  lemma {:induction false} CollectRowsMembers(files: seq<HtmlFile>, processed: set<string>)
    requires CollectRows(files, processed).Ok?
    ensures forall r :: r in CollectRows(files, processed).value ==>
              r.eventPageLink !in processed &&
              exists f :: f in files && EndsWith(f.filename, ".html") && f.fields.Some?
                          && r == NewRow(f.cityDir, f.fields.value, EventPageLink(f.cityDir, f.filename))
    ensures forall f :: f in files && EndsWith(f.filename, ".html") && EventPageLink(f.cityDir, f.filename) !in processed ==>
              f.fields.Some? && NewRow(f.cityDir, f.fields.value, EventPageLink(f.cityDir, f.filename)) in CollectRows(files, processed).value
  {
    if files != [] {
      CollectRowsMembers(files[1..], processed);
      forall f | f in files ensures f == files[0] || f in files[1..] {
        var k :| 0 <= k < |files| && files[k] == f;
        assert k > 0 ==> files[1..][k - 1] == f;
      }
    }
  }

  /** The files are read in order: the rows of `a + b` are those of `a`
      followed by those of `b`, and a file that fails to parse ends the run
      before `b`. */
  lemma {:induction false} CollectRowsConcat(a: seq<HtmlFile>, b: seq<HtmlFile>, processed: set<string>)
    ensures CollectRows(a, processed).Err? ==> CollectRows(a + b, processed) == CollectRows(a, processed)
    ensures CollectRows(a, processed).Ok? ==>
              CollectRows(a + b, processed) == Prepend(CollectRows(a, processed).value, CollectRows(b, processed))
  {
    if a == [] {
      assert a + b == b;
      PrependNothing(CollectRows(b, processed));
    } else {
      assert (a + b)[0] == a[0] && (a + b)[1..] == a[1..] + b;
      CollectRowsConcat(a[1..], b, processed);
      var f := a[0];
      var rest := CollectRows(a[1..], processed);
      if EndsWith(f.filename, ".html") && EventPageLink(f.cityDir, f.filename) !in processed
         && f.fields.Some? && rest.Ok? {
        PrependTwice([NewRow(f.cityDir, f.fields.value, EventPageLink(f.cityDir, f.filename))],
                     rest.value, CollectRows(b, processed));
      }
    }
  }

  /** One file gives one row exactly when it is an `.html` file with an
      unprocessed link that parses; an unparsable one raises. */
  lemma CollectRowsOfOneFile(f: HtmlFile, processed: set<string>)
    ensures var link := EventPageLink(f.cityDir, f.filename);
            && (!EndsWith(f.filename, ".html") || link in processed ==> CollectRows([f], processed) == Ok([]))
            && (EndsWith(f.filename, ".html") && link !in processed && f.fields.None? ==>
                  CollectRows([f], processed) == Err("AttributeError"))
            && (EndsWith(f.filename, ".html") && link !in processed && f.fields.Some? ==>
                  CollectRows([f], processed) == Ok([NewRow(f.cityDir, f.fields.value, link)]))
  {
    assert [f][1..] == [];
    if f.fields.Some? {
      var row := NewRow(f.cityDir, f.fields.value, EventPageLink(f.cityDir, f.filename));
      assert [row] + [] == [row];
    }
  }

  /** The largest number of " - " pieces among the subtitles. */
  function MaxPieces(subtitles: seq<string>): (m: nat)
    ensures forall s :: s in subtitles ==> |Split(s, Subtitle.Separator)| <= m
    ensures subtitles != [] ==> exists s :: s in subtitles && |Split(s, Subtitle.Separator)| == m
  {
    if subtitles == [] then 0
    else
      var n := |Split(subtitles[0], Subtitle.Separator)|;
      var rest := MaxPieces(subtitles[1..]);
      assert forall s :: s in subtitles ==> s == subtitles[0] || s in subtitles[1..];
      if n >= rest then n else rest
  }

  /** One row after `str.split(" - ", expand=True)` into three columns and
      `time.str.split(" ").str[0]`: missing pieces are None. */
  function SplitRow(row: EventRow): EventRow {
    var pieces := Split(row.eventSubtitle, Subtitle.Separator);
    row.(date := Some(pieces[0]),
         dateDay := if |pieces| > 1 then Some(pieces[1]) else None,
         time := if |pieces| > 2 then Some(Subtitle.FirstWord(pieces[2])) else None)
  }

  /** The column split of the whole batch: the split makes as many columns
      as the longest subtitle has pieces, and assigning them to three
      columns raises unless that is three. */
  function BatchSplit(rows: seq<EventRow>): (r: Option<seq<EventRow>>)
    ensures r.Some? <==> MaxPieces(Subtitles(rows)) == 3
    ensures r.Some? ==> |r.value| == |rows| && forall k :: 0 <= k < |rows| ==> r.value[k] == SplitRow(rows[k])
  {
    if MaxPieces(Subtitles(rows)) != 3 then None
    else Some(seq(|rows|, k requires 0 <= k < |rows| => SplitRow(rows[k])))
  }

  function Subtitles(rows: seq<EventRow>): (r: seq<string>)
    ensures |r| == |rows| && forall k :: 0 <= k < |rows| ==> r[k] == rows[k].eventSubtitle
  {
    seq(|rows|, k requires 0 <= k < |rows| => rows[k].eventSubtitle)
  }

  /** A subtitle the management command accepts gets from the script the
      same weekday and time, and its date as the original `DD/MM/YYYY` text
      (the script does not reformat it). */
  lemma SplitRowAgrees(row: EventRow)
    requires Subtitle.ParseEventSubtitle(row.eventSubtitle).Some?
    ensures var e := Subtitle.ParseEventSubtitle(row.eventSubtitle).value;
            var r := SplitRow(row);
            r.date == Some(Dates.DisplayText(e.eventDate)) && r.dateDay == Some(e.eventDay) && r.time == Some(e.eventTime)
  {
    var s := row.eventSubtitle;
    var parts := Split(s, Subtitle.Separator);
    assert |parts| == 3;
    Text.SplitIntoThree(s, Subtitle.Separator);
    var e := Subtitle.ParseEventSubtitle(s).value;
    var t := Subtitle.SplitSubtitle(s).value;
    assert t == (parts[0], parts[1], parts[2]);
    Dates.DisplayTextCanonical(parts[0]);
  }

  /** What `process_event_pages` does to the event CSV. */
  datatype WriteOutcome = NothingWritten | Wrote(table: seq<EventRow>) | Crashed

  function ProcessedLinks(existing: Option<seq<EventRow>>): set<string> {
    if existing.None? then {} else set r | r in existing.value :: r.eventPageLink
  }

  function ProcessedTable(files: seq<HtmlFile>, existing: Option<seq<EventRow>>): WriteOutcome {
    match CollectRows(files, ProcessedLinks(existing))
    case Err(_) => Crashed
    case Ok(rows) =>
      if rows == [] then NothingWritten
      else match BatchSplit(rows)
        case None => Crashed
        case Some(split) =>
          Wrote(if existing.None? then split
                else DropDuplicates(existing.value + split, (r: EventRow) => r.eventPageLink))
  }

  /** The loop over the raw page files, then the column split and the merge
      with the existing CSV (None when it does not exist). */
  method ProcessEventPages(files: seq<HtmlFile>, existing: Option<seq<EventRow>>)
    returns (out: WriteOutcome)
    ensures out == ProcessedTable(files, existing)
  {
    var processed := ProcessedLinks(existing);
    var data: seq<EventRow> := [];
    var i := 0;
    PrependNothing(CollectRows(files, processed));
    while i < |files|
      invariant 0 <= i <= |files|
      invariant CollectRows(files, processed) == Prepend(data, CollectRows(files[i..], processed))
    {
      assert files[i..][1..] == files[i + 1..];
      var f := files[i];
      if EndsWith(f.filename, ".html") {
        var link := EventPageLink(f.cityDir, f.filename);
        if link !in processed {
          if f.fields.None? {
            return Crashed;
          }
          var row := NewRow(f.cityDir, f.fields.value, link);
          PrependTwice(data, [row], CollectRows(files[i + 1..], processed));
          data := data + [row];
        }
      }
      i := i + 1;
    }
    assert files[i..] == [];
    assert data + [] == data;
    if data == [] {
      return NothingWritten;
    }
    var split := BatchSplit(data);
    if split.None? {
      return Crashed;
    }
    if existing.Some? {
      out := Wrote(DropDuplicates(existing.value + split.value, (r: EventRow) => r.eventPageLink));
    } else {
      out := Wrote(split.value);
    }
  }
}
