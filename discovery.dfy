/** Link discovery of the `web_scraping` management command
    (carnaval_map/management/commands/web_scraping.py): the city URLs of the
    site, the "view all" page of a city, the paginated listing of its event
    cards, the city slug and the list of events not yet in the database.

    Every HTTP request is an input: what a request for a URL yields is a
    `Fetched` value, with the HTML already reduced to the hrefs or option
    values the code reads. */
module Discovery {
  import opened Wrappers
  import opened Text
  import opened Filtering

  const BaseUrl: string := "https://www.blocosderua.com/"
  const EventMarker: string := "programacao/"
  const DefaultCity: string := "sao-paulo"

  /** Outcome of `requests.get` as the calling code classifies it: `Page`,
      an answer it goes on to read; `HttpError`, an answer it turns away;
      `Raised`, an exception raised by `requests`. Where the code compares
      the status with 200 (the paging loops, and the script's
      `get_cities_urls` and `get_city_full_page_url`), `Page` is status 200
      and `HttpError` any other status. Where it calls `raise_for_status`
      (the command's `get_cities_urls`, `get_city_full_page_url` and
      `fetch_event_page`, and the script's `fetch_event_page`), `Page` is
      any status below 400 and `HttpError` a 4xx or 5xx answer, whose
      `HTTPError` the surrounding handler catches. */
  datatype Fetched<T> = Page(content: T) | HttpError | Raised

  /** What the code reads from an event page, as the page has it: the `h1`
      title, the subtitle `h2`, the paragraph after it, the ticket `h6` (its
      text before stripping, and its optional link, "" without one) and the
      address `h6` (its text before stripping, and its link). */
  datatype PageFields = PageFields(
    name: string, subtitle: string, description: string,
    ticketInfo: string, ticketUrl: string, address: string, addressGmapsUrl: string)

  // ------------------------------------------------------ get_cities_urls

  /** The option values that are not empty, in page order. */
  function NonEmptyValues(values: seq<string>): (r: seq<string>)
    ensures |r| <= |values|
    ensures forall v :: v in r <==> v in values && v != ""
  {
    Filter(values, (v: string) => v != "")
  }

  /** The values are kept in page order: each non-empty value sits between
      those kept before it and those kept after it, and an empty one is
      dropped. */
  lemma NonEmptyValuesInOrder(a: seq<string>, v: string, b: seq<string>)
    ensures NonEmptyValues(a + [v] + b) == NonEmptyValues(a) + (if v != "" then [v] else []) + NonEmptyValues(b)
  {
    FilterAround(a, v, b, (v: string) => v != "");
  }

  /** `get_cities_urls`: the `value`s of the options of the city selector
      (None when the page has no selector, where `find` returns None and the
      next call raises), then the base URL. Every failure gives []. */
  function CitiesUrls(root: Fetched<Option<seq<string>>>): (r: seq<string>)
    ensures r == [] <==> !(root.Page? && root.content.Some?)
    ensures r != [] ==> r[|r| - 1] == BaseUrl
    ensures r != [] ==> forall v :: v in r[..|r| - 1] <==> v in root.content.value && v != ""
    ensures root.Page? && root.content.Some? ==> r == NonEmptyValues(root.content.value) + [BaseUrl]
  {
    match root
    case Page(Some(values)) => NonEmptyValues(values) + [BaseUrl]
    case _ => []
  }

  // ----------------------------------------------- get_city_full_page_url

  /** Index of the first href that contains `t`. */
  function FirstContaining(hrefs: seq<string>, t: string): (r: Option<nat>)
    ensures r.Some? ==> r.value < |hrefs| && Contains(hrefs[r.value], t)
    ensures r.Some? ==> forall j :: 0 <= j < r.value ==> !Contains(hrefs[j], t)
    ensures r.None? ==> forall h :: h in hrefs ==> !Contains(h, t)
  {
    if hrefs == [] then None
    else if Contains(hrefs[0], t) then Some(0)
    else match FirstContaining(hrefs[1..], t)
      case None => None
      case Some(i) => Some(i + 1)
  }

  /** `get_city_full_page_url`: the first `btn` href containing the city
      URL; None when there is none or the request fails (a non-200 status
      raises in `raise_for_status`, and both are `RequestException`s). */
  function FullPageUrl(cityUrl: string, page: Fetched<seq<string>>): (r: Option<string>)
    ensures r.Some? ==> page.Page? && Contains(r.value, cityUrl) && r.value in page.content
    ensures r.Some? ==> exists i :: 0 <= i < |page.content| && r.value == page.content[i]
                          && forall j :: 0 <= j < i ==> !Contains(page.content[j], cityUrl)
    ensures r.None? ==> !page.Page? || forall h :: h in page.content ==> !Contains(h, cityUrl)
  {
    if !page.Page? then None
    else match FirstContaining(page.content, cityUrl)
      case None => None
      case Some(i) => Some(page.content[i])
  }

  // ------------------------------------------------ get_city_events_links

  /** `f"{full_page_url}?paged={i}&data=&bairro="` */
  function PageUrl(full: string, i: nat): string {
    full + "?paged=" + Decimal(i) + "&data=&bairro="
  }

  /** The card hrefs that are event pages. */
  function EventLinks(hrefs: seq<string>): (r: seq<string>)
    ensures |r| <= |hrefs|
    ensures forall h :: h in r <==> h in hrefs && Contains(h, EventMarker)
  {
    Filter(hrefs, (h: string) => Contains(h, EventMarker))
  }

  /** The event links keep the order of the cards, repeats included: each
      card href is kept in place exactly when it contains the marker. */
  lemma EventLinksInOrder(a: seq<string>, h: string, b: seq<string>)
    ensures EventLinks(a + [h] + b) == EventLinks(a) + (if Contains(h, EventMarker) then [h] else []) + EventLinks(b)
  {
    FilterAround(a, h, b, (h: string) => Contains(h, EventMarker));
  }

  /** A page ends the listing: it failed, or it lists no event. */
  predicate Stops(f: Fetched<seq<string>>) {
    !f.Page? || EventLinks(f.content) == []
  }

  /** The listing from page `i` on. `last` is a page known to stop the
      loop: the source loops for ever on a site whose every page lists
      events, and `last` is the termination argument of the model. */
  function Listing(fetch: string -> Fetched<seq<string>>, full: string, i: nat, last: nat): (r: Result<seq<string>>)
    requires 1 <= i <= last && Stops(fetch(PageUrl(full, last)))
    decreases last - i
    ensures r.Ok? ==> forall h :: h in r.value ==> Contains(h, EventMarker)
  {
    var f := fetch(PageUrl(full, i));
    if f.Raised? then Err("RequestException")
    else if f.HttpError? || EventLinks(f.content) == [] then Ok([])
    else match Listing(fetch, full, i + 1, last)
      case Err(e) => Err(e)
      case Ok(rest) => Ok(EventLinks(f.content) + rest)
  }

  /** `get_city_events_links`: [] without a "view all" URL (None or empty),
      else the listing from page 1. */
  function CityListing(cityUrl: string, cityPage: Fetched<seq<string>>,
                       fetch: string -> Fetched<seq<string>>, last: nat): Result<seq<string>>
    requires ListingEnds(cityUrl, cityPage, fetch, last)
  {
    var full := FullPageUrl(cityUrl, cityPage);
    if full.None? || full.value == "" then Ok([]) else Listing(fetch, full.value, 1, last)
  }

  predicate ListingEnds(cityUrl: string, cityPage: Fetched<seq<string>>,
                        fetch: string -> Fetched<seq<string>>, last: nat) {
    var full := FullPageUrl(cityUrl, cityPage);
    full.Some? && full.value != "" ==> 1 <= last && Stops(fetch(PageUrl(full.value, last)))
  }

  /** `xs` put in front of a successful result. */
  function Prepend<T>(xs: seq<T>, r: Result<seq<T>>): Result<seq<T>> {
    match r
    case Ok(ys) => Ok(xs + ys)
    case Err(e) => Err(e)
  }

  lemma PrependNothing<T>(r: Result<seq<T>>)
    ensures Prepend([], r) == r
  {
    if r.Ok? {
      assert [] + r.value == r.value;
    }
  }

  lemma PrependTwice<T>(xs: seq<T>, ys: seq<T>, r: Result<seq<T>>)
    ensures Prepend(xs, Prepend(ys, r)) == Prepend(xs + ys, r)
  {
    if r.Ok? {
      assert xs + (ys + r.value) == (xs + ys) + r.value;
    }
  }

  /** The pagination loop: pages 1, 2, 3, ... until one fails or lists no
      event; an exception from `requests.get` escapes. */
  method CityEventsLinks(cityUrl: string, cityPage: Fetched<seq<string>>,
                         fetch: string -> Fetched<seq<string>>, ghost last: nat)
    returns (r: Result<seq<string>>)
    requires ListingEnds(cityUrl, cityPage, fetch, last)
    ensures r == CityListing(cityUrl, cityPage, fetch, last)
  {
    var full := FullPageUrl(cityUrl, cityPage);
    if full.None? || full.value == "" {
      return Ok([]);
    }
    var links: seq<string> := [];
    var i := 1;
    PrependNothing(Listing(fetch, full.value, 1, last));
    while true
      invariant 1 <= i <= last
      invariant Listing(fetch, full.value, 1, last) == Prepend(links, Listing(fetch, full.value, i, last))
      decreases last - i
    {
      var f := fetch(PageUrl(full.value, i));
      if f.Raised? {
        return Err("RequestException");
      }
      if f.HttpError? {
        break;
      }
      var cards := EventLinks(f.content);
      if cards == [] {
        break;
      }
      PrependTwice(links, cards, Listing(fetch, full.value, i + 1, last));
      links := links + cards;
      i := i + 1;
    }
    assert links + [] == links;
    r := Ok(links);
  }

  /** The first page from `i` on that stops the loop. */
  function FirstStop(fetch: string -> Fetched<seq<string>>, full: string, i: nat, last: nat): (k: nat)
    requires 1 <= i <= last && Stops(fetch(PageUrl(full, last)))
    decreases last - i
    ensures i <= k <= last && Stops(fetch(PageUrl(full, k)))
    ensures forall j :: i <= j < k ==> !Stops(fetch(PageUrl(full, j)))
  {
    if Stops(fetch(PageUrl(full, i))) then i else FirstStop(fetch, full, i + 1, last)
  }

  /** The event links of pages `i` to `k - 1`, each of which lists events. */
  function PagesBetween(fetch: string -> Fetched<seq<string>>, full: string, i: nat, k: nat): seq<string>
    requires i <= k && forall j :: i <= j < k ==> !Stops(fetch(PageUrl(full, j)))
    decreases k - i
  {
    if i == k then []
    else
      var f := fetch(PageUrl(full, i));
      assert !Stops(f);
      EventLinks(f.content) + PagesBetween(fetch, full, i + 1, k)
  }

  /** The listing is the event links of every page before the first one
      that stops it; it is an error exactly when that page raised. */
  lemma {:induction false} ListingIsPagesBefore(fetch: string -> Fetched<seq<string>>, full: string, i: nat, last: nat)
    requires 1 <= i <= last && Stops(fetch(PageUrl(full, last)))
    ensures var k := FirstStop(fetch, full, i, last);
            Listing(fetch, full, i, last)
            == if fetch(PageUrl(full, k)).Raised? then Err("RequestException") else Ok(PagesBetween(fetch, full, i, k))
    decreases last - i
  {
    if !Stops(fetch(PageUrl(full, i))) {
      ListingIsPagesBefore(fetch, full, i + 1, last);
    }
  }

  /** Which stopping page is used as termination argument does not matter. */
  lemma {:induction false} ListingIndependentOfBound(fetch: string -> Fetched<seq<string>>, full: string, i: nat, last1: nat, last2: nat)
    requires 1 <= i <= last1 && Stops(fetch(PageUrl(full, last1)))
    requires i <= last2 && Stops(fetch(PageUrl(full, last2)))
    ensures Listing(fetch, full, i, last1) == Listing(fetch, full, i, last2)
    decreases last1 - i
  {
    if !Stops(fetch(PageUrl(full, i))) {
      ListingIndependentOfBound(fetch, full, i + 1, last1, last2);
    }
  }

  // ----------------------------------------------------- get_events_links

  /** The city slug of a city URL: its second-to-last `/` piece, or
      "sao-paulo" when that piece contains "www" (the root URL). None where
      the URL has no `/` and indexing raises `IndexError`. */
  function CitySlug(url: string): (r: Option<string>)
    ensures r.Some? <==> |Split(url, "/")| >= 2
    ensures r.Some? ==> var tag := Split(url, "/")[|Split(url, "/")| - 2];
                        r.value == (if Contains(tag, "www") then DefaultCity else tag)
  {
    var parts := Split(url, "/");
    if |parts| < 2 then None
    else
      var tag := parts[|parts| - 2];
      Some(if Contains(tag, "www") then DefaultCity else tag)
  }

  /** The second-to-last `/` piece of `<prefix>/<tag>/` is `tag`. */
  lemma {:induction false} SecondToLastPiece(prefix: string, tag: string)
    requires '/' !in tag
    ensures var parts := Split(prefix + "/" + tag + "/", "/");
            |parts| >= 2 && parts[|parts| - 2] == tag
  {
    var u := prefix + "/" + tag + "/";
    assert u == prefix + "/" + (tag + "/" + "");
    SplitCharConcat(prefix, '/', tag + "/" + "");
    SplitCharConcat(tag, '/', "");
    forall k | 0 <= k < |tag| ensures tag[k] != '/' {
      assert tag[k] in tag;
    }
    SplitCharFree(tag, '/');
    SplitCharFree("", '/');
  }

  /** A URL `<prefix>/<tag>/` gets the slug `tag`, or the default city
      when `tag` contains "www". */
  lemma CityUrlSlug(prefix: string, tag: string)
    requires '/' !in tag
    ensures CitySlug(prefix + "/" + tag + "/") == Some(if Contains(tag, "www") then DefaultCity else tag)
  {
    SecondToLastPiece(prefix, tag);
  }

  /** The host of the root URL. */
  const RootHost: string := "www" + ".blocosderua.com"

  lemma RootHostFacts()
    ensures BaseUrl == "https:/" + "/" + RootHost + "/"
    ensures '/' !in RootHost && Contains(RootHost, "www")
  {
    assert RootHost[0..3] == "www";
    ContainsAt(RootHost, "www", 0);
  }

  /** The root URL is given the default city. */
  lemma BaseUrlSlug()
    ensures CitySlug(BaseUrl) == Some(DefaultCity)
  {
    RootHostFacts();
    CityUrlSlug("https:/", RootHost);
  }

  /** Pairs every link with its city. */
  function WithCity(city: string, links: seq<string>): (r: seq<(string, string)>)
    ensures |r| == |links| && forall k :: 0 <= k < |r| ==> r[k] == (city, links[k])
  {
    seq(|links|, k requires 0 <= k < |links| => (city, links[k]))
  }

  /** The links not among the stored URLs, in the order found. */
  function Unknown(links: seq<string>, existing: set<string>): (r: seq<string>)
    ensures forall h :: h in r <==> h in links && h !in existing
  {
    Filter(links, (h: string) => h !in existing)
  }

  /** The stored set is read once, so the new links keep the order of
      discovery and a link found twice in one run is kept twice. */
  lemma UnknownInOrder(a: seq<string>, h: string, b: seq<string>, existing: set<string>)
    ensures Unknown(a + [h] + b, existing) == Unknown(a, existing) + (if h !in existing then [h] else []) + Unknown(b, existing)
  {
    FilterAround(a, h, b, (h: string) => h !in existing);
  }

  /** The events of `get_events_links` over the city URLs `urls`, where
      `links(u)` is the outcome of `get_city_events_links(u)`. */
  function NewEvents(urls: seq<string>, existing: set<string>, links: string -> Result<seq<string>>): Result<seq<(string, string)>>
  {
    if urls == [] then Ok([])
    else match CitySlug(urls[0])
      case None => Err("IndexError")
      case Some(city) =>
        match links(urls[0])
        case Err(e) => Err(e)
        case Ok(found) => Prepend(WithCity(city, Unknown(found, existing)), NewEvents(urls[1..], existing, links))
  }

  /** The events found are exactly the discovered links not already stored,
      each with the slug of the city URL it was found under. */
  lemma {:induction false} NewEventsMembers(urls: seq<string>, existing: set<string>, links: string -> Result<seq<string>>)
    requires NewEvents(urls, existing, links).Ok?
    ensures forall u :: u in urls ==> CitySlug(u).Some? && links(u).Ok?
    ensures forall e: (string, string) :: e in NewEvents(urls, existing, links).value <==>
              e.1 !in existing && exists u :: u in urls && CitySlug(u) == Some(e.0) && e.1 in links(u).value
  {
    if urls != [] {
      NewEventsMembers(urls[1..], existing, links);
      var u0 := urls[0];
      var head := WithCity(CitySlug(u0).value, Unknown(links(u0).value, existing));
      var rest := NewEvents(urls[1..], existing, links).value;
      assert NewEvents(urls, existing, links).value == head + rest;
      forall u | u in urls ensures u == u0 || u in urls[1..] {
        var k :| 0 <= k < |urls| && urls[k] == u;
        assert k > 0 ==> urls[1..][k - 1] == u;
      }
      forall e: (string, string) | e in head ensures e.1 !in existing && CitySlug(u0) == Some(e.0) && e.1 in links(u0).value {
        var k :| 0 <= k < |head| && head[k] == e;
      }
      forall e: (string, string) | e.1 !in existing && CitySlug(u0) == Some(e.0) && e.1 in links(u0).value ensures e in head {
        var l := Unknown(links(u0).value, existing);
        var k :| 0 <= k < |l| && l[k] == e.1;
        assert head[k] == e;
      }
    }
  }

  /** The events of one city URL: its new links paired with its slug, or the
      exception that ends the run. */
  lemma NewEventsOfOneUrl(u: string, existing: set<string>, links: string -> Result<seq<string>>)
    ensures CitySlug(u).None? ==> NewEvents([u], existing, links) == Err("IndexError")
    ensures CitySlug(u).Some? && links(u).Err? ==> NewEvents([u], existing, links) == Err(links(u).reason)
    ensures CitySlug(u).Some? && links(u).Ok? ==>
              NewEvents([u], existing, links) == Ok(WithCity(CitySlug(u).value, Unknown(links(u).value, existing)))
  {
    assert [u][1..] == [];
    if CitySlug(u).Some? && links(u).Ok? {
      var head := WithCity(CitySlug(u).value, Unknown(links(u).value, existing));
      assert head + [] == head;
    }
  }

  /** The city URLs are visited in order: the events of `a + b` are those of
      `a` followed by those of `b`, and an exception in `a` ends the run
      before `b`. */
  lemma {:induction false} NewEventsConcat(a: seq<string>, b: seq<string>, existing: set<string>,
                                           links: string -> Result<seq<string>>)
    ensures NewEvents(a, existing, links).Err? ==> NewEvents(a + b, existing, links) == NewEvents(a, existing, links)
    ensures NewEvents(a, existing, links).Ok? ==>
              NewEvents(a + b, existing, links) == Prepend(NewEvents(a, existing, links).value, NewEvents(b, existing, links))
  {
    if a == [] {
      assert a + b == b;
      PrependNothing(NewEvents(b, existing, links));
    } else {
      assert (a + b)[0] == a[0] && (a + b)[1..] == a[1..] + b;
      NewEventsConcat(a[1..], b, existing, links);
      if CitySlug(a[0]).Some? && links(a[0]).Ok? {
        var head := WithCity(CitySlug(a[0]).value, Unknown(links(a[0]).value, existing));
        var rest := NewEvents(a[1..], existing, links);
        if rest.Ok? {
          PrependTwice(head, rest.value, NewEvents(b, existing, links));
        }
      }
    }
  }

  /** `get_events_links`: the new events as a table, None when there are
      none; an exception from the link discovery escapes. */
  method GetEventsLinks(root: Fetched<Option<seq<string>>>, existing: set<string>,
                        links: string -> Result<seq<string>>)
    returns (r: Result<Option<seq<(string, string)>>>)
    ensures r.Err? <==> NewEvents(CitiesUrls(root), existing, links).Err?
    ensures r.Ok? ==> var events := NewEvents(CitiesUrls(root), existing, links).value;
                      r.value == if events == [] then None else Some(events)
  {
    var urls := CitiesUrls(root);
    var all: seq<(string, string)> := [];
    var i := 0;
    PrependNothing(NewEvents(urls, existing, links));
    while i < |urls|
      invariant 0 <= i <= |urls|
      invariant NewEvents(urls, existing, links) == Prepend(all, NewEvents(urls[i..], existing, links))
    {
      assert urls[i..][1..] == urls[i + 1..];
      var url := urls[i];
      var city := CitySlug(url);
      if city.None? {
        return Err("IndexError");
      }
      var found := links(url);
      if found.Err? {
        return Err(found.reason);
      }
      var unseen := Unknown(found.value, existing);
      PrependTwice(all, WithCity(city.value, unseen), NewEvents(urls[i + 1..], existing, links));
      all := all + WithCity(city.value, unseen);
      i := i + 1;
    }
    assert urls[i..] == [];
    assert all + [] == all;
    if |all| > 0 {
      r := Ok(Some(all));
    } else {
      r := Ok(None);
    }
  }
}
