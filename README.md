# Carnival bloco map, modelled in Dafny

The system collects the street-carnival events ("blocos") of the site
blocosderua.com and shows them on a map. It has two parts.

- A Django application (`carnaval_map`). Its management command
  `web_scraping` discovers the event pages of every city and scrapes each
  page into a `RawBloco`. It then geocodes every unprocessed `RawBloco`
  into a `Bloco` and recomputes the map centre of every city as a `City`
  row. A second command, `fill_neighborhood`, re-extracts the
  neighbourhood of every `Bloco` from its subtitle. Two read-only views
  serve the map page (city and date choices) and a filter endpoint
  (Blocos by city, date and neighbourhood, with date and neighbourhood
  facets).
- A set of standalone scripts (`web_scraping/`) that take the same steps
  as the command's discovery, with differences. A request exception or a
  page without the city selector escapes (Standalone.ScriptCitiesUrls,
  Standalone.ScriptCityListing). Every URL on the `www` host gets the
  default city (Standalone.ScriptSlug). Links are not checked against the
  stored ones; the new link table is merged with the old CSV instead
  (Standalone.DedupMerge). The scripts keep pages and tables as files: an
  event-link CSV, one HTML file per page, an event CSV and a CSV with
  coordinates.

The model keeps the bookkeeping and leaves the outside world as inputs:

- HTTP answers and HTML lookups are values of `Discovery.Fetched` and
  `Discovery.PageFields`.
- The geocoders are functions from query text to reply.
- The database is the class `Models.Database` with one sequence per table.
- CSV files and the raw page directory are values.

Modules:

- `Wrappers`: `Option`, and `Result`, whose `Err` stands for an exception
  that escapes.
- `Text`: the Python string operations used (`strip`, `split`, `find`,
  `replace`, `title`, string order).
- `Filtering`: keeping the elements that pass a test, in order (list
  comprehensions with `if`, and boolean masks on tables).
- `Sorting`: `sorted(set(...))`.
- `Dates`: `DD/MM/YYYY` and `YYYY-MM-DD` dates.
- `Models`: the three tables.
- `Subtitle`: the event subtitle and the two regular expressions that
  read its neighbourhood.
- `Discovery`: link discovery in the management command.
- `Scrape`: `fetch_event_page` and `process_links`.
- `Finalize`: `process_addresses` of the command.
- `Centers`: `update_city_coordinates`.
- `Repair`: `fill_neighborhood`.
- `Views`: the two views.
- `Geocoding`: the geocoding scripts and the query text.
- `Standalone`: `web_scraping/get_data.py`.

The record types carry a `neighborhood` field. `carnaval_map/models.py`
does not declare one, but the scraper, the repair command and both views
write and read it.

## Model

| member | source | states |
|---|---|---|
| Dates.ParseDayMonthYear | carnaval_map/management/commands/web_scraping.py:179 | Only a ten-character `DD/MM/YYYY` text naming a real calendar date (years 1 to 9999) is accepted; anything else is the `ValueError` of `strptime`. |
| Dates.DisplayTextRoundTrip | carnaval_map/views.py:36 | Reading back the `%d/%m/%Y` label of a date gives the same date. |
| Dates.DisplayTextCanonical | carnaval_map/management/commands/web_scraping.py:179-181 | A date text the scraper accepts is exactly the `%d/%m/%Y` text of the date it parses to, so nothing is lost in the reformat. |
| Dates.ParseIso | carnaval_map/views.py:60-61 | A `date` filter value is read as a date only when it is `YYYY-MM-DD` and names a valid date. |
| Dates.IsoTextRoundTrip | carnaval_map/management/commands/web_scraping.py:179-181 | The `%Y-%m-%d` text the scraper stores reads back as the same date. |
| Dates.IsoTextCanonical | carnaval_map/views.py:60-61 | A text read as a date is the ISO text of that date, so each date has exactly one accepted spelling. |
| Dates.DateLessIsStrictTotal | carnaval_map/views.py:34 | The chronological order `sorted` uses on dates is a strict total order. |
| Models.Database.constructor | carnaval_map/models.py:4-67 | An empty database has three empty tables and meets the invariant `Consistent`. Its schema part: `raw_data` links each Bloco to its own existing RawBloco, and City names are unique. Its part kept by the commands: the linked RawBloco is processed, and each Bloco has paired coordinates. |
| Sorting.InsertSortedCorrect | carnaval_map/views.py:34 | Inserting a value into a strictly ascending sequence keeps it strictly ascending and adds exactly that value. |
| Sorting.SortedDistinctCorrect | carnaval_map/views.py:82 | `sorted(...distinct())` is strictly ascending and holds exactly the values of its input. |
| Sorting.HeadIsLeast | carnaval_map/views.py:34 | The first element of a strictly ascending sequence is its least. |
| Sorting.StrictlySortedUnique | carnaval_map/views.py:86 | Two strictly ascending sequences with the same values are equal, so a facet depends only on the set of values. |
| Text.TrimStart | carnaval_map/management/commands/fill_neighborhood.py:17 | `lstrip` removes exactly the leading white space and keeps a suffix of the text. |
| Text.TrimEnd | carnaval_map/management/commands/fill_neighborhood.py:17 | `rstrip` removes exactly the trailing white space and keeps a prefix of the text. |
| Filtering.Filter | carnaval_map/management/commands/web_scraping.py:39 | The kept elements are exactly those that pass the test, never more than the input. |
| Filtering.FilterConcat | carnaval_map/management/commands/web_scraping.py:83-87 | Filtering a concatenation filters each part and keeps the parts in order. |
| Filtering.FilterAround | web_scraping/get_coords.py:53 | Each element is kept in place exactly when it passes, so nothing is reordered or repeated. |
| Text.Strip | carnaval_map/management/commands/web_scraping.py:185 | The result is one slice of the input: everything cut off on either side is white space, and the slice neither starts nor ends with white space. |
| Text.StripWithout | carnaval_map/management/commands/web_scraping.py:185 | Stripping never introduces a character the text lacked. |
| Text.StripAfterTrimStart | carnaval_map/management/commands/fill_neighborhood.py:15-17 | White space already skipped by `\s*` does not change what `strip` returns. |
| Text.IndexOf | carnaval_map/management/commands/web_scraping.py:175-177 | `find` returns the leftmost occurrence, or None when there is none. |
| Text.SplitJoin | carnaval_map/management/commands/web_scraping.py:175-177 | Joining the pieces of `split(sep)` with `sep` gives back the text. |
| Text.SplitPiecesFree | carnaval_map/management/commands/web_scraping.py:175-177 | No piece of `split(sep)` contains `sep`. |
| Text.SplitIntoThree | carnaval_map/management/commands/web_scraping.py:175-177 | A split into three pieces means the text is `p0 + sep + p1 + sep + p2` with separator-free pieces. |
| Text.SplitFirstIsLeftmost | carnaval_map/management/commands/web_scraping.py:175-177 | The first piece ends at the leftmost occurrence of the separator; the other pieces are the split of what follows it. |
| Text.SplitSecondIsLeftmost | carnaval_map/management/commands/web_scraping.py:175-177 | The second piece ends at the leftmost occurrence after the first one. |
| Text.ReplaceChar | carnaval_map/management/commands/web_scraping.py:260 | `replace("-", " ")` changes exactly the dashes and keeps the length. |
| Text.PadDigitsValue | carnaval_map/views.py:36 | A zero-padded number reads back as the number. |
| Text.PadDigitsOfValue | carnaval_map/management/commands/web_scraping.py:179 | A digit string is the zero-padded text of its value. |
| Text.Decimal | carnaval_map/management/commands/web_scraping.py:76 | The page number in the listing URL is written in decimal, without a leading zero, and reads back as the number. |
| Text.TitleFrom | carnaval_map/views.py:31 | `title()` keeps the length and every non-letter, and upper-cases exactly the letters that start a run of letters. |
| Text.StrLessIrreflexive | carnaval_map/views.py:86 | String order is irreflexive. |
| Text.StrLessTransitive | carnaval_map/views.py:86 | String order is transitive. |
| Text.StrLessTotal | carnaval_map/views.py:86 | Any two different strings are ordered one way or the other. |
| Subtitle.SplitSubtitle | carnaval_map/management/commands/web_scraping.py:175-177 | Unpacking succeeds exactly when the subtitle has three `" - "` pieces. The subtitle is then the pieces joined; no piece contains the separator; the first two pieces end at the leftmost separators. |
| Subtitle.SplitSubtitleOf | carnaval_map/management/commands/web_scraping.py:175-177 | Conversely, three separator-free pieces whose first two end at the leftmost separators are exactly what unpacking returns. |
| Subtitle.FirstWord | carnaval_map/management/commands/web_scraping.py:182 | `split(" ")[0]` is the text before the first space, or the whole text when it has none. |
| Subtitle.TailSearch | carnaval_map/management/commands/web_scraping.py:184 | The search returns a position where ` - ([^-\n]+)$` matches, and None only when it matches nowhere. |
| Subtitle.TailMatchIsLast | carnaval_map/management/commands/web_scraping.py:184 | No match of the tail expression starts to the right of another, so the match `re.search` finds is the only one. |
| Subtitle.ScraperNeighborhood | carnaval_map/management/commands/web_scraping.py:184-185 | A neighbourhood exists exactly when the tail expression matches. It is then the stripped group of that match, and it holds no dash and no line break. |
| Subtitle.ParseEventSubtitle | carnaval_map/management/commands/web_scraping.py:175-191 | The page is kept exactly when the subtitle has three pieces, the first reads as a `DD/MM/YYYY` date, and the tail expression matches. The date is that of the first piece and the weekday is the second piece. The time is the first word of the third piece, and the neighbourhood is what the tail expression yields. The first piece is the canonical display text of the date. |
| Subtitle.LazyClockFrom | carnaval_map/management/commands/fill_neighborhood.py:15 | The lazy `.*? - \d{2}:\d{2}` stops at the first separator followed by a clock, without crossing a line break. |
| Subtitle.SkipSpaces | carnaval_map/management/commands/fill_neighborhood.py:15 | `\s*` consumes exactly the white space that follows. |
| Subtitle.LineEnd | carnaval_map/management/commands/fill_neighborhood.py:15 | `(.*)` stops at the first line break or the end. |
| Subtitle.RepairSearch | carnaval_map/management/commands/fill_neighborhood.py:15 | The search finds the leftmost match of the repair expression, or None when it matches nowhere. |
| Subtitle.RepairNeighborhood | carnaval_map/management/commands/fill_neighborhood.py:15-17 | A neighbourhood exists exactly when the repair expression matches somewhere. It is then the stripped group of the leftmost match, and it holds no line break. |
| Subtitle.SkipSpacesIsTrimStart | carnaval_map/management/commands/fill_neighborhood.py:15-17 | What `\s*` skips is what `lstrip` removes. |
| Subtitle.SplitWellFormed | carnaval_map/management/commands/web_scraping.py:175-177 | A subtitle built from a date, a dash-free weekday and a dash-free third part splits back into those three parts. |
| Subtitle.ScraperWellFormed | carnaval_map/management/commands/web_scraping.py:175-185 | On a well-formed subtitle the scraper reads back the date, the weekday and the time, and its neighbourhood is the whole stripped third part, time included. |
| Subtitle.RepairWellFormed | carnaval_map/management/commands/fill_neighborhood.py:15-17 | On a well-formed subtitle the repair command extracts the stripped place, without the time. The example `14/02/2026 - Sábado - 15:00 Copacabana` gives `Copacabana`. |
| Subtitle.ScraperKeepsTime | carnaval_map/management/commands/web_scraping.py:184-185 | On a well-formed subtitle the scraper's neighbourhood begins with the `HH:MM` time. |
| Subtitle.DashInThirdPartDropped | carnaval_map/management/commands/web_scraping.py:184-191 | A dash after the first character of the third part leaves the tail expression without a match, so the page is dropped. |
| Subtitle.DashBlocksTail | carnaval_map/management/commands/web_scraping.py:184 | No match of the tail expression starts three or more characters before a dash. |
| Discovery.NonEmptyValues | carnaval_map/management/commands/web_scraping.py:39 | The kept option values are exactly the non-empty ones. |
| Discovery.NonEmptyValuesInOrder | carnaval_map/management/commands/web_scraping.py:39 | The values keep page order: each non-empty value stays in place between those before and after it. |
| Discovery.CitiesUrls | carnaval_map/management/commands/web_scraping.py:33-46 | A page with a city selector gives its non-empty option values in page order, followed by the root URL. Any failure gives `[]`. |
| Discovery.FirstContaining | carnaval_map/management/commands/web_scraping.py:54-59 | The index found is the first href containing the text; None means no href contains it. |
| Discovery.FullPageUrl | carnaval_map/management/commands/web_scraping.py:49-63 | The "view all" URL is a `btn` href containing the city URL, and no earlier href contains it. It is None on a failed request or when no href contains it. |
| Discovery.EventLinks | carnaval_map/management/commands/web_scraping.py:83-87 | The kept card hrefs are exactly those containing `programacao/`. |
| Discovery.EventLinksInOrder | carnaval_map/management/commands/web_scraping.py:83-87 | The card hrefs with `programacao/` are kept in card order, repeats included. |
| Discovery.Listing | carnaval_map/management/commands/web_scraping.py:74-93 | Every link of the listing contains `programacao/`. |
| Discovery.CityEventsLinks | carnaval_map/management/commands/web_scraping.py:66-95 | The pagination loop returns the listing of the city: `[]` without a "view all" URL, otherwise the pages from `paged=1` on. |
| Discovery.FirstStop | carnaval_map/management/commands/web_scraping.py:79-90 | The loop stops at the first page that fails or lists no event link. |
| Discovery.ListingIsPagesBefore | carnaval_map/management/commands/web_scraping.py:71-95 | The listing is the concatenation of the event links of every page before the first stopping page. |
| Discovery.ListingIndependentOfBound | carnaval_map/management/commands/web_scraping.py:74 | The listing does not depend on which stopping page serves as the termination bound. |
| Discovery.PrependTwice | carnaval_map/management/commands/web_scraping.py:92 | Extending twice is extending once by both lists. |
| Discovery.CitySlug | carnaval_map/management/commands/web_scraping.py:107-108 | The slug is the second-to-last `/` piece, or `sao-paulo` when that piece contains `www`. It is None when the URL has no second-to-last piece (the `IndexError`). |
| Discovery.CityUrlSlug | carnaval_map/management/commands/web_scraping.py:107-108 | A city URL `<prefix>/<tag>/` gets `tag`, or `sao-paulo` when the tag contains `www`. |
| Discovery.BaseUrlSlug | carnaval_map/management/commands/web_scraping.py:39 | The root URL, appended last to the city list, gets `sao-paulo`. |
| Discovery.WithCity | carnaval_map/management/commands/web_scraping.py:114 | Each link is paired with its city, in order. |
| Discovery.Unknown | carnaval_map/management/commands/web_scraping.py:112 | The new links are exactly the discovered links not already stored. |
| Discovery.UnknownInOrder | carnaval_map/management/commands/web_scraping.py:112 | The new links keep the order in which they were found. |
| Discovery.NewEventsMembers | carnaval_map/management/commands/web_scraping.py:103-114 | The events found are exactly the discovered links not already stored, each paired with its city's slug. |
| Discovery.NewEventsOfOneUrl | carnaval_map/management/commands/web_scraping.py:103-114 | One city URL gives its new links paired with its slug. A URL without a slug raises `IndexError`, and a failed fetch passes its exception on. |
| Discovery.NewEventsConcat | carnaval_map/management/commands/web_scraping.py:103-114 | The city URLs are visited in order: the events of `a + b` are those of `a` followed by those of `b`, and an exception in `a` ends the run. |
| Discovery.GetEventsLinks | carnaval_map/management/commands/web_scraping.py:98-122 | The loop over the city URLs returns the new events, or None when there are none. |
| Scrape.ScrapeEvent | carnaval_map/management/commands/web_scraping.py:132-191 | A record exists exactly when the page was read and its subtitle parses. It then has the page fields, with the ticket and address texts stripped, and the parsed date, weekday, time and neighbourhood, with `processed` false. |
| Scrape.ScrapeWellFormed | carnaval_map/management/commands/web_scraping.py:175-187 | A page with a well-formed subtitle is kept with its date, weekday and time, and with the whole stripped third part as neighbourhood. |
| Scrape.SomesMembers | carnaval_map/management/commands/web_scraping.py:206-208 | A record is saved exactly when some fetch returned it. |
| Scrape.SomesConcat | carnaval_map/management/commands/web_scraping.py:206-208 | The records saved for two runs of links are those of the first run followed by those of the second. |
| Scrape.SomesAround | carnaval_map/management/commands/web_scraping.py:206-208 | A fetch between two runs of links adds its record once, in link order, exactly when it returned one. |
| Scrape.ScrapedRecordsMembers | carnaval_map/management/commands/web_scraping.py:194-219 | Every saved record is new and comes from one link of the table, and every page that parses is saved. |
| Scrape.AppendKeepsConsistent | carnaval_map/management/commands/web_scraping.py:207-208 | Adding RawBlocos keeps the tables consistent. |
| Scrape.SaveResults | carnaval_map/management/commands/web_scraping.py:202-217 | The saving loop appends the present results to the RawBloco table and leaves the other tables alone. |
| Scrape.ProcessLinks | carnaval_map/management/commands/web_scraping.py:194-219 | The RawBloco table grows by the scraped records in link order; the database stays consistent. |
| Finalize.Finalized | carnaval_map/management/commands/web_scraping.py:262-288 | The created Bloco points at its RawBloco, and its coordinates are both present (those found) or both null. |
| Finalize.FinalizedCopies | carnaval_map/management/commands/web_scraping.py:271-288 | Every descriptive field is copied from the RawBloco. The two `__str__` texts differ only by the `[RAW] ` prefix, and the width limits are kept. |
| Finalize.NewBlocosMadeFrom | carnaval_map/management/commands/web_scraping.py:250-288 | Each new Bloco is made from an unprocessed RawBloco with that RawBloco's own geocoded coordinates. |
| Finalize.NewBlocosIncreasing | carnaval_map/management/commands/web_scraping.py:250 | New Blocos follow table order, one per RawBloco. |
| Finalize.NewBlocosCover | carnaval_map/management/commands/web_scraping.py:241 | Every unprocessed RawBloco gets a Bloco. |
| Finalize.MarkAll | carnaval_map/management/commands/web_scraping.py:291-292 | Every RawBloco ends up processed, with nothing else changed. |
| Finalize.NothingPending | carnaval_map/management/commands/web_scraping.py:241-245 | With no unprocessed RawBloco the pass creates nothing and changes nothing, and after a pass nothing is pending. |
| Finalize.AppendBlocos | carnaval_map/models.py:31-33 | Appending Blocos that point at other processed RawBlocos keeps `raw_data` one-to-one and the tables consistent. |
| Finalize.FinalizeKeepsConsistent | carnaval_map/management/commands/web_scraping.py:249-292 | After the pass the tables are still consistent. |
| Finalize.FinalizeRows | carnaval_map/management/commands/web_scraping.py:250-292 | The loop builds exactly the new Blocos and the marked RawBloco table. |
| Finalize.FinalizeAll | carnaval_map/management/commands/web_scraping.py:249-292 | The Bloco table grows by one Bloco per unprocessed RawBloco, in table order (the queryset is taken in that order); every RawBloco is marked; the cities are untouched. |
| Finalize.ProcessAddresses | carnaval_map/management/commands/web_scraping.py:239-296 | The whole pass with the Google geocoder: the same effect, with each address queried as `Brasil, <city>, <address>`. |
| Geocoding.GeocodeQuery | web_scraping/get_coords.py:65-66 | The query is `Brasil, ` + the city with each dash turned into a space + `, ` + the address. |
| Geocoding.GeocodeQueryCity | web_scraping/get_coords_geocode.py:24-25 | The slug of a query is recovered by turning its spaces back into dashes when the slug has no spaces. A slug with a dash gives a query that differs from the plain concatenation. |
| Geocoding.GoogleCoordinates | web_scraping/get_coords.py:16-30 | The coordinates are the first result's, and None on an empty result or an exception. |
| Geocoding.NominatimCoordinates | web_scraping/get_coords_geocode.py:9-16 | The coordinates are the location's; None when there is no location or on a time-out; any other exception escapes. |
| Geocoding.Located | web_scraping/get_coords.py:70-77 | A row's coordinates are both present or both null, and present exactly when the geocoder found some. |
| Geocoding.NewAddresses | web_scraping/get_coords.py:45-53 | The new rows are exactly the rows whose address is not in the output file. |
| Geocoding.NewAddressesInOrder | web_scraping/get_coords.py:53 | The new rows keep input order, duplicates included. |
| Geocoding.ProcessAddressesCsv | web_scraping/get_coords.py:32-89 | The loop writes the table `AddressesTable` describes, or nothing when no row is new. |
| Geocoding.AddressesTableContents | web_scraping/get_coords.py:45-87 | The previous rows come first, unchanged. Every input row with a new address appears in the output. Nothing is written exactly when every address was processed before. |
| Geocoding.AddressesTableLayout | web_scraping/get_coords.py:55-87 | The written table is the previous rows followed by the geocoded new rows, in input order and nothing else. |
| Geocoding.AddressesTableNewRows | web_scraping/get_coords.py:61-83 | Every appended row has an address not processed before, and has both coordinates or neither. |
| Geocoding.GoogleLocated | web_scraping/get_coords.py:64-83 | One row per new row, in order. Each row keeps its input row and gets the coordinates of its own query, or none when the reply has none. |
| Geocoding.AddressesTableSettles | web_scraping/get_coords.py:45-57 | Running the script again on its own output writes nothing. |
| Geocoding.NominatimTable | web_scraping/get_coords_geocode.py:19-41 | The table has one row per input row, or the error escapes. |
| Geocoding.NominatimTableContents | web_scraping/get_coords_geocode.py:20-39 | The table is written exactly when no query raises an unhandled error. The i-th row is the i-th input with its own paired coordinates. |
| Geocoding.ProcessDf | web_scraping/get_coords_geocode.py:19-41 | The loop writes the table `NominatimTable` describes. |
| Centers.DistinctCities | carnaval_map/management/commands/web_scraping.py:302 | The distinct cities are each Bloco city once. |
| Centers.Values | carnaval_map/management/commands/web_scraping.py:307-318 | The values aggregated for a city and axis are exactly that city's non-null coordinates on that axis. |
| Centers.MinOf | carnaval_map/management/commands/web_scraping.py:307-309 | `Min` is the least value, None over no value. |
| Centers.MaxOf | carnaval_map/management/commands/web_scraping.py:310-312 | `Max` is the greatest value, None over no value. |
| Centers.CenterInBox | carnaval_map/management/commands/web_scraping.py:320-325 | The centre is the midpoint of each axis and lies between that axis's minimum and maximum. |
| Centers.CenterDefined | carnaval_map/management/commands/web_scraping.py:320-322 | A city is skipped exactly when none of its Blocos has coordinates. |
| Centers.FindCity | carnaval_map/management/commands/web_scraping.py:327-330 | The row found has the name; None means no row has it. |
| Centers.Upsert | carnaval_map/management/commands/web_scraping.py:327-330 | After the upsert the named row holds the new averages, and other rows are unchanged. `created` holds exactly when no row had the name, and names stay unique. |
| Centers.UpdatedCitiesFacts | carnaval_map/management/commands/web_scraping.py:304-330 | After the loop every listed city with a centre has it stored, and names stay unique. Every row is either the old row in its place or a listed city holding its own centre, so no other row is added or changed. |
| Centers.UpdatedCitiesFixed | carnaval_map/management/commands/web_scraping.py:304-330 | When every listed city already holds its centre, the loop changes nothing. |
| Centers.UpdatedCitiesIdempotent | carnaval_map/management/commands/web_scraping.py:299-335 | Re-running over unchanged Blocos leaves the City table as the first run left it. |
| Centers.UpsertCenters | carnaval_map/management/commands/web_scraping.py:304-330 | The per-city loop gives the table `UpdatedCities` describes, touching only the City table. |
| Centers.UpdateCityCoordinates | carnaval_map/management/commands/web_scraping.py:299-335 | The whole recompute over the distinct Bloco cities, with their own centres. |
| Repair.Extracted | carnaval_map/management/commands/fill_neighborhood.py:9-17 | A null or empty subtitle gives nothing. Any other subtitle gives exactly what the repair expression yields. |
| Repair.ExtractedReadsSubtitle | carnaval_map/management/commands/fill_neighborhood.py:15 | The extraction does not depend on the current neighbourhood. |
| Repair.Repaired | carnaval_map/management/commands/fill_neighborhood.py:16-22 | Only the neighbourhood changes, and only when something is extracted. |
| Repair.ChangesIff | carnaval_map/management/commands/fill_neighborhood.py:20-22 | A Bloco is saved exactly when the extracted value differs from its neighbourhood. |
| Repair.RepairedIdempotent | carnaval_map/management/commands/fill_neighborhood.py:13-23 | Repairing a repaired Bloco changes nothing. |
| Repair.RepairAll | carnaval_map/management/commands/fill_neighborhood.py:13-23 | Each Bloco of the table is repaired in place. |
| Repair.ChangedCountIsSaved | carnaval_map/management/commands/fill_neighborhood.py:11-23 | The count is the number of Blocos saved. |
| Repair.ChangedAtDiffers | carnaval_map/management/commands/fill_neighborhood.py:20-23 | The saved positions are exactly those where the table differs afterwards. |
| Repair.ChangedCountStep | carnaval_map/management/commands/fill_neighborhood.py:23 | The counter goes up by one exactly for a Bloco that changes. |
| Repair.NoChangesCountZero | carnaval_map/management/commands/fill_neighborhood.py:25 | A table the command leaves unchanged reports 0. |
| Repair.RepairAllIdempotent | carnaval_map/management/commands/fill_neighborhood.py:13-25 | A second run changes nothing and reports 0. |
| Repair.RepairKeepsConsistent | carnaval_map/management/commands/fill_neighborhood.py:21-22 | Changing neighbourhoods keeps the tables consistent. |
| Repair.RepairRows | carnaval_map/management/commands/fill_neighborhood.py:11-23 | The loop gives the repaired table and the number of Blocos it changed. |
| Repair.RepairLoop | carnaval_map/management/commands/fill_neighborhood.py:8-25 | Only the Bloco table changes, to the repaired one, and the count returned is the number of Blocos changed. |
| Repair.FillNeighborhood | carnaval_map/management/commands/fill_neighborhood.py:8-25 | The command with its own extraction. |
| Repair.ScraperAndRepairDiffer | carnaval_map/management/commands/fill_neighborhood.py:15-17 | On a well-formed subtitle the scraper stores `HH:MM place` and the repair turns it into `place`. |
| Views.ChronologicalIsStrictTotal | carnaval_map/views.py:34 | Sorting dates chronologically is sorting by a strict total order. |
| Views.StrLessIsStrictTotal | carnaval_map/views.py:86 | Sorting neighbourhoods is sorting by a strict total order. |
| Views.OptionsMembers | carnaval_map/views.py:35-37 | The formatted pairs are exactly the `(YYYY-MM-DD, DD/MM/YYYY)` texts of the dates. |
| Views.DateFacetMembers | carnaval_map/views.py:33-37 | The date facet holds one pair for every date and nothing else. |
| Views.DateFacetOrdered | carnaval_map/views.py:34-37 | The facet's dates are strictly ascending, and both texts of a pair name the same date. |
| Views.NeighborhoodFacetCorrect | carnaval_map/views.py:86 | The neighbourhood facet is strictly ascending and holds exactly the neighbourhoods of the Blocos. |
| Views.EventDates | carnaval_map/views.py:33 | The dates of the Blocos in order, or None when one Bloco has no date. |
| Views.DatesOf | carnaval_map/views.py:33-37 | A null date raises: `TypeError` when another Bloco has a date, `AttributeError` when none does. Otherwise the facet holds exactly the Blocos' dates, ascending. |
| Views.CityLabel | carnaval_map/views.py:31 | The label replaces each dash by a space and title-cases the letters. |
| Views.MapCities | carnaval_map/views.py:30-31 | Each city of the Blocos gets exactly one pair `(slug, label)`. |
| Views.MapDates | carnaval_map/views.py:33-37 | The page's date choices fail exactly when a Bloco has no date. |
| Views.Selected | carnaval_map/views.py:56-63 | The selected Blocos are exactly those passing every non-empty filter, and none is added. |
| Views.SelectedInOrder | carnaval_map/views.py:56-63 | The queryset keeps table order: a Bloco between two stretches of the table is listed once, after the selected Blocos before it and ahead of those after it, exactly when it passes every filter. |
| Views.NoFilterSelectsAll | carnaval_map/views.py:56 | With no filter every Bloco is selected, in order. |
| Views.FilterBlocos | carnaval_map/views.py:60-61 | A date parameter that is not a date gives `ValidationError`. |
| Views.FilterBlocosCorrect | carnaval_map/views.py:51-86 | The endpoint answers exactly when the date parameter is empty or a date and no selected Bloco lacks a date. Its Blocos are exactly the selected ones in table order, its dates are their distinct dates ascending and labelled, and its neighbourhoods are theirs, sorted and distinct. A filter matching nothing gives three empty lists. |
| Views.DateFilterAnswers | carnaval_map/views.py:60-61 | A date filter always answers, and its date facet names only that date. |
| Views.UnfilteredMatchesPage | carnaval_map/views.py:33-37 | Without filters the endpoint offers every Bloco and the same dates as the page. |
| Standalone.ScriptCitiesUrls | web_scraping/get_data.py:15-23 | A non-200 root gives `[]`. A missing selector escapes; otherwise the result is the command's city list. |
| Standalone.ScriptFullPageUrl | web_scraping/get_data.py:26-34 | A non-200 answer gives None; a request exception escapes; otherwise the result is the command's "view all" URL. |
| Standalone.ScriptSlug | web_scraping/get_data.py:71 | Any URL containing `www` gets `sao-paulo`. |
| Standalone.ScriptSlugAgrees | web_scraping/get_data.py:71 | On a URL without `www` the script and the command give the same slug. |
| Standalone.WwwCityUrlsCollapse | web_scraping/get_data.py:71 | Every city URL on the `www` host gets `sao-paulo` from the script, where the command gives its own slug. |
| Standalone.RioDeJaneiroIsSaoPaulo | web_scraping/get_data.py:71 | The Rio de Janeiro city page is filed under `sao-paulo`. |
| Standalone.DedupCorrect | web_scraping/get_data.py:80 | `drop_duplicates` keeps rows with distinct keys, all from the table, including the first row of every key. |
| Standalone.DedupMerge | web_scraping/get_data.py:78-80 | Deduplicating `existing + new` keeps the existing rows first and adds only the new rows with unseen keys. |
| Standalone.ScriptCityListing | web_scraping/get_data.py:26-62 | The script's listing of a city: a request exception on the city page escapes; otherwise it equals the command's listing, the paging loop being the same. |
| Standalone.CityPageRaisedDiffers | web_scraping/get_data.py:27 | When the city page raises, the script fails where the command lists nothing for that city. |
| Standalone.UpdateEventLinks | web_scraping/get_data.py:65-82 | The loop over the cities writes the table `WrittenLinks` describes. |
| Standalone.FileName | web_scraping/get_data.py:89 | The file name exists exactly when the URL has a second-to-last `/` piece. |
| Standalone.FetchEventPage | web_scraping/get_data.py:85-103 | Stored pages are never changed. The page is added under its own file name exactly when that name can be formed, no such file exists, and the download succeeds; otherwise nothing changes. |
| Standalone.FetchEventPageIdempotent | web_scraping/get_data.py:92-93 | Once a page is stored, fetching it again changes nothing. |
| Standalone.EventPageLinkRoundTrip | web_scraping/get_data.py:129 | The link rebuilt from the file name of an event page is the page's URL without its trailing `/`. |
| Standalone.CollectRowsMembers | web_scraping/get_data.py:125-148 | Every row comes from an `.html` file whose link is not yet processed, and every such file gives its row. |
| Standalone.CollectRowsConcat | web_scraping/get_data.py:125-148 | Files are read in order: the rows of `a + b` are those of `a` followed by those of `b`, and a file that fails to parse ends the run. |
| Standalone.CollectRowsOfOneFile | web_scraping/get_data.py:128-147 | One file gives one row, built from its fields, exactly when it is an unprocessed `.html` file that parses. Other files give none, and an unparsable one raises. |
| Standalone.MaxPieces | web_scraping/get_data.py:154 | The number of columns of the split is the largest piece count of any subtitle. |
| Standalone.BatchSplit | web_scraping/get_data.py:154-155 | The three-column assignment succeeds exactly when the largest piece count is three. Each row then gets its own split. |
| Standalone.SplitRowAgrees | web_scraping/get_data.py:154-155 | For a subtitle the command accepts, the script keeps the same weekday and time, and the date as the original `DD/MM/YYYY` text. |
| Standalone.ProcessEventPages | web_scraping/get_data.py:117-161 | The loop over the page files writes the table `ProcessedTable` describes: nothing with no new file, else the split rows merged after the existing ones. |

## Left out

- HTTP requests, status codes, time-outs and BeautifulSoup lookups are inputs. A page's fields, or the fact that a request or lookup raised, are given as values (`Fetched`, `PageFields`). An answer is classified as the code at hand reads it. Where the code compares the status with 200, `Page` is status 200. Where it calls `raise_for_status`, `Page` is any status below 400 and `HttpError` a 4xx or 5xx answer. The status code itself is not modelled.
- The Google Maps and Nominatim clients are input functions from query text to reply.
- The thread pools of `process_links` and `fetch_and_save_event_pages` are modelled as sequential loops. Scrape.ProcessLinks saves in link order, where `as_completed` saves in completion order.
- Delays (`time.sleep`), `print`, `tqdm` and the `stdout` report of `fill_neighborhood` are left out. The count the report prints is returned.
- The Django ORM, `transaction.atomic`, and pandas, CSV and filesystem I/O are not modelled as such. The tables are sequences in `Models.Database`, files are values, and a pass assigns its table once. So Finalize.FinalizeAll is all-or-nothing, as the atomic block makes it.
- Querysets without `order_by` (`RawBloco.objects.filter(processed=False)` in `process_addresses`, the Bloco cities in `update_city_coordinates`) are taken in table order, which the database does not promise. Finalize.NewBlocosIncreasing and Centers.DistinctCities state that order.
- Finalize.FinalizeAll and Repair.RepairLoop compute the new table in a loop over values and then assign it. They do not save row by row.
- The `scraped_at` and `processed_at` timestamps are left out (clock).
- Coordinates are `real`: floating-point rounding of the midpoint is not modelled. `City.__str__` is left out because it prints floats.
- Dates.ParseDayMonthYear: accepts only two-digit day and month and four-digit year. `strptime` also accepts one-digit fields.
- Dates.ParseIso: accepts only `YYYY-MM-DD`. Django's date lookup may accept other spellings.
- Text.TitleFrom: `title()` is restricted to ASCII letters. Non-ASCII letters count as non-letters.
- Subtitle.RepairNeighborhood: `\d` and `\s` are ASCII digits and Python's white space. Unicode digits are not matched.
- The widths of `models.py` are predicates (`Models.RawBlocoFits` and the like) that nothing enforces. The database does not reject over-long values.
- Discovery.CityEventsLinks: requires that some page stops the listing. The source loops forever otherwise, which a terminating model cannot express.
- Scrape.SaveResults: the `except` around `save` in `process_links` is not modelled, because saving cannot fail in the model.
- `Command.handle` of `web_scraping`, and the `__main__` blocks, are orchestration only. This includes `web_scraping/get_coords.py:94` passing a DataFrame where a path is expected.
- `fetch_and_save_event_pages` is only its per-URL step, Standalone.FetchEventPage.
- The script's paging loop (`web_scraping/get_data.py:42-62`) is the same loop as Discovery.CityEventsLinks. Its `get_city_events_links` differs only in the city page, as Standalone.ScriptCityListing states. The `links` input of Standalone.UpdateEventLinks is, for each city URL, that listing of the URL's answers. It stays a parameter because the listing needs a page that stops it (the termination requirement of Discovery.CityEventsLinks).
- Standalone.CollectRows: the files are taken in the order given. `os.listdir` lists them in an arbitrary order.
- Views.MapCities: a set, as `cities_ids` is. Its iteration order is not modelled.
- Views.FilterBlocos: the JSON projection of each Bloco to a subset of its fields is not modelled. The whole Bloco is returned.
- The `blocos` and `cities_coords` lists of the map page are plain projections and are left out.
- `carnaval_map/static/carnaval_map/script.js`, `carnaval_map/urls.py` and the migrations are not part of this model.

## Findings

| source | as written | input that shows it | evidently intended | confidence | as-written member | corrected member |
|---|---|---|---|---|---|---|
| web_scraping/get_data.py:71 | The city is `sao-paulo` whenever the whole URL contains `www`, and every city page lives on `www.blocosderua.com`. | `https://www.blocosderua.com/rio-de-janeiro/` is filed under `sao-paulo`. | The second-to-last `/` piece, with `sao-paulo` only when that piece contains `www` (the root URL), as `carnaval_map/management/commands/web_scraping.py:107-108` does. | not executed | Standalone.RioDeJaneiroIsSaoPaulo | Discovery.CityUrlSlug |
