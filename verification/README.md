# FreeFit club scraper — a Dafny model

This project models the scraper that builds a local store of the gyms listed
on freefit.co.il (`backend/freefit_scraper.py`). A run does the following:

1. Load the JSON store of clubs.
2. Ask the site's search endpoint for the clubs of every area, in order.
3. Go through the concatenated list. Each club passes a 24-hour freshness
   gate, then its detail page is fetched and decoded into a `Club`.
4. Upsert the club into the store under `str(Id)` and save the store after
   every success.

A club whose page cannot be decoded is skipped, and nothing is ever removed.

The model is functional. Everything the program gets from outside comes in
as a function-typed oracle in a `World`:

- `search`: the area search endpoint;
- `fetch`: the detail page, as an already-parsed record;
- `lookup`: the place-search service used as a geocoding fallback;
- `parseNum`: Python's `float()` on a coordinate token.

The clock is a parameter `now`, read once per run. Python's exceptions
become `Result`/`Option` values with one constructor per failure the model
covers. The inputs it does not cover are listed under "## Left out".

Modules, in dependency order:

- `Wrappers`: `Option` and `Result`.
- `Text`: Python's `str.split` on one character (empty pieces kept, always
  at least one piece), `sep.join`, `str.replace(c, "")` and `str(int)`,
  with their round-trip lemmas.
- `LabelValue`: `format_bsf_object`. It drops empty child texts and returns
  the first text as the label and the rest, joined by newlines, as the
  value. With no non-empty child it fails: `s[0]` on an empty list.
- `Discovery`: `get_all_clubs` after the HTTP call, and the concatenation
  over all areas.
- `Geocode`: `find_address_in_google`. It is an ordered list of three
  strategies that stops at the first reply with a candidate. It is proved
  equal to a branch-by-branch transcription of the source.
- `ClubPage`: `parse_club` after the fetch. It covers:
  - the structural checks, in source order;
  - the fixed table from block index to field (blocks 2, 3, 6, 8 and 11
    onward);
  - the map-link coordinates, with the geocoder as fallback;
  - the `Club` model's rejection of a half-null coordinate pair.
- `Crawl`: the freshness-gated upsert loop of `scrape`.
  - It is a fold over the discovered refs. It is generic in the per-club
    decoder, and `parse_club` is an instance of it.
  - It also models the snapshots written after each update, the load of the
    store file and the whole run.

## Model

| member | source | states |
|---|---|---|
| LabelValue.NonEmptyTexts | backend/freefit_scraper.py:27-34 | the kept texts are all non-empty and no more numerous than the child nodes |
| LabelValue.NonEmptyTextsExist | backend/freefit_scraper.py:28-34 | some text is kept if and only if some child node has non-empty text |
| LabelValue.NonEmptyTextsKeepsAll | backend/freefit_scraper.py:28-34 | when no child is empty, every child's text is kept, in order |
| LabelValue.NonEmptyTextsIgnoresEmpty | backend/freefit_scraper.py:32-33 | inserting an empty child anywhere does not change what is kept |
| LabelValue.FormatBsfObject | backend/freefit_scraper.py:26-35 | decoding succeeds exactly when some child is non-empty; the label is the first non-empty text and is itself non-empty; the value is empty exactly when only the label survived |
| LabelValue.ValueLines | backend/freefit_scraper.py:35 | when no child spans lines, splitting the value on newlines gives back the texts after the label |
| LabelValue.DecodeRoundTrip | backend/freefit_scraper.py:26-35 | a block made of a label node and one-line value nodes decodes to that label and those lines |
| Text.Split | backend/freefit_scraper.py:222-223 | `str.split` yields at least one piece and no piece holds the separator |
| Text.RemoveAll | backend/freefit_scraper.py:223 | `replace(c, "")` leaves no `c`, shortens the string by the number of occurrences of `c`, and adds no character |
| Text.SplitCount | backend/freefit_scraper.py:222-223 | there is one more piece than occurrences of the separator |
| Text.JoinSplit | backend/freefit_scraper.py:222-223 | joining the pieces of a split with the separator restores the string |
| Text.SplitJoin | backend/freefit_scraper.py:222-223 | splitting a join of separator-free pieces restores the pieces |
| Text.SplitInTwo | backend/freefit_scraper.py:223 | a string splits into at least two pieces if and only if it holds the separator |
| Text.IntToStringRoundTrip | backend/freefit_scraper.py:293 | `int(str(i)) == i` for every integer, negative ones included |
| Text.IntToStringInjective | backend/freefit_scraper.py:293 | distinct ids get distinct store keys, and equal keys mean equal ids |
| Discovery.RequestFor | backend/freefit_scraper.py:54-64 | the search body carries the area and the fixed company 0, subcategory "-1" and empty free text and company name |
| Discovery.ValidateAll | backend/freefit_scraper.py:92 | the items validate exactly when each is an object with an int id and a string name; the refs then match the items one for one, in order; otherwise the first invalid item decides the error: a type error for a non-object, a validation error for an object |
| Discovery.Discover | backend/freefit_scraper.py:72-92 | a bad status is a network error, a non-JSON body a decode error, a body that is not an object an attribute error, and a missing or null "d" an invalid format; a number or boolean "d" is a type error; an empty list, string or object is no clubs, and a non-empty string or object a type error; a list decodes item by item as `ValidateAll` states; any non-empty answer comes from a list |
| Discovery.DiscoverEnvelopeOf | backend/freefit_scraper.py:81-92 | decoding the envelope that lists some refs gives back exactly those refs |
| Discovery.DiscoverAreas | backend/freefit_scraper.py:282-287 | the run's list exists if and only if discovery succeeds for every area; otherwise the error is that of the first area whose discovery fails |
| Discovery.DiscoverAreasAppend | backend/freefit_scraper.py:283-287 | the list for `a + b` is the list for `a` followed by the list for `b` |
| Discovery.DiscoverAreasKeepsAll | backend/freefit_scraper.py:283-287 | every ref found for any area is in the run's list |
| Discovery.DuplicatesAreKept | backend/freefit_scraper.py:282-287 | a club listed under two areas appears twice in the list, with no de-duplication |
| Geocode.GeoRequestFor | backend/freefit_scraper.py:114-121 | each geocoding request carries the query, "textquery", the four fields, the 50 km bias around Jerusalem and language "iw" |
| Geocode.Strategies | backend/freefit_scraper.py:112-153 | three queries in order: title, address and country hint (only the address and hint when the title is falsy); then address and hint; then the fixed last-resort query. Only the first checks the HTTP status |
| Geocode.OutcomeOf | backend/freefit_scraper.py:127-150 | an attempt aborts on a transport error, or on a bad status when it checks the status; it hits with the first candidate when there is one and misses on an empty candidate list |
| Geocode.FirstHit | backend/freefit_scraper.py:138-163 | the answer is the candidate of the first hit when every earlier attempt missed; there is no answer when an abort comes before any hit |
| Geocode.SentIsMissingPrefix | backend/freefit_scraper.py:138-160 | the queries sent are a prefix of the strategies, every one but the last missed, and the chain stops at the first attempt that does not miss |
| Geocode.Locate | backend/freefit_scraper.py:166-168 | a candidate without geometry gives no answer; otherwise its lat and lng, either possibly missing |
| Geocode.FindAddress | backend/freefit_scraper.py:108-173 | the first attempt that hits after misses only gives the answer, which is that candidate's location; an answer only ever comes from such a hit; three misses or an abort of the first attempt give no answer |
| Geocode.FindAddressMatchesSource | backend/freefit_scraper.py:112-173 | the strategy formulation equals the nested transcription of the source on every input and every service |
| Geocode.AtMostThreeQueries | backend/freefit_scraper.py:127-160 | one to three queries go out, starting with the first strategy, and a first hit sends nothing more |
| Geocode.FalsyTitleRepeatsQuery | backend/freefit_scraper.py:112-147 | with a falsy title, a first miss sends the very same query a second time |
| ClubPage.DetailUrlInjective | backend/freefit_scraper.py:178-180 | two clubs share a detail page URL if and only if they have the same id |
| ClubPage.Field | backend/freefit_scraper.py:216-218 | a field is the value part of its block, or the error naming that block when it has no non-empty child |
| ClubPage.Values | backend/freefit_scraper.py:231 | the values exist exactly when every block decodes; they are the blocks' value parts in order; a failure names an undecodable block |
| ClubPage.Tags | backend/freefit_scraper.py:231 | the tags exist exactly when blocks 11 onward all decode; there are len − 11 of them, tag `i − 11` being the value of block `i` |
| ClubPage.MapLinkTokens | backend/freefit_scraper.py:222-223 | tokens exist if and only if the href has a seventh segment whose `@`-free text holds a comma; neither token holds '/', '@' or ',' |
| ClubPage.MapLinkRoundTrip | backend/freefit_scraper.py:222-223 | a link whose seventh segment is '@' and comma-joined tokens yields its first two tokens |
| ClubPage.ExampleMapLink | backend/freefit_scraper.py:222-223 | the sample map link yields "31.771" and "35.214", and the zoom token is ignored |
| ClubPage.ExampleMapBlock | backend/freefit_scraper.py:221-224 | the detail block whose anchor holds the sample map link resolves to (31.771, 35.214) when `float` reads the two tokens as those numbers |
| ClubPage.PrimaryCoordinates | backend/freefit_scraper.py:221-224 | an anchor with an href, two tokens and both tokens read by `float` give exactly the pair of those two numbers; any missing step gives no primary pair |
| ClubPage.ResolveCoordinates | backend/freefit_scraper.py:221-229 | the primary pair when the map link yields one, and otherwise exactly the geocoder's answer for the address and title; a half-missing pair can only come from the geocoder |
| ClubPage.PrimaryNeedsNoLookup | backend/freefit_scraper.py:221-227 | when the map link yields coordinates, the geocoder is never consulted |
| ClubPage.MalformedLinkFallsBack | backend/freefit_scraper.py:221-227 | with no anchor, no href or too few segments, the result is the geocoder's answer for the address and title |
| ClubPage.ValidateLatLng | backend/freefit_scraper.py:233-243 | the `Club` model rejects a pair with a null part and keeps a full pair or no pair |
| ClubPage.ParseClub | backend/freefit_scraper.py:187-243 | the header, title, logo and logo src checks fail with their own errors in source order; a decoded club has the requested id, the page's title, about text and logo URL, the phone, address and website of blocks 2, 3 and 6, and len − 11 tags from blocks 11 onward |
| ClubPage.DecodeDetails | backend/freefit_scraper.py:215-243 | the fields of a decoded club are the value parts of their fixed blocks |
| ClubPage.ParseClubSucceeds | backend/freefit_scraper.py:187-243 | conversely, a page with every anchor, a logo src, decodable field and tag blocks and a well-formed coordinate answer always decodes |
| ClubPage.ParseClubCoordinates | backend/freefit_scraper.py:220-229 | a decoded club's coordinates are the map link's when it yields them; otherwise they are the geocoder's answer, or none when it has none |
| Crawl.ProcessClub | backend/freefit_scraper.py:176-181 | a club comes back with the requested id and stamped with the run's time; a failed fetch is a fetch error |
| Crawl.ProcessClubDecodesPage | backend/freefit_scraper.py:176-186 | a fetched page yields exactly the club `parse_club` decodes from it, or that decoding's error |
| Crawl.DecoderOfStamps | backend/freefit_scraper.py:305-306 | `parse_club` stamps each club with its id and the current time |
| Crawl.Step | backend/freefit_scraper.py:292-311 | one iteration adds the club's key exactly when it decodes, changes no other key, does nothing to a fresh or failing club, and otherwise stores the decoded club |
| Crawl.CrawlKeys | backend/freefit_scraper.py:292-311 | the final keys are the loaded keys plus the key of every discovered club that decodes |
| Crawl.CrawlKeepsKeys | backend/freefit_scraper.py:313 | no key is ever removed |
| Crawl.CrawlUntouched | backend/freefit_scraper.py:313 | a key that no discovered club maps to keeps its entry, or stays absent |
| Crawl.CrawlValues | backend/freefit_scraper.py:305-306 | every entry is either as loaded or the decoded club of a discovered ref with that key |
| Crawl.CrawlWellKeyed | backend/freefit_scraper.py:293-306 | every club stored during the run sits under `str` of its own id |
| Crawl.CrawlTimestampsGrow | backend/freefit_scraper.py:297-306 | an entry's timestamp never decreases |
| Crawl.FailureIsolated | backend/freefit_scraper.py:304-311 | a club that fails to decode leaves the final store and the written snapshots as if it had not been discovered |
| Crawl.CrawlKeepsFresh | backend/freefit_scraper.py:297-301 | a fresh key stays fresh for the rest of the run |
| Crawl.DuplicateSkipped | backend/freefit_scraper.py:297-306 | after a club decodes, a later ref with the same id is gated out and changes nothing |
| Crawl.SettledCrawlIsIdentity | backend/freefit_scraper.py:297-311 | when every discovered club is fresh or failing, the crawl changes nothing, writes nothing, and fetches only failing clubs |
| Crawl.CrawlSettles | backend/freefit_scraper.py:297-311 | after a run every discovered club is fresh or failing |
| Crawl.CrawlIdempotent | backend/freefit_scraper.py:292-311 | a second run at the same instant changes nothing and writes nothing |
| Crawl.SecondRunRefetchesOnlyFailures | backend/freefit_scraper.py:297-305 | a second run at the same instant fetches only clubs that fail to decode |
| Crawl.AttemptedAreDiscovered | backend/freefit_scraper.py:292-305 | only discovered ids are ever fetched |
| Crawl.GateExamples | backend/freefit_scraper.py:297-301 | a record an hour old is kept; one twenty-five hours old is replaced by a successful decode |
| Crawl.SavesBounded | backend/freefit_scraper.py:305-307 | at most one snapshot is written per discovered club |
| Crawl.LastSaveIsFinal | backend/freefit_scraper.py:306-307 | the last snapshot written is the final store |
| Crawl.SavesBetween | backend/freefit_scraper.py:306-307 | every snapshot holds all loaded keys and only keys of the final store |
| Crawl.SettledTail | backend/freefit_scraper.py:305-307 | a crawl that writes nothing leaves the store unchanged |
| Crawl.Load | backend/freefit_scraper.py:267-277 | a missing or corrupt file is the empty store, any other read error stops the run, and otherwise the stored entries are loaded |
| Crawl.Scrape | backend/freefit_scraper.py:251-315 | the run completes if and only if the store loads and discovery succeeds for every area, and then it keeps every loaded key; an unreadable store file is reported before any discovery error, and a discovery failure reports the error of the failing area |
| Crawl.ScrapeKeys | backend/freefit_scraper.py:267-313 | after a run the keys are exactly the loaded keys plus the key of every discovered club whose page decodes |
| Crawl.RunCrawl | backend/freefit_scraper.py:292-311 | the source's `for` loop computes the fold's final store and exactly its snapshots |
| Crawl.ScrapeOneArea | backend/freefit_scraper.py:268-292 | with no store file and one area, the run crawls exactly that area's refs from the empty store |
| Crawl.EndToEndExample | backend/freefit_scraper.py:251-315 | sample run: one area lists club 101 and its page has no map link; the store gains key "101" with the geocoded coordinates |

## Left out

- HTTP: requests, sessions, headers and timeouts. Each exchange is an oracle
  reply (`SearchReply`, `FetchReply`, `GeoReply`). A transport error and a
  non-2xx status are the same failure wherever the source calls
  `raise_for_status`.
- BeautifulSoup parsing is a foreign library. A page is the record of what
  `parse_club` reads (`Page`). The `get_text()` of an element is a given
  string.
- `float()` on the coordinate tokens is floating point, so it is the oracle
  `parseNum`. Coordinates are `real`s.
- `write_clubs` and the JSON encoding are file I/O. The sequence of stores
  written is modelled (`Saves`); a failing write is not.
  - If a write raised, the in-memory store would already hold the new club
    while the file would not. The model assumes writes succeed.
- The store file's entries are reduced to their `latest_ts`: an integer,
  or absent (`FromFile(None)`, read as 0). The source does something else in
  three cases, all left out:
  - an entry whose `latest_ts` is null or a string;
  - an entry that is not an object;
  - a file whose top level is not an object.

  In the first two, lines 298-299 raise outside the `try`, which stops the
  whole run.
- Replies of `search`, `fetch` and `lookup` are a function of the request:
  within one run, a request sent again gets the same reply. The source makes
  a fresh network call each time, and the call can answer differently.
  Two places are affected:
  - With a falsy title, the second geocoding attempt repeats the first
    query (lines 112, 140). It then misses whenever the first missed, but
    the real service might answer it.
  - A duplicate ref whose first fetch failed is fetched again (lines
    297-305). That second fetch fails again in the model but could succeed.
- Logging, `load_dotenv`, the API key from the environment and the
  `processed_clubs` set serve only diagnostics.
- `time.sleep(random.uniform(1, 3))` is timing and randomness with no
  effect on the store.
- `extract_city_names`, the command line, the wrapping of a single area
  string into a list, `app.py` and the frontend are not part of this model.
- Fresh: the clock is one whole number of seconds, read once per run. The
  source compares the float `time.time()` in the gate and stamps each club
  with `int(time.time())` when it builds the club. Within one run the model
  therefore stamps every club with the same `now`.
- ParseClub: the contract does not say which error is reported when several
  detail blocks are empty. The body reads address, phone, website, the
  coordinates and then the tags, as the source does.
- Geocode.OutcomeOf: a reply whose JSON is not an object, or whose
  "candidates" is not a list, is not modelled. An absent, null or empty
  "candidates" is the empty list, since all three take the same branch.
- De-duplication across areas is not modelled because the code does none:
  it concatenates the areas' lists (backend/freefit_scraper.py:282-287).
  The model follows the code (`Discovery.DuplicatesAreKept`), and the
  freshness gate skips a later copy of a club that decoded
  (`Crawl.DuplicateSkipped`).
