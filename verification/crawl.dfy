/** The crawl (`scrape`): load the store, discover the clubs of every area,
    then for each discovered club in order apply the 24-hour freshness gate,
    fetch and decode its page, and upsert the result into the store, saving
    the whole store after every success. A failing club is skipped; nothing
    is ever removed. The outside world is a bundle of oracles and the clock
    is the parameter `now`, read once for the run. */
module Crawl {
  import opened Wrappers
  import opened Text
  import opened Discovery
  import opened Geocode
  import opened ClubPage

  /** The detail page request: a transport failure or non-2xx status, or
      the page as parsed HTML. */
  datatype FetchReply = FetchFailed | Html(page: Page)

  /** The outside world the crawl talks to. */
  datatype World = World(
    search: SearchRequest -> SearchReply,
    fetch: string -> FetchReply,
    lookup: GeoRequest -> GeoReply,
    parseNum: string -> Option<real>)

  /** Why one club was skipped; each is caught and logged by the crawl. */
  datatype ClubError = FetchError | PageError(error: ParseError)

  /** A value of the store: a club decoded during this run, or an entry read
      from the store file, of which only its "latest_ts" (if any) matters. */
  datatype Stored = FromRun(club: Club) | FromFile(latestTs: Option<int>)

  /** The store: club id as a decimal string to its record. */
  type Store = map<string, Stored>

  /** The freshness window, in seconds. */
  const FreshnessWindow: int := 86400

  /** The store key of a club id: `str(club.Id)`. */
  function Key(id: int): string
  {
    IntToString(id)
  }

  /** `clubs[key].get('latest_ts', 0)`. */
  function LastUpdate(e: Stored): int
  {
    match e
    case FromRun(c) => c.latestTs
    case FromFile(ts) => if ts.Some? then ts.value else 0
  }

  /** The freshness gate: the key is stored and was updated less than a
      window before `now`. */
  predicate Fresh(store: Store, key: string, now: int)
  {
    key in store && now - LastUpdate(store[key]) < FreshnessWindow
  }

  /** Every club decoded in this run sits under the key of its own id. */
  predicate WellKeyed(store: Store)
  {
    forall k :: k in store && store[k].FromRun? ==> k == Key(store[k].club.id)
  }

  /** `parse_club(session, id)`: fetch the club's page and decode it. */
  function ProcessClub(id: int, world: World, now: int): (r: Result<Club, ClubError>)
    ensures r.Success? ==> r.value.id == id && r.value.latestTs == now
    ensures world.fetch(DetailUrl(id)).FetchFailed? ==> r == Failure(FetchError)
  {
    match world.fetch(DetailUrl(id))
    case FetchFailed => Failure(FetchError)
    case Html(page) =>
      match ParseClub(page, id, world.lookup, world.parseNum, now)
      case Failure(e) => Failure(PageError(e))
      case Success(club) => Success(club)
  }

  /** A fetched page yields exactly the club `parse_club` decodes from it,
      or its decoding error. */
  lemma ProcessClubDecodesPage(id: int, world: World, now: int, page: Page)
    requires world.fetch(DetailUrl(id)) == Html(page)
    ensures ProcessClub(id, world, now).Success? <==> ParseClub(page, id, world.lookup, world.parseNum, now).Success?
    ensures ProcessClub(id, world, now).Success? ==>
              ProcessClub(id, world, now).value == ParseClub(page, id, world.lookup, world.parseNum, now).value
    ensures ProcessClub(id, world, now).Failure? ==>
              ProcessClub(id, world, now).error == PageError(ParseClub(page, id, world.lookup, world.parseNum, now).error)
  {
  }

  /** What the crawl loop needs of the page decoder: per club id, a club or
      the error that makes the loop skip it. */
  type Decoder = int -> Result<Club, ClubError>

  /** `parse_club` against this world at this instant. */
  function DecoderOf(world: World, now: int): Decoder
  {
    id => ProcessClub(id, world, now)
  }

  /** A decoder stamps every club it returns with the requested id and the
      run's instant; `parse_club` is one. */
  ghost predicate Stamps(decode: Decoder, now: int)
  {
    forall id :: decode(id).Success? ==> decode(id).value.id == id && decode(id).value.latestTs == now
  }

  lemma DecoderOfStamps(world: World, now: int)
    ensures Stamps(DecoderOf(world, now), now)
  {
    forall id | DecoderOf(world, now)(id).Success?
      ensures DecoderOf(world, now)(id).value.id == id && DecoderOf(world, now)(id).value.latestTs == now
    {
      assert DecoderOf(world, now)(id) == ProcessClub(id, world, now);
    }
  }

  predicate Succeeds(id: int, decode: Decoder)
  {
    decode(id).Success?
  }

  /** The keys of the refs whose clubs decode: what a crawl can add. */
  function Gained(refs: seq<ClubRef>, decode: Decoder): set<string>
  {
    set r | r in refs && Succeeds(r.id, decode) :: Key(r.id)
  }

  /** Whether the club of `ref` gets past the gate and is decoded. */
  predicate Updates(store: Store, ref: ClubRef, decode: Decoder, now: int)
  {
    !Fresh(store, Key(ref.id), now) && Succeeds(ref.id, decode)
  }

  /** One iteration of the crawl loop. */
  function Step(store: Store, ref: ClubRef, decode: Decoder, now: int): (r: Store)
    ensures r.Keys == store.Keys + (if Succeeds(ref.id, decode) then {Key(ref.id)} else {})
    ensures forall k :: k in store && k != Key(ref.id) ==> r[k] == store[k]
    ensures Fresh(store, Key(ref.id), now) || !Succeeds(ref.id, decode) ==> r == store
    ensures Updates(store, ref, decode, now) ==>
              r[Key(ref.id)] == FromRun(decode(ref.id).value)
  {
    var key := Key(ref.id);
    if Fresh(store, key, now) then store
    else
      match decode(ref.id)
      case Failure(_) => store
      case Success(club) => store[key := FromRun(club)]
  }

  /** The crawl loop over the discovered refs, in order. */
  function Crawl(store: Store, refs: seq<ClubRef>, decode: Decoder, now: int): Store
    decreases |refs|
  {
    if |refs| == 0 then store else Crawl(Step(store, refs[0], decode, now), refs[1..], decode, now)
  }

  /** The store snapshots written to the file, one after every update. */
  function Saves(store: Store, refs: seq<ClubRef>, decode: Decoder, now: int): seq<Store>
    decreases |refs|
  {
    if |refs| == 0 then []
    else
      var next := Step(store, refs[0], decode, now);
      (if Updates(store, refs[0], decode, now) then [next] else []) + Saves(next, refs[1..], decode, now)
  }

  /** The ids whose pages are fetched: those that get past the gate. */
  function Attempted(store: Store, refs: seq<ClubRef>, decode: Decoder, now: int): seq<int>
    decreases |refs|
  {
    if |refs| == 0 then []
    else
      (if Fresh(store, Key(refs[0].id), now) then [] else [refs[0].id])
      + Attempted(Step(store, refs[0], decode, now), refs[1..], decode, now)
  }

  // ---------------------------------------------------------------------
  // Structure of the fold

  lemma {:induction false} CrawlAppend(store: Store, a: seq<ClubRef>, b: seq<ClubRef>, decode: Decoder, now: int)
    ensures Crawl(store, a + b, decode, now) == Crawl(Crawl(store, a, decode, now), b, decode, now)
    decreases |a|
  {
    if |a| == 0 {
      assert a + b == b;
    } else {
      assert (a + b)[0] == a[0];
      assert (a + b)[1..] == a[1..] + b;
      CrawlAppend(Step(store, a[0], decode, now), a[1..], b, decode, now);
    }
  }

  lemma {:induction false} SavesAppend(store: Store, a: seq<ClubRef>, b: seq<ClubRef>, decode: Decoder, now: int)
    ensures Saves(store, a + b, decode, now) == Saves(store, a, decode, now) + Saves(Crawl(store, a, decode, now), b, decode, now)
    decreases |a|
  {
    if |a| == 0 {
      assert a + b == b;
    } else {
      var next := Step(store, a[0], decode, now);
      assert (a + b)[0] == a[0];
      assert (a + b)[1..] == a[1..] + b;
      SavesAppend(next, a[1..], b, decode, now);
      var mid := Crawl(store, a, decode, now);
      assert mid == Crawl(next, a[1..], decode, now);
      var x, y, z := Saves(next, a[1..] + b, decode, now), Saves(next, a[1..], decode, now), Saves(mid, b, decode, now);
      assert x == y + z;
      if Updates(store, a[0], decode, now) {
        assert Saves(store, a + b, decode, now) == [next] + x;
        assert Saves(store, a, decode, now) == [next] + y;
      } else {
        assert Saves(store, a + b, decode, now) == x;
        assert Saves(store, a, decode, now) == y;
      }
    }
  }

  lemma CrawlSnoc(store: Store, refs: seq<ClubRef>, ref: ClubRef, decode: Decoder, now: int)
    ensures Crawl(store, refs + [ref], decode, now) == Step(Crawl(store, refs, decode, now), ref, decode, now)
    ensures Saves(store, refs + [ref], decode, now) ==
            Saves(store, refs, decode, now) +
            (if Updates(Crawl(store, refs, decode, now), ref, decode, now)
             then [Step(Crawl(store, refs, decode, now), ref, decode, now)] else [])
  {
    CrawlAppend(store, refs, [ref], decode, now);
    SavesAppend(store, refs, [ref], decode, now);
    var mid := Crawl(store, refs, decode, now);
    assert [ref][1..] == [];
    assert Saves(mid, [ref], decode, now) ==
           (if Updates(mid, ref, decode, now) then [Step(mid, ref, decode, now)] else []) + [];
  }

  // ---------------------------------------------------------------------
  // The store only grows

  /** The keys after the crawl are the keys before plus the key of every
      discovered club that decodes. */
  lemma {:induction false} CrawlKeys(store: Store, refs: seq<ClubRef>, decode: Decoder, now: int)
    ensures Crawl(store, refs, decode, now).Keys == store.Keys + Gained(refs, decode)
    decreases |refs|
  {
    if |refs| > 0 {
      var next := Step(store, refs[0], decode, now);
      CrawlKeys(next, refs[1..], decode, now);
      var all := Gained(refs, decode);
      var rest := Gained(refs[1..], decode);
      var head: set<string> := if Succeeds(refs[0].id, decode) then {Key(refs[0].id)} else {};
      assert all == head + rest by {
        forall k | k in all ensures k in head + rest {
          var r :| r in refs && Succeeds(r.id, decode) && Key(r.id) == k;
          if r != refs[0] {
            assert r in refs[1..];
          }
        }
        forall k | k in rest ensures k in all {
          var r :| r in refs[1..] && Succeeds(r.id, decode) && Key(r.id) == k;
          assert r in refs;
        }
      }
    } else {
      var all := Gained(refs, decode);
      assert all == {};
    }
  }

  /** No key is ever removed. */
  lemma CrawlKeepsKeys(store: Store, refs: seq<ClubRef>, decode: Decoder, now: int)
    ensures store.Keys <= Crawl(store, refs, decode, now).Keys
  {
    CrawlKeys(store, refs, decode, now);
  }

  /** A key no discovered club maps to is left exactly as it was. */
  lemma {:induction false} CrawlUntouched(store: Store, refs: seq<ClubRef>, decode: Decoder, now: int, k: string)
    requires forall r :: r in refs ==> Key(r.id) != k
    ensures k in Crawl(store, refs, decode, now) <==> k in store
    ensures k in store ==> Crawl(store, refs, decode, now)[k] == store[k]
    decreases |refs|
  {
    if |refs| > 0 {
      assert refs[0] in refs;
      forall r | r in refs[1..] ensures Key(r.id) != k {
        assert r in refs;
      }
      CrawlUntouched(Step(store, refs[0], decode, now), refs[1..], decode, now, k);
    }
  }

  /** Every changed or new entry is the decoded club of a discovered ref
      with that key. */
  lemma {:induction false} CrawlValues(store: Store, refs: seq<ClubRef>, decode: Decoder, now: int, k: string)
    requires k in Crawl(store, refs, decode, now)
    ensures var v := Crawl(store, refs, decode, now)[k];
            (k in store && v == store[k]) ||
            (v.FromRun? && exists r :: r in refs && Key(r.id) == k && decode(r.id) == Success(v.club))
    decreases |refs|
  {
    if |refs| > 0 {
      var next := Step(store, refs[0], decode, now);
      CrawlValues(next, refs[1..], decode, now, k);
      var v := Crawl(store, refs, decode, now)[k];
      if k in next && v == next[k] {
        if !(k in store && v == store[k]) {
          assert k == Key(refs[0].id);
          assert refs[0] in refs;
        }
      } else {
        var r :| r in refs[1..] && Key(r.id) == k && decode(r.id) == Success(v.club);
        assert r in refs;
      }
    }
  }

  /** The crawl keeps every decoded club under its own id's key. */
  lemma {:induction false} CrawlWellKeyed(store: Store, refs: seq<ClubRef>, decode: Decoder, now: int)
    requires Stamps(decode, now)
    requires WellKeyed(store)
    ensures WellKeyed(Crawl(store, refs, decode, now))
    decreases |refs|
  {
    if |refs| > 0 {
      CrawlWellKeyed(Step(store, refs[0], decode, now), refs[1..], decode, now);
    }
  }

  /** An entry is only ever replaced by a newer one: the gate lets a club
      through only when its record is at least a window old. */
  lemma {:induction false} CrawlTimestampsGrow(store: Store, refs: seq<ClubRef>, decode: Decoder, now: int, k: string)
    requires Stamps(decode, now)
    requires k in store
    ensures k in Crawl(store, refs, decode, now)
    ensures LastUpdate(Crawl(store, refs, decode, now)[k]) >= LastUpdate(store[k])
    decreases |refs|
  {
    if |refs| > 0 {
      var next := Step(store, refs[0], decode, now);
      CrawlTimestampsGrow(next, refs[1..], decode, now, k);
    }
  }

  // ---------------------------------------------------------------------
  // Failure isolation, the gate, idempotence

  /** A club that fails to decode has no effect on the run at all: the crawl
      ends as if it had not been discovered. */
  lemma FailureIsolated(store: Store, refs: seq<ClubRef>, i: nat, decode: Decoder, now: int)
    requires i < |refs| && !Succeeds(refs[i].id, decode)
    ensures Crawl(store, refs, decode, now) == Crawl(store, refs[..i] + refs[i + 1..], decode, now)
    ensures Saves(store, refs, decode, now) == Saves(store, refs[..i] + refs[i + 1..], decode, now)
  {
    var pre, post := refs[..i], refs[i + 1..];
    assert refs == pre + ([refs[i]] + post);
    CrawlAppend(store, pre, [refs[i]] + post, decode, now);
    SavesAppend(store, pre, [refs[i]] + post, decode, now);
    FailingHeadSkipped(Crawl(store, pre, decode, now), refs[i], post, decode, now);
    CrawlAppend(store, pre, post, decode, now);
    SavesAppend(store, pre, post, decode, now);
  }

  lemma FailingHeadSkipped(store: Store, ref: ClubRef, refs: seq<ClubRef>, decode: Decoder, now: int)
    requires !Succeeds(ref.id, decode)
    ensures Crawl(store, [ref] + refs, decode, now) == Crawl(store, refs, decode, now)
    ensures Saves(store, [ref] + refs, decode, now) == Saves(store, refs, decode, now)
  {
    assert ([ref] + refs)[0] == ref;
    assert ([ref] + refs)[1..] == refs;
    assert Step(store, ref, decode, now) == store;
  }

  /** A fresh key stays fresh for the rest of the run. */
  lemma {:induction false} CrawlKeepsFresh(store: Store, refs: seq<ClubRef>, decode: Decoder, now: int, k: string)
    requires Fresh(store, k, now)
    ensures Fresh(Crawl(store, refs, decode, now), k, now)
    decreases |refs|
  {
    if |refs| > 0 {
      CrawlKeepsFresh(Step(store, refs[0], decode, now), refs[1..], decode, now, k);
    }
  }

  /** Once a club has been processed, a later ref with the same id is
      skipped by the gate: duplicates from several areas cost nothing. */
  lemma DuplicateSkipped(store: Store, ref: ClubRef, other: ClubRef, decode: Decoder, now: int)
    requires Stamps(decode, now)
    requires other.id == ref.id && Succeeds(ref.id, decode)
    ensures Fresh(Step(store, ref, decode, now), Key(other.id), now)
    ensures Step(Step(store, ref, decode, now), other, decode, now) == Step(store, ref, decode, now)
  {
  }

  /** Every discovered club is either fresh or failing after the run. */
  ghost predicate Settled(store: Store, refs: seq<ClubRef>, decode: Decoder, now: int)
  {
    forall r :: r in refs ==> Fresh(store, Key(r.id), now) || !Succeeds(r.id, decode)
  }

  lemma {:induction false} SettledCrawlIsIdentity(store: Store, refs: seq<ClubRef>, decode: Decoder, now: int)
    requires Settled(store, refs, decode, now)
    ensures Crawl(store, refs, decode, now) == store
    ensures Saves(store, refs, decode, now) == []
    ensures forall x :: x in Attempted(store, refs, decode, now) ==> !Succeeds(x, decode)
    decreases |refs|
  {
    if |refs| > 0 {
      assert refs[0] in refs;
      assert Settled(store, refs[1..], decode, now) by {
        forall r | r in refs[1..] ensures Fresh(store, Key(r.id), now) || !Succeeds(r.id, decode) {
          assert r in refs;
        }
      }
      SettledCrawlIsIdentity(store, refs[1..], decode, now);
    }
  }

  lemma {:induction false} CrawlSettles(store: Store, refs: seq<ClubRef>, decode: Decoder, now: int)
    requires Stamps(decode, now)
    ensures Settled(Crawl(store, refs, decode, now), refs, decode, now)
    decreases |refs|
  {
    if |refs| > 0 {
      var next := Step(store, refs[0], decode, now);
      var final := Crawl(next, refs[1..], decode, now);
      CrawlSettles(next, refs[1..], decode, now);
      if Succeeds(refs[0].id, decode) {
        assert Fresh(next, Key(refs[0].id), now);
        CrawlKeepsFresh(next, refs[1..], decode, now, Key(refs[0].id));
      }
      forall r | r in refs ensures Fresh(final, Key(r.id), now) || !Succeeds(r.id, decode) {
        if r != refs[0] {
          assert r in refs[1..];
        }
      }
    }
  }

  /** Running the crawl a second time at the same instant changes nothing
      and writes nothing. */
  lemma CrawlIdempotent(store: Store, refs: seq<ClubRef>, decode: Decoder, now: int)
    requires Stamps(decode, now)
    ensures Crawl(Crawl(store, refs, decode, now), refs, decode, now) == Crawl(store, refs, decode, now)
    ensures Saves(Crawl(store, refs, decode, now), refs, decode, now) == []
  {
    CrawlSettles(store, refs, decode, now);
    SettledCrawlIsIdentity(Crawl(store, refs, decode, now), refs, decode, now);
  }

  /** The second run fetches only clubs that fail again. */
  lemma SecondRunRefetchesOnlyFailures(store: Store, refs: seq<ClubRef>, decode: Decoder, now: int)
    requires Stamps(decode, now)
    ensures forall x :: x in Attempted(Crawl(store, refs, decode, now), refs, decode, now) ==> !Succeeds(x, decode)
  {
    CrawlSettles(store, refs, decode, now);
    SettledCrawlIsIdentity(Crawl(store, refs, decode, now), refs, decode, now);
  }

  /** Only discovered clubs are fetched. */
  lemma {:induction false} AttemptedAreDiscovered(store: Store, refs: seq<ClubRef>, decode: Decoder, now: int)
    ensures forall x :: x in Attempted(store, refs, decode, now) ==> exists r :: r in refs && r.id == x
    decreases |refs|
  {
    if |refs| > 0 {
      var next := Step(store, refs[0], decode, now);
      AttemptedAreDiscovered(next, refs[1..], decode, now);
      var head: seq<int> := if Fresh(store, Key(refs[0].id), now) then [] else [refs[0].id];
      var tail := Attempted(next, refs[1..], decode, now);
      assert Attempted(store, refs, decode, now) == head + tail;
      forall x | x in head + tail ensures exists r :: r in refs && r.id == x {
        if x in head {
          assert refs[0] in refs;
        } else {
          var r :| r in refs[1..] && r.id == x;
          assert r in refs;
        }
      }
    } else {
      assert Attempted(store, refs, decode, now) == [];
    }
  }

  /** The freshness gate on the two sample ages: a record an hour old is
      kept, one twenty-five hours old is replaced by a successful decode. */
  lemma GateExamples(store: Store, ref: ClubRef, decode: Decoder, now: int)
    requires Key(ref.id) in store
    ensures LastUpdate(store[Key(ref.id)]) == now - 3600 ==> Step(store, ref, decode, now) == store
    ensures LastUpdate(store[Key(ref.id)]) == now - 90000 && Succeeds(ref.id, decode) ==>
              Step(store, ref, decode, now)[Key(ref.id)] == FromRun(decode(ref.id).value)
  {
  }

  // ---------------------------------------------------------------------
  // The saved snapshots

  /** At most one snapshot is written per discovered club. */
  lemma {:induction false} SavesBounded(store: Store, refs: seq<ClubRef>, decode: Decoder, now: int)
    ensures |Saves(store, refs, decode, now)| <= |refs|
    decreases |refs|
  {
    if |refs| > 0 {
      SavesBounded(Step(store, refs[0], decode, now), refs[1..], decode, now);
    }
  }

  /** The last snapshot written is the final store: the file always holds
      the latest state. */
  lemma {:induction false} LastSaveIsFinal(store: Store, refs: seq<ClubRef>, decode: Decoder, now: int)
    requires |Saves(store, refs, decode, now)| > 0
    ensures Saves(store, refs, decode, now)[|Saves(store, refs, decode, now)| - 1] == Crawl(store, refs, decode, now)
    decreases |refs|
  {
    var next := Step(store, refs[0], decode, now);
    var rest := Saves(next, refs[1..], decode, now);
    if |rest| > 0 {
      LastSaveIsFinal(next, refs[1..], decode, now);
    } else {
      SettledTail(next, refs[1..], decode, now);
    }
  }

  /** Every snapshot holds all keys loaded at start and only keys of the
      final store. */
  lemma {:induction false} SavesBetween(store: Store, refs: seq<ClubRef>, decode: Decoder, now: int)
    ensures forall j :: 0 <= j < |Saves(store, refs, decode, now)| ==>
              store.Keys <= Saves(store, refs, decode, now)[j].Keys <= Crawl(store, refs, decode, now).Keys
    decreases |refs|
  {
    if |refs| > 0 {
      var next := Step(store, refs[0], decode, now);
      SavesBetween(next, refs[1..], decode, now);
      CrawlKeepsKeys(next, refs[1..], decode, now);
      var head: seq<Store> := if Updates(store, refs[0], decode, now) then [next] else [];
      var rest := Saves(next, refs[1..], decode, now);
      assert Saves(store, refs, decode, now) == head + rest;
    }
  }

  /** A crawl that writes nothing leaves the store unchanged. */
  lemma {:induction false} SettledTail(store: Store, refs: seq<ClubRef>, decode: Decoder, now: int)
    requires Saves(store, refs, decode, now) == []
    ensures Crawl(store, refs, decode, now) == store
    decreases |refs|
  {
    if |refs| > 0 {
      var next := Step(store, refs[0], decode, now);
      assert !Updates(store, refs[0], decode, now);
      assert next == store;
      SettledTail(next, refs[1..], decode, now);
    }
  }

  // ---------------------------------------------------------------------
  // The whole run

  /** The store file as found at start. */
  datatype StoreFile = NoFile | Corrupt | Unreadable | Json(entries: Store)

  /** Why the whole run stops: the store file cannot be read (an error other
      than a missing file or invalid JSON), or discovery of an area fails. */
  datatype ScrapeError = LoadError | DiscoveryFailed(error: DiscoveryError)

  /** Loading the store: a missing or corrupt file is an empty store. */
  function Load(file: StoreFile): (r: Result<Store, ScrapeError>)
    ensures r.Failure? <==> file.Unreadable?
    ensures file.NoFile? || file.Corrupt? ==> r == Success(map[])
    ensures file.Json? ==> r == Success(file.entries)
  {
    match file
    case NoFile => Success(map[])
    case Corrupt => Success(map[])
    case Unreadable => Failure(LoadError)
    case Json(entries) => Success(entries)
  }

  /** `scrape(clubs_file, areas)`: the final in-memory store, or the error
      that ends the run before any club is processed. */
  function Scrape(file: StoreFile, areas: seq<string>, world: World, now: int): (r: Result<Store, ScrapeError>)
    ensures r.Success? <==> !file.Unreadable? && DiscoverAreas(areas, world.search).Success?
    ensures r.Success? ==> Load(file).value.Keys <= r.value.Keys
    ensures file.Unreadable? ==> r == Failure(LoadError)
    ensures !file.Unreadable? && DiscoverAreas(areas, world.search).Failure? ==>
              r == Failure(DiscoveryFailed(DiscoverAreas(areas, world.search).error))
  {
    var store :- Load(file);
    var decode := DecoderOf(world, now);
    match DiscoverAreas(areas, world.search)
    case Failure(e) => Failure(DiscoveryFailed(e))
    case Success(refs) =>
      CrawlKeepsKeys(store, refs, decode, now);
      Success(Crawl(store, refs, decode, now))
  }

  /** The keys after a run are exactly the loaded keys plus the key of every
      discovered club whose page decodes. */
  lemma ScrapeKeys(file: StoreFile, areas: seq<string>, world: World, now: int)
    requires Scrape(file, areas, world, now).Success?
    ensures Scrape(file, areas, world, now).value.Keys ==
            Load(file).value.Keys + Gained(DiscoverAreas(areas, world.search).value, DecoderOf(world, now))
  {
    CrawlKeys(Load(file).value, DiscoverAreas(areas, world.search).value, DecoderOf(world, now), now);
  }

  /** The crawl loop written as the source's `for` loop over the refs. */
  method RunCrawl(store: Store, refs: seq<ClubRef>, world: World, now: int) returns (clubs: Store, written: seq<Store>)
    ensures clubs == Crawl(store, refs, DecoderOf(world, now), now)
    ensures written == Saves(store, refs, DecoderOf(world, now), now)
  {
    clubs := store;
    written := [];
    for i := 0 to |refs|
      invariant clubs == Crawl(store, refs[..i], DecoderOf(world, now), now)
      invariant written == Saves(store, refs[..i], DecoderOf(world, now), now)
    {
      CrawlSnoc(store, refs[..i], refs[i], DecoderOf(world, now), now);
      assert refs[..i + 1] == refs[..i] + [refs[i]];
      var key := Key(refs[i].id);
      if key in clubs && now - LastUpdate(clubs[key]) < FreshnessWindow {
        continue;
      }
      match ProcessClub(refs[i].id, world, now)
      case Failure(_) =>
      case Success(club) =>
        clubs := clubs[key := FromRun(club)];
        written := written + [clubs];
    }
    assert refs[..|refs|] == refs;
  }

  /** A run on one area whose search answers with `refs` crawls exactly
      those refs from the empty store. */
  lemma ScrapeOneArea(area: string, refs: seq<ClubRef>, world: World, now: int)
    requires world.search(RequestFor(area)) == EnvelopeOf(refs)
    ensures Scrape(NoFile, [area], world, now) == Success(Crawl(map[], refs, DecoderOf(world, now), now))
  {
    DiscoverEnvelopeOf(refs);
    assert [area][1..] == [];
    assert DiscoverAreas([area], world.search) == Success(refs + []);
    assert refs + [] == refs;
  }

  /** A crawl over a single ref is a single step. */
  lemma CrawlOne(store: Store, ref: ClubRef, decode: Decoder, now: int)
    ensures Crawl(store, [ref], decode, now) == Step(store, ref, decode, now)
  {
    assert [ref][1..] == [];
  }

  lemma Key101()
    ensures Key(101) == "101"
  {
    assert NatToString(10) == "10";
  }

  /** The end-to-end sample: one area lists club 101; its page decodes with
      no map link; the geocoder answers; the store gains key "101" with the
      geocoded coordinates. */
  lemma EndToEndExample(area: string, world: World, now: int, page: Page)
    requires world.search(RequestFor(area)) == EnvelopeOf([ClubRef(101, "Star1")])
    requires world.fetch(DetailUrl(101)) == Html(page)
    requires ParseClub(page, 101, world.lookup, world.parseNum, now).Success?
    requires page.details[MapBlock].anchor.None?
    requires FindAddress(ParseClub(page, 101, world.lookup, world.parseNum, now).value.address,
                         Some(page.header.value.h1.value), world.lookup)
             == Some(RawLatLng(Some(31.78), Some(35.22)))
    ensures Scrape(NoFile, [area], world, now).Success?
    ensures "101" in Scrape(NoFile, [area], world, now).value
    ensures Scrape(NoFile, [area], world, now).value["101"].FromRun?
    ensures Scrape(NoFile, [area], world, now).value["101"].club.latLng == Some(LatLng(31.78, 35.22))
  {
    var ref := ClubRef(101, "Star1");
    ScrapeOneArea(area, [ref], world, now);
    CrawlOne(map[], ref, DecoderOf(world, now), now);
    Key101();
    var club := ParseClub(page, 101, world.lookup, world.parseNum, now).value;
    assert ProcessClub(101, world, now) == Success(club);
    assert Step(map[], ref, DecoderOf(world, now), now) == map["101" := FromRun(club)];
    ParseClubCoordinates(page, 101, world.lookup, world.parseNum, now);
  }
}
