/** Area discovery (`get_all_clubs`): one search request per area, answered
    by a JSON envelope whose field "d" lists the clubs found; and the
    concatenation of the lists of all areas that `scrape` processes. The HTTP
    exchange is an oracle `search` from request to reply. */
module Discovery {
  import opened Wrappers

  /** A club found by a search (`FreeFitPartialClub`). */
  datatype ClubRef = ClubRef(id: int, name: string)

  /** One item of "d" as decoded JSON: an object whose fields are `None`
      when missing or not valid as the declared type (`Id: int`,
      `Name: str`), or any other JSON value, which `**x` cannot unpack. */
  datatype RawEntry = RawEntry(id: Option<int>, name: Option<string>) | NonMapping

  /** The field "d" of the reply object, by the shapes `len(clubz)` and the
      comprehension over `clubz` tell apart. Iterating a string yields its
      characters and iterating an object yields its keys, so neither yields
      a mapping. */
  datatype DValue =
    | Absent                        // missing or null: `data.get("d")` is None
    | Items(entries: seq<RawEntry>) // a JSON list
    | Number                        // a number or a boolean: `len` raises
    | Str(s: string)
    | Obj(keys: seq<string>)

  /** What the search endpoint answers: a transport failure or non-2xx
      status (`raise_for_status`), a body that is not JSON, a JSON body that
      is not an object, or a decoded JSON object with its field "d". */
  datatype SearchReply =
    | HttpError
    | NotJson
    | NotObject
    | Envelope(d: DValue)

  /** The errors that escape `get_all_clubs`; none is caught by `scrape`. */
  datatype DiscoveryError =
    | NetworkError            // requests.HTTPError and transport errors
    | JsonDecodeError         // clubz.json() fails
    | AttributeError          // `.get` on a body that is not an object
    | InvalidResponseFormat   // ValueError: no "d" field
    | TypeError               // `len` of a number, or `**x` of a non-mapping
    | ValidationError         // FreeFitPartialClub(**x) rejects an object

  /** The JSON body posted to the search endpoint. */
  datatype SearchRequest = SearchRequest(
    companyId: int, subcategoryId: string, area: string, freeText: string, companyName: string)

  function RequestFor(area: string): (req: SearchRequest)
    ensures req.area == area
    ensures req.companyId == 0 && req.subcategoryId == "-1"
    ensures req.freeText == "" && req.companyName == ""
  {
    SearchRequest(0, "-1", area, "", "")
  }

  predicate ValidEntry(e: RawEntry)
  {
    e.RawEntry? && e.id.Some? && e.name.Some?
  }

  function ToRef(e: RawEntry): ClubRef
    requires ValidEntry(e)
  {
    ClubRef(e.id.value, e.name.value)
  }

  /** What `FreeFitPartialClub(**x)` raises on an invalid item. */
  function EntryError(e: RawEntry): DiscoveryError
  {
    if e.NonMapping? then TypeError else ValidationError
  }

  /** `[FreeFitPartialClub(**x) for x in clubz]`: all entries validate, in
      order, or the first invalid one raises. */
  function ValidateAll(entries: seq<RawEntry>): (r: Result<seq<ClubRef>, DiscoveryError>)
    ensures r.Success? <==> forall i :: 0 <= i < |entries| ==> ValidEntry(entries[i])
    ensures r.Success? ==> |r.value| == |entries|
    ensures r.Success? ==> forall i :: 0 <= i < |entries| ==> r.value[i] == ToRef(entries[i])
    ensures forall i :: 0 <= i < |entries| && !ValidEntry(entries[i]) &&
                        (forall j :: 0 <= j < i ==> ValidEntry(entries[j])) ==>
              r == Failure(EntryError(entries[i]))
  {
    if |entries| == 0 then Success([])
    else if !ValidEntry(entries[0]) then Failure(EntryError(entries[0]))
    else
      assert forall i :: 1 <= i < |entries| ==> entries[1..][i - 1] == entries[i];
      match ValidateAll(entries[1..])
      case Failure(e) => Failure(e)
      case Success(rest) => Success([ToRef(entries[0])] + rest)
  }

  /** `get_all_clubs` after the HTTP call returned `reply`. */
  function Discover(reply: SearchReply): (r: Result<seq<ClubRef>, DiscoveryError>)
    ensures reply.HttpError? ==> r == Failure(NetworkError)
    ensures reply.NotJson? ==> r == Failure(JsonDecodeError)
    ensures reply.NotObject? ==> r == Failure(AttributeError)
    ensures reply.Envelope? && reply.d.Absent? ==> r == Failure(InvalidResponseFormat)
    ensures reply.Envelope? && reply.d.Number? ==> r == Failure(TypeError)
    ensures reply.Envelope? && reply.d in {Items([]), Str(""), Obj([])} ==> r == Success([])
    ensures reply.Envelope? && reply.d.Str? && reply.d.s != "" ==> r == Failure(TypeError)
    ensures reply.Envelope? && reply.d.Obj? && reply.d.keys != [] ==> r == Failure(TypeError)
    ensures reply.Envelope? && reply.d.Items? ==> r == ValidateAll(reply.d.entries)
    ensures r.Success? && r.value != [] ==> reply.Envelope? && reply.d.Items?
  {
    match reply
    case HttpError => Failure(NetworkError)
    case NotJson => Failure(JsonDecodeError)
    case NotObject => Failure(AttributeError)
    case Envelope(d) =>
      match d
      case Absent => Failure(InvalidResponseFormat)
      case Number => Failure(TypeError)
      case Str(s) => if |s| == 0 then Success([]) else Failure(TypeError)
      case Obj(keys) => if |keys| == 0 then Success([]) else Failure(TypeError)
      case Items(entries) =>
        if |entries| == 0 then Success([]) else ValidateAll(entries)
  }

  /** The envelope the endpoint would send for a list of refs. */
  function EnvelopeOf(refs: seq<ClubRef>): (reply: SearchReply)
    ensures reply.Envelope? && reply.d.Items? && |reply.d.entries| == |refs|
  {
    Envelope(Items(seq(|refs|, i requires 0 <= i < |refs| => RawEntry(Some(refs[i].id), Some(refs[i].name)))))
  }

  /** Decoding the envelope of a list of refs gives back exactly that list. */
  lemma DiscoverEnvelopeOf(refs: seq<ClubRef>)
    ensures Discover(EnvelopeOf(refs)) == Success(refs)
  {
    var entries := EnvelopeOf(refs).d.entries;
    assert forall i :: 0 <= i < |entries| ==> ValidEntry(entries[i]) && ToRef(entries[i]) == refs[i];
    var r := Discover(EnvelopeOf(refs));
    assert r.Success?;
    assert r.value == refs;
  }

  /** The discovery list of `scrape`: each area's refs appended in area
      order. There is no de-duplication: a club listed under two areas
      appears twice. The first area whose discovery fails aborts the run. */
  function DiscoverAreas(areas: seq<string>, search: SearchRequest -> SearchReply): (r: Result<seq<ClubRef>, DiscoveryError>)
    ensures r.Success? <==> forall i :: 0 <= i < |areas| ==> Discover(search(RequestFor(areas[i]))).Success?
    ensures forall k :: 0 <= k < |areas| && Discover(search(RequestFor(areas[k]))).Failure? &&
                        (forall j :: 0 <= j < k ==> Discover(search(RequestFor(areas[j]))).Success?) ==>
              r == Failure(Discover(search(RequestFor(areas[k]))).error)
  {
    if |areas| == 0 then Success([])
    else
      assert forall k :: 1 <= k < |areas| ==> areas[1..][k - 1] == areas[k];
      match Discover(search(RequestFor(areas[0])))
      case Failure(e) => Failure(e)
      case Success(refs) =>
        match DiscoverAreas(areas[1..], search)
        case Failure(e) => Failure(e)
        case Success(more) => Success(refs + more)
  }

  /** Discovering `a + b` is discovering `a`, then `b`, and appending. */
  lemma {:induction false} DiscoverAreasAppend(a: seq<string>, b: seq<string>, search: SearchRequest -> SearchReply)
    requires DiscoverAreas(a + b, search).Success?
    ensures DiscoverAreas(a, search).Success? && DiscoverAreas(b, search).Success?
    ensures DiscoverAreas(a + b, search).value == DiscoverAreas(a, search).value + DiscoverAreas(b, search).value
  {
    if |a| == 0 {
      assert a + b == b;
    } else {
      assert (a + b)[0] == a[0];
      assert (a + b)[1..] == a[1..] + b;
      DiscoverAreasAppend(a[1..], b, search);
    }
  }

  /** Every ref discovered for any area appears in the run's list. */
  lemma {:induction false} DiscoverAreasKeepsAll(areas: seq<string>, search: SearchRequest -> SearchReply, k: nat)
    requires DiscoverAreas(areas, search).Success?
    requires k < |areas|
    ensures Discover(search(RequestFor(areas[k]))).Success?
    ensures forall j :: 0 <= j < |Discover(search(RequestFor(areas[k]))).value| ==>
      Discover(search(RequestFor(areas[k]))).value[j] in DiscoverAreas(areas, search).value
  {
    if k > 0 {
      DiscoverAreasKeepsAll(areas[1..], search, k - 1);
      assert areas[1..][k - 1] == areas[k];
    }
  }

  /** Two areas that list the same club put it in the run's list twice. */
  lemma DuplicatesAreKept(x: string, y: string, c: ClubRef, search: SearchRequest -> SearchReply)
    requires search(RequestFor(x)) == EnvelopeOf([c])
    requires search(RequestFor(y)) == EnvelopeOf([c])
    ensures DiscoverAreas([x, y], search) == Success([c, c])
  {
    DiscoverEnvelopeOf([c]);
    assert [x, y][1..] == [y];
    assert [y][1..] == [];
    assert DiscoverAreas([y], search) == Success([c] + []);
    assert [c] + ([c] + []) == [c, c];
  }
}
