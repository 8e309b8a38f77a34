/** The geocoding fallback of a club (`find_address_in_google`): up to three
    text queries sent to a place-search service, stopping at the first answer
    that lists a candidate. The service is an oracle `lookup` from request to
    reply; every failure degrades to "no coordinates". */
module Geocode {
  import opened Wrappers

  /** `geometry.location` of a candidate; `get("lat")` / `get("lng")` give
      `None` when the key is missing. */
  datatype Location = Location(lat: Option<real>, lng: Option<real>)

  /** One candidate; `location` is `None` when "geometry" or "location" is
      missing, which makes the lookup raise `KeyError`. */
  datatype Candidate = Candidate(location: Option<Location>)

  /** A reply of the service: a transport error, timeout or body that is not
      JSON (`GeoError`), or a decoded object with the status flag and its
      "candidates" list. An absent, null or empty "candidates" field is the
      empty list: all three are falsy and take the same branch. */
  datatype GeoReply = GeoError | GeoResponse(statusOk: bool, candidates: seq<Candidate>)

  /** The query parameters of one request. The API key comes from the
      environment and is not modelled. */
  datatype GeoRequest = GeoRequest(
    input: string, inputType: string, fields: seq<string>, locationBias: string, language: string)

  /** The pair `(location.get("lat"), location.get("lng"))`; either part may
      be missing. */
  datatype RawLatLng = RawLatLng(lat: Option<real>, lng: Option<real>)

  /** The country hint appended to address queries. */
  const CountrySuffix: string := ", ישראל"

  /** The fixed query of the last attempt. */
  const LastResortQuery: string := "Star1 gym Shamai Street Jerusalem"

  function GeoRequestFor(input: string): (req: GeoRequest)
    ensures req.input == input
    ensures req.inputType == "textquery" && req.language == "iw"
    ensures req.locationBias == "circle:50000@31.7767,35.2345"
    ensures req.fields == ["geometry", "formatted_address", "place_id", "name"]
  {
    GeoRequest(input, "textquery", ["geometry", "formatted_address", "place_id", "name"],
               "circle:50000@31.7767,35.2345", "iw")
  }

  /** Python truthiness of the optional title: `None` and `""` are falsy. */
  predicate Truthy(title: Option<string>)
  {
    title.Some? && title.value != ""
  }

  /** One step of the fallback chain: the query and whether a non-2xx status
      of its reply raises. Only the first request calls `raise_for_status`;
      the later ones read the body whatever the status. */
  datatype Strategy = Strategy(query: string, checkStatus: bool)

  /** The three strategies, in the order they are tried. */
  function Strategies(address: string, title: Option<string>): (ss: seq<Strategy>)
    ensures |ss| == 3
    ensures ss[0].checkStatus && !ss[1].checkStatus && !ss[2].checkStatus
    ensures ss[1].query == address + CountrySuffix && ss[2].query == LastResortQuery
    ensures Truthy(title) ==> ss[0].query == title.value + " " + address + CountrySuffix
    ensures !Truthy(title) ==> ss[0].query == ss[1].query
  {
    var first := if Truthy(title) then title.value + " " + address + CountrySuffix else address + CountrySuffix;
    [Strategy(first, true), Strategy(address + CountrySuffix, false), Strategy(LastResortQuery, false)]
  }

  /** What one attempt decides: a candidate to use, go on to the next
      strategy, or give up (an exception caught by the outer handler). */
  datatype Outcome = Hit(candidate: Candidate) | Miss | Abort

  function OutcomeOf(s: Strategy, lookup: GeoRequest -> GeoReply): (o: Outcome)
    ensures o.Abort? <==> lookup(GeoRequestFor(s.query)).GeoError? || (s.checkStatus && !lookup(GeoRequestFor(s.query)).statusOk)
    ensures o.Hit? ==>
              && lookup(GeoRequestFor(s.query)).GeoResponse?
              && |lookup(GeoRequestFor(s.query)).candidates| > 0
              && o.candidate == lookup(GeoRequestFor(s.query)).candidates[0]
    ensures o.Miss? ==> lookup(GeoRequestFor(s.query)).GeoResponse? && lookup(GeoRequestFor(s.query)).candidates == []
  {
    match lookup(GeoRequestFor(s.query))
    case GeoError => Abort
    case GeoResponse(ok, candidates) =>
      if s.checkStatus && !ok then Abort
      else if |candidates| == 0 then Miss
      else Hit(candidates[0])
  }

  /** Run the strategies in order and return the first candidate found. */
  function FirstHit(ss: seq<Strategy>, lookup: GeoRequest -> GeoReply): (r: Option<Candidate>)
    ensures r.Some? ==>
              exists k :: 0 <= k < |ss| && OutcomeOf(ss[k], lookup) == Hit(r.value) &&
                          forall j :: 0 <= j < k ==> OutcomeOf(ss[j], lookup).Miss?
    ensures r.None? ==> (forall k :: 0 <= k < |ss| && OutcomeOf(ss[k], lookup).Hit? ==>
      exists j :: 0 <= j < k && !OutcomeOf(ss[j], lookup).Miss?)
  {
    if |ss| == 0 then None
    else
      match OutcomeOf(ss[0], lookup)
      case Abort => None
      case Hit(c) => Some(c)
      case Miss =>
        var r := FirstHit(ss[1..], lookup);
        assert forall j :: 1 <= j < |ss| ==> ss[1..][j - 1] == ss[j];
        r
  }

  /** The queries actually sent: the strategies up to and including the first
      one that does not miss. */
  function Sent(ss: seq<Strategy>, lookup: GeoRequest -> GeoReply): (qs: seq<string>)
  {
    if |ss| == 0 then []
    else if OutcomeOf(ss[0], lookup).Miss? then [ss[0].query] + Sent(ss[1..], lookup)
    else [ss[0].query]
  }

  /** Queries are sent in strategy order, every query but the last one sent
      missed, and the chain stops at the first attempt that does not miss. */
  lemma {:induction false} SentIsMissingPrefix(ss: seq<Strategy>, lookup: GeoRequest -> GeoReply)
    ensures |Sent(ss, lookup)| <= |ss|
    ensures |ss| > 0 ==> |Sent(ss, lookup)| > 0
    ensures forall j :: 0 <= j < |Sent(ss, lookup)| ==> Sent(ss, lookup)[j] == ss[j].query
    ensures forall j :: 0 <= j < |Sent(ss, lookup)| - 1 ==> OutcomeOf(ss[j], lookup).Miss?
    ensures |Sent(ss, lookup)| < |ss| ==> !OutcomeOf(ss[|Sent(ss, lookup)| - 1], lookup).Miss?
  {
    if |ss| > 0 && OutcomeOf(ss[0], lookup).Miss? {
      SentIsMissingPrefix(ss[1..], lookup);
    }
  }

  /** `location = candidates[0]["geometry"]["location"]`, then the pair of
      its "lat" and "lng"; a missing key raises and the result is `None`. */
  function Locate(c: Candidate): (r: Option<RawLatLng>)
    ensures r.Some? <==> c.location.Some?
    ensures r.Some? ==> r.value.lat == c.location.value.lat && r.value.lng == c.location.value.lng
  {
    match c.location
    case None => None
    case Some(loc) => Some(RawLatLng(loc.lat, loc.lng))
  }

  /** `find_address_in_google(address, title)` as an ordered strategy list. */
  function FindAddress(address: string, title: Option<string>, lookup: GeoRequest -> GeoReply): (r: Option<RawLatLng>)
    ensures r.Some? ==>
              exists k :: 0 <= k < 3 &&
                          OutcomeOf(Strategies(address, title)[k], lookup).Hit? &&
                          r == Locate(OutcomeOf(Strategies(address, title)[k], lookup).candidate) &&
                          forall j :: 0 <= j < k ==> OutcomeOf(Strategies(address, title)[j], lookup).Miss?
    ensures (forall k :: 0 <= k < 3 ==> OutcomeOf(Strategies(address, title)[k], lookup).Miss?) ==> r.None?
    ensures OutcomeOf(Strategies(address, title)[0], lookup).Abort? ==> r.None?
    ensures forall k :: 0 <= k < 3 && OutcomeOf(Strategies(address, title)[k], lookup).Hit? &&
                        (forall j :: 0 <= j < k ==> OutcomeOf(Strategies(address, title)[j], lookup).Miss?) ==>
              r == Locate(OutcomeOf(Strategies(address, title)[k], lookup).candidate)
  {
    var ss := Strategies(address, title);
    assert ss[1..][1..] == [ss[2]];
    match FirstHit(ss, lookup)
    case None => None
    case Some(c) => Locate(c)
  }

  /** The same function transcribed branch by branch from the source: the
      first request raises on a bad status, the second and third do not; the
      nested `if` re-tests the last reply's candidates after each step. */
  function FindAddressAsWritten(address: string, title: Option<string>, lookup: GeoRequest -> GeoReply): Option<RawLatLng>
  {
    var searchQuery := if Truthy(title) then title.value + " " + address + CountrySuffix else address + CountrySuffix;
    var first := lookup(GeoRequestFor(searchQuery));
    if first.GeoError? || !first.statusOk then None
    else if |first.candidates| > 0 then Locate(first.candidates[0])
    else
      var second := lookup(GeoRequestFor(address + CountrySuffix));
      if second.GeoError? then None
      else if |second.candidates| > 0 then Locate(second.candidates[0])
      else
        var third := lookup(GeoRequestFor(LastResortQuery));
        if third.GeoError? then None
        else if |third.candidates| > 0 then Locate(third.candidates[0])
        else None
  }

  /** The strategy-list formulation and the nested transcription agree. */
  lemma FindAddressMatchesSource(address: string, title: Option<string>, lookup: GeoRequest -> GeoReply)
    ensures FindAddress(address, title, lookup) == FindAddressAsWritten(address, title, lookup)
  {
    var ss := Strategies(address, title);
    assert ss[1..][1..] == [ss[2]];
    assert ss[1..][1..][1..] == [];
  }

  /** At most three queries go out, in strategy order, and a hit on an
      earlier query means the later ones are never sent. */
  lemma AtMostThreeQueries(address: string, title: Option<string>, lookup: GeoRequest -> GeoReply)
    ensures 1 <= |Sent(Strategies(address, title), lookup)| <= 3
    ensures Sent(Strategies(address, title), lookup)[0] == Strategies(address, title)[0].query
    ensures OutcomeOf(Strategies(address, title)[0], lookup).Hit? ==> |Sent(Strategies(address, title), lookup)| == 1
  {
    SentIsMissingPrefix(Strategies(address, title), lookup);
  }

  /** With no usable title, a first miss sends the same query a second time. */
  lemma FalsyTitleRepeatsQuery(address: string, title: Option<string>, lookup: GeoRequest -> GeoReply)
    requires !Truthy(title)
    requires OutcomeOf(Strategies(address, title)[0], lookup).Miss?
    ensures |Sent(Strategies(address, title), lookup)| >= 2
    ensures Sent(Strategies(address, title), lookup)[0] == Sent(Strategies(address, title), lookup)[1]
  {
    var ss := Strategies(address, title);
    SentIsMissingPrefix(ss[1..], lookup);
  }
}
