/** Decoding of one club's detail page (`parse_club` after the fetch): the
    structural checks, the fixed index-to-field table over the "detail"
    blocks, and the two-tier coordinate resolution. The HTML document is an
    already-parsed record holding exactly what the decoder looks at. */
module ClubPage {
  import opened Wrappers
  import opened Text
  import opened LabelValue
  import opened Geocode

  /** `#headerText`, with the text of its first `h1` if it has one. */
  datatype Header = Header(h1: Option<string>)

  /** The first `img` of `#logo`, with its `src` attribute if present. */
  datatype Img = Img(src: Option<string>)

  /** `#logo`, with its first `img` if it has one. */
  datatype Logo = Logo(img: Option<Img>)

  /** The first `a` inside a detail block, with its `href` if present. */
  datatype Anchor = Anchor(href: Option<string>)

  /** One `div.detail` block: its child nodes and its first anchor. */
  datatype Detail = Detail(contents: seq<Node>, anchor: Option<Anchor>)

  /** What the decoder reads from a detail page; `about` is the text of
      `#textAbout` when that element exists. */
  datatype Page = Page(header: Option<Header>, logo: Option<Logo>, about: Option<string>, details: seq<Detail>)

  datatype LatLng = LatLng(lat: real, lng: real)

  /** A decoded club (`Club`); `latestTs` is the time it was decoded. */
  datatype Club = Club(
    id: int,
    title: string,
    latLng: Option<LatLng>,
    address: string,
    phone: string,
    website: string,
    tags: seq<string>,
    logoUrl: string,
    about: string,
    latestTs: int)

  /** Why a page yields no club; each is an exception out of `parse_club`. */
  datatype ParseError =
    | MissingHeader
    | MissingTitle
    | MissingLogo
    | MissingLogoSrc              // KeyError on img['src']
    | MissingAbout
    | InsufficientDetails(found: nat)
    | EmptyDetail(index: nat)     // IndexError in format_bsf_object
    | InvalidLatLng               // the Club model rejects a half-null pair

  const BaseUrl: string := "https://freefit.co.il"

  /** The fewest detail blocks a page must have. */
  const MinDetails: nat := 12

  /** The index-to-field table of the detail blocks. */
  const PhoneBlock: nat := 2
  const AddressBlock: nat := 3
  const WebsiteBlock: nat := 6
  const MapBlock: nat := 8
  const FirstTagBlock: nat := 11

  /** The page fetched for a club. */
  function DetailUrl(id: int): string
  {
    BaseUrl + "/CLUBS/?CLUB=" + IntToString(id) + "&SUBCLUBCATEGORY=-1"
  }

  /** Distinct clubs are fetched from distinct pages. */
  lemma DetailUrlInjective(a: int, b: int)
    ensures DetailUrl(a) == DetailUrl(b) <==> a == b
  {
    if DetailUrl(a) == DetailUrl(b) {
      InfixCancel(BaseUrl + "/CLUBS/?CLUB=", IntToString(a), IntToString(b), "&SUBCLUBCATEGORY=-1");
      IntToStringInjective(a, b);
    }
  }

  // ---------------------------------------------------------------------
  // Label/value parts of the detail blocks

  predicate Decodable(d: Detail)
  {
    FormatBsfObject(d.contents).Success?
  }

  /** The value part of a block. */
  function ValueOf(d: Detail): string
    requires Decodable(d)
  {
    FormatBsfObject(d.contents).value.content
  }

  /** The value part of block `i`, or the error of decoding it. */
  function Field(details: seq<Detail>, i: nat): (r: Result<string, ParseError>)
    requires i < |details|
    ensures r.Success? <==> Decodable(details[i])
    ensures r.Success? ==> r.value == ValueOf(details[i])
    ensures r.Failure? ==> r.error == EmptyDetail(i)
  {
    match FormatBsfObject(details[i].contents)
    case Failure(_) => Failure(EmptyDetail(i))
    case Success(lv) => Success(lv.content)
  }

  /** `[format_bsf_object(x)[1] for x in blocks]`, where `blocks` starts at
      page index `offset`; the first undecodable block raises. */
  function Values(blocks: seq<Detail>, offset: nat): (r: Result<seq<string>, ParseError>)
    ensures r.Success? <==> forall i :: 0 <= i < |blocks| ==> Decodable(blocks[i])
    ensures r.Success? ==> |r.value| == |blocks|
    ensures r.Success? ==> forall i :: 0 <= i < |blocks| ==> r.value[i] == ValueOf(blocks[i])
    ensures r.Failure? ==> exists i :: 0 <= i < |blocks| && !Decodable(blocks[i]) && r.error == EmptyDetail(offset + i)
  {
    if |blocks| == 0 then Success([])
    else
      match FormatBsfObject(blocks[0].contents)
      case Failure(_) => Failure(EmptyDetail(offset))
      case Success(lv) =>
        match Values(blocks[1..], offset + 1)
        case Failure(e) =>
          assert forall i :: 1 <= i < |blocks| ==> blocks[1..][i - 1] == blocks[i];
          Failure(e)
        case Success(rest) => Success([lv.content] + rest)
  }

  // ---------------------------------------------------------------------
  // Coordinates

  /** The primary path on an `href`: split on '/', take segment 6, remove
      every '@', split on ',' and keep the first two tokens. */
  function MapLinkTokens(href: string): (r: Option<(string, string)>)
    ensures r.Some? <==> |Split(href, '/')| > 6 && ',' in RemoveAll(Split(href, '/')[6], '@')
    ensures r.Some? ==> '/' !in r.value.0 && '@' !in r.value.0 && ',' !in r.value.0
    ensures r.Some? ==> '/' !in r.value.1 && '@' !in r.value.1 && ',' !in r.value.1
  {
    var segments := Split(href, '/');
    if |segments| <= 6 then None
    else
      var cleaned := RemoveAll(segments[6], '@');
      var tokens := Split(cleaned, ',');
      SplitInTwo(cleaned, ',');
      if |tokens| < 2 then None
      else
        assert forall ch :: ch in tokens[0] || ch in tokens[1] ==> ch in cleaned by {
          JoinSplit(cleaned, ',');
          TokensInside(tokens, ',');
        }
        Some((tokens[0], tokens[1]))
  }

  /** Every character of the first two pieces occurs in their join. */
  lemma TokensInside(tokens: seq<string>, c: char)
    requires |tokens| >= 2
    ensures forall ch :: ch in tokens[0] ==> ch in Join(tokens, [c])
    ensures forall ch :: ch in tokens[1] ==> ch in Join(tokens, [c])
  {
    var j := Join(tokens, [c]);
    assert j == tokens[0] + [c] + Join(tokens[1..], [c]);
    if |tokens| == 2 {
      assert Join(tokens[1..], [c]) == tokens[1];
    } else {
      assert Join(tokens[1..], [c]) == tokens[1] + [c] + Join(tokens[2..], [c]);
    }
  }

  /** The primary coordinates of the map block, if every step succeeds:
      an anchor, its `href`, the two tokens, and both parsed as numbers. */
  function PrimaryCoordinates(block: Detail, parseNum: string -> Option<real>): (r: Option<LatLng>)
    ensures r.Some? ==> block.anchor.Some? && block.anchor.value.href.Some?
    ensures r.Some? ==>
              && MapLinkTokens(block.anchor.value.href.value).Some?
              && parseNum(MapLinkTokens(block.anchor.value.href.value).value.0) == Some(r.value.lat)
              && parseNum(MapLinkTokens(block.anchor.value.href.value).value.1) == Some(r.value.lng)
    ensures && block.anchor.Some? && block.anchor.value.href.Some?
            && MapLinkTokens(block.anchor.value.href.value).Some?
            && parseNum(MapLinkTokens(block.anchor.value.href.value).value.0).Some?
            && parseNum(MapLinkTokens(block.anchor.value.href.value).value.1).Some?
            ==> r == Some(LatLng(parseNum(MapLinkTokens(block.anchor.value.href.value).value.0).value,
                                 parseNum(MapLinkTokens(block.anchor.value.href.value).value.1).value))
  {
    match block.anchor
    case None => None
    case Some(a) =>
      match a.href
      case None => None
      case Some(href) =>
        match MapLinkTokens(href)
        case None => None
        case Some(tokens) =>
          match (parseNum(tokens.0), parseNum(tokens.1))
          case (Some(lat), Some(lng)) => Some(LatLng(lat, lng))
          case _ => None
  }

  /** The coordinate pair `parse_club` hands to `Club`: the primary
      coordinates when they exist, otherwise whatever the geocoding fallback
      answers. Neither path raises. */
  function ResolveCoordinates(block: Detail, address: string, title: string,
                              lookup: GeoRequest -> GeoReply, parseNum: string -> Option<real>): (r: Option<RawLatLng>)
    ensures PrimaryCoordinates(block, parseNum).Some? ==>
              r == Some(RawLatLng(Some(PrimaryCoordinates(block, parseNum).value.lat),
                                  Some(PrimaryCoordinates(block, parseNum).value.lng)))
    ensures PrimaryCoordinates(block, parseNum).None? ==> r == FindAddress(address, Some(title), lookup)
    ensures r.Some? && (r.value.lat.None? || r.value.lng.None?) ==> PrimaryCoordinates(block, parseNum).None?
  {
    match PrimaryCoordinates(block, parseNum)
    case Some(ll) => Some(RawLatLng(Some(ll.lat), Some(ll.lng)))
    case None => FindAddress(address, Some(title), lookup)
  }

  /** When the link yields coordinates, the geocoder is never consulted: any
      two lookup services give the same answer. */
  lemma PrimaryNeedsNoLookup(block: Detail, address: string, title: string,
                             lookup1: GeoRequest -> GeoReply, lookup2: GeoRequest -> GeoReply,
                             parseNum: string -> Option<real>)
    requires PrimaryCoordinates(block, parseNum).Some?
    ensures ResolveCoordinates(block, address, title, lookup1, parseNum) == ResolveCoordinates(block, address, title, lookup2, parseNum)
    ensures ResolveCoordinates(block, address, title, lookup1, parseNum).Some?
  {
  }

  /** A block without a link, or whose link has too few path segments,
      falls through to the geocoding chain with title and address. */
  lemma MalformedLinkFallsBack(block: Detail, address: string, title: string,
                               lookup: GeoRequest -> GeoReply, parseNum: string -> Option<real>)
    requires block.anchor.None? || block.anchor.value.href.None? || |Split(block.anchor.value.href.value, '/')| <= 6
    ensures ResolveCoordinates(block, address, title, lookup, parseNum) == FindAddress(address, Some(title), lookup)
  {
  }

  /** A map link whose seventh path segment is '@' followed by
      comma-separated tokens yields its first two tokens. */
  lemma MapLinkRoundTrip(segments: seq<string>, tokens: seq<string>)
    requires |segments| >= 7 && |tokens| >= 2
    requires segments[6] == "@" + Join(tokens, ",")
    requires forall i :: 0 <= i < |segments| && i != 6 ==> '/' !in segments[i]
    requires forall i :: 0 <= i < |tokens| ==> '/' !in tokens[i] && '@' !in tokens[i] && ',' !in tokens[i]
    ensures MapLinkTokens(Join(segments, "/")) == Some((tokens[0], tokens[1]))
  {
    var joined := Join(tokens, ",");
    JoinAvoids(tokens, ",", '/');
    JoinAvoids(tokens, ",", '@');
    assert '/' !in segments[6];
    SplitJoin(segments, '/');
    RemoveAllAppend("@", joined, '@');
    RemoveAllAbsent(joined, '@');
    assert RemoveAll("@", '@') == "";
    assert RemoveAll(segments[6], '@') == joined;
    SplitJoin(tokens, ',');
  }

  /** The example map link whose path segments are those of
      `https://www.google.com/maps/place/Star1/@31.771,35.214,15z` yields
      "31.771" and "35.214"; the zoom token is ignored. */
  lemma ExampleMapLink()
    ensures MapLinkTokens(Join(["https:", "", "www.google.com", "maps", "place", "Star1", "@31.771,35.214,15z"], "/"))
            == Some(("31.771", "35.214"))
  {
    var tokens := ["31.771", "35.214", "15z"];
    assert Join(tokens[2..], ",") == "15z";
    assert Join(tokens[1..], ",") == "35.214,15z";
    assert "@31.771,35.214,15z" == "@" + Join(tokens, ",");
    MapLinkRoundTrip(["https:", "", "www.google.com", "maps", "place", "Star1", "@31.771,35.214,15z"], tokens);
  }

  /** The map block carrying that sample link resolves to (31.771, 35.214)
      when `float` reads the two tokens as those numbers; the geocoder is
      not consulted. */
  lemma ExampleMapBlock(contents: seq<Node>, address: string, title: string,
                        lookup: GeoRequest -> GeoReply, parseNum: string -> Option<real>)
    requires parseNum("31.771") == Some(31.771) && parseNum("35.214") == Some(35.214)
    ensures var link := Join(["https:", "", "www.google.com", "maps", "place", "Star1", "@31.771,35.214,15z"], "/");
            ResolveCoordinates(Detail(contents, Some(Anchor(Some(link)))), address, title, lookup, parseNum)
            == Some(RawLatLng(Some(31.771), Some(35.214)))
  {
    ExampleMapLink();
  }

  /** The `Club` model's check of `lat_lng: Optional[Tuple[float, float]]`:
      a pair with a null part is rejected. */
  function ValidateLatLng(raw: Option<RawLatLng>): (r: Result<Option<LatLng>, ParseError>)
    ensures r.Failure? <==> raw.Some? && (raw.value.lat.None? || raw.value.lng.None?)
    ensures r.Success? ==> (r.value.Some? <==> raw.Some?)
    ensures r.Success? && r.value.Some? ==> raw == Some(RawLatLng(Some(r.value.value.lat), Some(r.value.value.lng)))
  {
    match raw
    case None => Success(None)
    case Some(RawLatLng(Some(lat), Some(lng))) => Success(Some(LatLng(lat, lng)))
    case Some(_) => Failure(InvalidLatLng)
  }

  // ---------------------------------------------------------------------
  // parse_club

  /** The anchors a page must have before any field is read. */
  predicate HasAnchors(page: Page)
  {
    && page.header.Some? && page.header.value.h1.Some?
    && page.logo.Some? && page.logo.value.img.Some?
    && page.about.Some?
    && |page.details| >= MinDetails
  }

  /** `parse_club(session, id)` once the page has been fetched and parsed;
      `now` is the clock reading that stamps the record. */
  function ParseClub(page: Page, id: int, lookup: GeoRequest -> GeoReply,
                     parseNum: string -> Option<real>, now: int): (r: Result<Club, ParseError>)
    // the checks, in the order the source makes them
    ensures page.header.None? ==> r == Failure(MissingHeader)
    ensures page.header.Some? && page.header.value.h1.None? ==> r == Failure(MissingTitle)
    ensures && page.header.Some? && page.header.value.h1.Some?
            && (page.logo.None? || page.logo.value.img.None?)
            ==> r == Failure(MissingLogo)
    ensures !HasAnchors(page) ==> r.Failure?
    ensures HasAnchors(page) && page.logo.value.img.value.src.None? ==> r == Failure(MissingLogoSrc)
    // every field of a decoded club comes from its fixed place on the page
    ensures r.Success? ==> HasAnchors(page) && page.logo.value.img.value.src.Some?
    ensures r.Success? ==>
              && r.value.id == id
              && r.value.latestTs == now
              && r.value.title == page.header.value.h1.value
              && r.value.logoUrl == BaseUrl + page.logo.value.img.value.src.value
              && r.value.about == page.about.value
    ensures r.Success? ==>
              && Decodable(page.details[PhoneBlock]) && r.value.phone == ValueOf(page.details[PhoneBlock])
              && Decodable(page.details[AddressBlock]) && r.value.address == ValueOf(page.details[AddressBlock])
              && Decodable(page.details[WebsiteBlock]) && r.value.website == ValueOf(page.details[WebsiteBlock])
    ensures r.Success? ==>
              && |r.value.tags| == |page.details| - FirstTagBlock
              && forall i :: FirstTagBlock <= i < |page.details| ==>
                   Decodable(page.details[i]) && r.value.tags[i - FirstTagBlock] == ValueOf(page.details[i])
  {
    match page.header
    case None => Failure(MissingHeader)
    case Some(header) =>
      match header.h1
      case None => Failure(MissingTitle)
      case Some(title) =>
        if page.logo.None? || page.logo.value.img.None? then Failure(MissingLogo)
        else
          match page.logo.value.img.value.src
          case None => Failure(MissingLogoSrc)
          case Some(src) =>
            match page.about
            case None => Failure(MissingAbout)
            case Some(about) =>
              if |page.details| < MinDetails then Failure(InsufficientDetails(|page.details|))
              else DecodeDetails(page.details, id, title, BaseUrl + src, about, lookup, parseNum, now)
  }

  /** `[format_bsf_object(x)[1] for x in club_details[11:]]`, stated in
      page indices. */
  function Tags(details: seq<Detail>): (r: Result<seq<string>, ParseError>)
    requires |details| >= FirstTagBlock
    ensures r.Success? <==> forall i :: FirstTagBlock <= i < |details| ==> Decodable(details[i])
    ensures r.Success? ==>
              && |r.value| == |details| - FirstTagBlock
              && forall i :: FirstTagBlock <= i < |details| ==> r.value[i - FirstTagBlock] == ValueOf(details[i])
  {
    var blocks := details[FirstTagBlock..];
    assert forall i :: FirstTagBlock <= i < |details| ==> blocks[i - FirstTagBlock] == details[i];
    Values(blocks, FirstTagBlock)
  }

  /** The second half of `parse_club`: the detail blocks of a page that has
      all its anchors, read in the order the source reads them. */
  function DecodeDetails(details: seq<Detail>, id: int, title: string, logoUrl: string, about: string,
                         lookup: GeoRequest -> GeoReply, parseNum: string -> Option<real>, now: int): (r: Result<Club, ParseError>)
    requires |details| >= MinDetails
    ensures r.Success? ==>
              && r.value.id == id && r.value.latestTs == now && r.value.title == title
              && r.value.logoUrl == logoUrl && r.value.about == about
    ensures r.Success? ==>
              && Decodable(details[PhoneBlock]) && r.value.phone == ValueOf(details[PhoneBlock])
              && Decodable(details[AddressBlock]) && r.value.address == ValueOf(details[AddressBlock])
              && Decodable(details[WebsiteBlock]) && r.value.website == ValueOf(details[WebsiteBlock])
    ensures r.Success? ==>
              && |r.value.tags| == |details| - FirstTagBlock
              && forall i :: FirstTagBlock <= i < |details| ==>
                   Decodable(details[i]) && r.value.tags[i - FirstTagBlock] == ValueOf(details[i])
  {
    var address :- Field(details, AddressBlock);
    var phone :- Field(details, PhoneBlock);
    var website :- Field(details, WebsiteBlock);
    var raw := ResolveCoordinates(details[MapBlock], address, title, lookup, parseNum);
    var tags :- Tags(details);
    var latLng :- ValidateLatLng(raw);
    Success(Club(id, title, latLng, address, phone, website, tags, logoUrl, about, now))
  }

  /** The structural half of the converse: a page with all anchors, a logo
      source, decodable field and tag blocks and a well-formed coordinate
      answer always yields a club. */
  lemma ParseClubSucceeds(page: Page, id: int, lookup: GeoRequest -> GeoReply,
                          parseNum: string -> Option<real>, now: int)
    requires HasAnchors(page) && page.logo.value.img.value.src.Some?
    requires Decodable(page.details[PhoneBlock]) && Decodable(page.details[AddressBlock])
    requires Decodable(page.details[WebsiteBlock])
    requires forall i :: FirstTagBlock <= i < |page.details| ==> Decodable(page.details[i])
    requires ValidateLatLng(ResolveCoordinates(page.details[MapBlock], ValueOf(page.details[AddressBlock]),
                                               page.header.value.h1.value, lookup, parseNum)).Success?
    ensures ParseClub(page, id, lookup, parseNum, now).Success?
  {
    var details := page.details;
    assert forall i :: 0 <= i < |details[FirstTagBlock..]| ==> details[FirstTagBlock..][i] == details[FirstTagBlock + i];
  }

  /** The coordinates of a decoded club are the primary ones when the link
      yields them, and otherwise the geocoder's answer (possibly none). */
  lemma ParseClubCoordinates(page: Page, id: int, lookup: GeoRequest -> GeoReply,
                             parseNum: string -> Option<real>, now: int)
    requires ParseClub(page, id, lookup, parseNum, now).Success?
    ensures var c := ParseClub(page, id, lookup, parseNum, now).value;
            var primary := PrimaryCoordinates(page.details[MapBlock], parseNum);
            && (primary.Some? ==> c.latLng == primary)
            && (primary.None? ==>
                  var found := FindAddress(c.address, Some(c.title), lookup);
                  (c.latLng.None? <==> found.None?) &&
                  (c.latLng.Some? ==> found == Some(RawLatLng(Some(c.latLng.value.lat), Some(c.latLng.value.lng)))))
  {
  }
}
