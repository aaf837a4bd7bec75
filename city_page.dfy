/** The city results page (src/pages/CityResults.tsx): it reads the city from the
    last path segment, lists the hotels of exactly that city, and links each hotel
    to its page, carrying the search parameters along. */
module CityPage {
  import opened Types
  import opened Text
  import opened Seqs
  import opened Uri
  import opened UrlFormat
  import opened UrlDecode
  import opened ExtractParams

  // ---------------------------------------------------------------------------
  // The city
  // ---------------------------------------------------------------------------

  /** `location.pathname.split("/").pop() || "unknown"`. */
  function RawCity(pathname: string): (r: string)
    ensures r != [] && '/' !in r
  {
    var parts := Split(pathname, '/');
    SplitMembers(pathname, '/');
    var last := parts[|parts| - 1];
    assert last in parts;
    if last == "" then "unknown" else last
  }

  /** The city shown on the page: the raw city through `decodeUrlString`, which
      throws on a malformed escape. */
  function PageCity(pathname: string): Result<string> {
    DecodeUrlString(RawCity(pathname))
  }

  /** A path ending in a slash names the city `"unknown"`. */
  lemma TrailingSlashIsUnknown(p: string)
    ensures RawCity(p + "/") == "unknown"
  {
    SplitTrailingSlash(p);
  }

  /** The raw city is whatever follows the last slash. */
  lemma RawCityIsLastSegment(p: string, city: string)
    requires city != [] && '/' !in city
    ensures RawCity(p + "/" + city) == city
  {
    assert p + "/" + city == p + ['/'] + city;
    SplitAppend(p, city, '/');
    SplitWithoutSeparator(city, '/');
  }

  /** No `/` and at least the first word's length: what joining keeps. */
  lemma {:induction false} JoinAvoids(ws: seq<string>, glue: string, c: char)
    requires c !in glue && forall i :: 0 <= i < |ws| ==> c !in ws[i]
    ensures c !in Join(ws, glue)
    ensures |ws| > 0 ==> |Join(ws, glue)| >= |ws[0]|
    decreases |ws|
  {
    if |ws| > 1 {
      JoinAvoids(ws[1..], glue, c);
    }
  }

  /** The page of a city reached through its slug shows that city again: for a city
      of title-case words joined by spaces, or by hyphens, the slug has no slash and
      `decodeUrlString` gives the name back. */
  lemma CityPageRoundTrip(p: string, words: seq<string>, sep: char)
    requires |words| > 0 && forall i :: 0 <= i < |words| ==> TitleWord(words[i])
    requires sep == ' ' || sep == '-'
    ensures PageCity(p + "/" + FormatStringForUrl(Join(words, [sep]))) == Ok(Join(words, [sep]))
  {
    FormatCity(words, sep);
    CapitalizeLowerWords(words);
    SlugHasNoSlash(LowerAll(words), sep);
    RawCityIsLastSegment(p, FormatStringForUrl(Join(words, [sep])));
    DecodeFormatRoundTrip(words, sep);
  }

  /** A slug of lower-case words is non-empty and free of slashes. */
  lemma SlugHasNoSlash(lw: seq<string>, sep: char)
    requires |lw| > 0 && AllLowerWords(lw)
    ensures Slug(lw, sep) != [] && '/' !in Slug(lw, sep)
  {
    forall i | 0 <= i < |lw| ensures '/' !in lw[i] {
      assert LowerWord(lw[i]);
    }
    JoinAvoids(lw, if sep == ' ' then "%20" else "-", '/');
  }

  // ---------------------------------------------------------------------------
  // The hotels of the city
  // ---------------------------------------------------------------------------

  function InCity(city: string): Hotel -> bool {
    (h: Hotel) => h.city == city
  }

  /** `hotelData.filter(hotel => hotel.city === city)`: an exact, case-sensitive
      comparison. */
  function HotelsInCity(hotels: seq<Hotel>, city: string): (r: seq<Hotel>)
    ensures forall h :: h in r <==> h in hotels && h.city == city
  {
    Filter(hotels, InCity(city))
  }

  /** The two views of the page. */
  datatype PageView = NotFound(city: string) | Listing(city: string, hotels: seq<Hotel>, heading: string)

  /** Which view the page renders for a decoded city. */
  function Render(hotels: seq<Hotel>, city: string): PageView {
    var inCity := HotelsInCity(hotels, city);
    if |inCity| == 0 then NotFound(city) else Listing(city, inCity, CountHeading(|inCity|))
  }

  /** The "No Hotels Found" view is shown exactly when no hotel of the data has that
      city; otherwise the listing holds every hotel of the city. */
  lemma NotFoundIffNoHotel(hotels: seq<Hotel>, city: string)
    ensures Render(hotels, city).NotFound? <==> forall h :: h in hotels ==> h.city != city
    ensures Render(hotels, city).Listing? ==>
      forall h :: h in Render(hotels, city).hotels <==> h in hotels && h.city == city
  {
    var inCity := HotelsInCity(hotels, city);
    if |inCity| > 0 {
      assert inCity[0] in inCity;
    }
  }

  /** The heading above the list, with the line break and indentation the template
      literal holds. */
  function CountHeading(n: int): string {
    IntToString(n) + " " + (if n > 1 then "hotels" else "hotel") + "\n          found"
  }

  /** The heading starts with the count and says `hotels` exactly when there is more
      than one. */
  lemma CountHeadingPlural(n: nat)
    ensures var t := CountHeading(n);
      t[..|NatToString(n)|] == NatToString(n) &&
      t[|NatToString(n)| + 1..|NatToString(n)| + 6] == "hotel" &&
      (t[|NatToString(n)| + 6] == 's' <==> n > 1)
  {
  }

  // ---------------------------------------------------------------------------
  // The hotel link
  // ---------------------------------------------------------------------------

  /** One `key=value&` piece; a parameter with an empty value adds nothing. */
  function Entry(p: (string, string)): string {
    if p.1 != "" then Pair(p) else ""
  }

  /** `${key}=${value}&`. */
  function Pair(p: (string, string)): string {
    p.0 + "=" + p.1 + "&"
  }

  /** `start` with the piece of each parameter appended at the end, one parameter
      at a time, as the loop over `searchParams.entries()` does. */
  function Grown(start: string, params: QueryParams): (r: string)
    ensures |r| >= |start| && r[..|start|] == start
    ensures r == start || r[|r| - 1] == '&'
    decreases |params|
  {
    if params == [] then start
    else Grown(start, params[..|params| - 1]) + Entry(params[|params| - 1])
  }

  /** What the loop appends after the `?`. */
  function ParamSuffix(params: QueryParams): string {
    Grown("", params)
  }

  /** `/hotel/{slug(city)}/{slug(name)}?` followed by the parameters. */
  function HotelUrl(city: string, name: string, params: QueryParams): string {
    Grown("/hotel/" + FormatStringForUrl(city) + "/" + FormatStringForUrl(name) + "?", params)
  }

  /** The link is its path followed by the parameter part. */
  lemma {:induction false} GrownFrom(start: string, params: QueryParams)
    ensures Grown(start, params) == start + ParamSuffix(params)
    decreases |params|
  {
    if params != [] {
      var init, last := params[..|params| - 1], params[|params| - 1];
      GrownFrom(start, init);
      assert start + (ParamSuffix(init) + Entry(last)) == (start + ParamSuffix(init)) + Entry(last);
    }
  }

  /** The link built the way `generateListItem` does it: a string grown by a loop. */
  method BuildHotelUrl(city: string, hotel: Hotel, searchParams: QueryParams) returns (hotelUrl: string)
    ensures hotelUrl == HotelUrl(city, hotel.name, searchParams)
  {
    var formattedCity := FormatStringForUrl(city);
    var formattedName := FormatStringForUrl(hotel.name);
    hotelUrl := "/hotel/" + formattedCity + "/" + formattedName + "?";
    ghost var start := hotelUrl;
    var i := 0;
    while i < |searchParams|
      invariant 0 <= i <= |searchParams|
      invariant hotelUrl == Grown(start, searchParams[..i])
    {
      var (key, value) := searchParams[i];
      assert searchParams[..i + 1][..i] == searchParams[..i];
      if value != "" {
        hotelUrl := hotelUrl + (key + "=" + value + "&");
      }
      i := i + 1;
    }
    assert searchParams[..i] == searchParams;
  }

  /** The link always ends with `?` or `&`. */
  lemma HotelUrlEnds(city: string, name: string, params: QueryParams)
    ensures var u := HotelUrl(city, name, params); u[|u| - 1] == '?' || u[|u| - 1] == '&'
  {
  }

  predicate HasValue(p: (string, string)) { p.1 != "" }

  function HasValueTest(): ((string, string)) -> bool {
    p => HasValue(p)
  }

  /** Every piece written out, with no test on the value. */
  function AllEntries(params: QueryParams): string
    decreases |params|
  {
    if params == [] then ""
    else AllEntries(params[..|params| - 1]) + Pair(params[|params| - 1])
  }

  /** The suffix lists exactly the parameters with a non-empty value, in order: the
      empty ones never appear. */
  lemma {:induction false} ParamSuffixSkipsEmpty(params: QueryParams)
    ensures ParamSuffix(params) == AllEntries(Filter(params, HasValueTest()))
    decreases |params|
  {
    if params != [] {
      var init, last := params[..|params| - 1], params[|params| - 1];
      ParamSuffixSkipsEmpty(init);
      var f := Filter(init, HasValueTest());
      if HasValue(last) {
        var g := f + [last];
        assert Filter(params, HasValueTest()) == g;
        assert g[..|g| - 1] == f && g[|g| - 1] == last;
        assert AllEntries(g) == AllEntries(f) + Pair(last);
      } else {
        assert Filter(params, HasValueTest()) == f;
      }
    }
  }

  /** The hotel page reads its name back from the link: the path in front of the
      `?` has the parts `hotel`, the city slug and the name slug, so parameter
      extraction decodes the name slug, when both slugs are non-empty and free of
      slashes. */
  lemma HotelLinkPath(city: string, name: string, path: string)
    requires path == "/hotel/" + FormatStringForUrl(city) + "/" + FormatStringForUrl(name)
    requires var c, n := FormatStringForUrl(city), FormatStringForUrl(name);
      c != [] && n != [] && '/' !in c && '/' !in n
    ensures PathParts(path) == ["hotel", FormatStringForUrl(city), FormatStringForUrl(name)]
    ensures ExtractPathParams(path) == (match PercentDecode(FormatStringForUrl(name))
                                        case Ok(v) => Ok(PathParams(None, Some(v)))
                                        case UriError => UriError)
  {
    var c, n := FormatStringForUrl(city), FormatStringForUrl(name);
    HotelSegments(path, c, n);
    HotelPath(path);
  }

  lemma HotelSegments(path: string, c: string, n: string)
    requires path == "/hotel/" + c + "/" + n
    requires c != [] && n != [] && '/' !in c && '/' !in n
    ensures PathParts(path) == ["hotel", c, n]
  {
    var h := "hotel";
    ThreeSegments(h, c, n);
    assert "/" + h + "/" + c + "/" + n == path;
  }

  /** `/a/b/c` has the parts `a`, `b` and `c`. */
  lemma ThreeSegments(a: string, b: string, c: string)
    requires a != [] && b != [] && c != [] && '/' !in a && '/' !in b && '/' !in c
    ensures PathParts("/" + a + "/" + b + "/" + c) == [a, b, c]
  {
    var segs := [a, b, c];
    assert Join(segs[1..], "/") == b + "/" + c by {
      assert segs[1..][1..] == [c];
    }
    assert Join(segs, "/") == a + "/" + b + "/" + c;
    PathPartsOfSegments(segs);
    OuterSlashes(a + "/" + b + "/" + c);
    assert "/" + (a + "/" + b + "/" + c) == "/" + a + "/" + b + "/" + c;
  }
}
