/** `extractParams`: what a results or hotel page reads from its URL. The path gives
    the city (`/travel/<city>`) or the hotel (`/hotel/<city>/<hotel>`); the query
    gives the dates and the traveler counts, with defaults for what is missing. */
module ExtractParams {
  import opened Types
  import opened Text
  import opened Seqs
  import opened Uri
  import opened Calendar

  // ---------------------------------------------------------------------------
  // The path
  // ---------------------------------------------------------------------------

  predicate NonEmpty(s: string) { s != [] }

  /** `pathname.split("/").filter(Boolean)`. */
  function PathParts(pathname: string): (r: seq<string>)
    ensures forall w :: w in r ==> w != [] && '/' !in w
  {
    SplitMembers(pathname, '/');
    Filter(Split(pathname, '/'), NonEmpty)
  }

  datatype PathParams = PathParams(pathCity: Option<string>, pathHotelName: Option<string>)

  /** `parts[i] ? decodeURIComponent(parts[i]) : null`; the decoding may throw. */
  function DecodedPart(parts: seq<string>, i: nat): Result<Option<string>> {
    if i < |parts| then
      match PercentDecode(parts[i])
      case Ok(v) => Ok(Some(v))
      case UriError => UriError
    else Ok(None)
  }

  /** `extractPathParams(pathname)`. */
  function ExtractPathParams(pathname: string): Result<PathParams> {
    var parts := PathParts(pathname);
    if |parts| > 0 && parts[0] == "travel" then
      match DecodedPart(parts, 1)
      case Ok(city) => Ok(PathParams(city, None))
      case UriError => UriError
    else if |parts| > 0 && parts[0] == "hotel" then
      match DecodedPart(parts, 2)
      case Ok(name) => Ok(PathParams(None, name))
      case UriError => UriError
    else Ok(PathParams(None, None))
  }

  /** Under `/travel` the city is the decoded second segment, when there is one, and
      there is no hotel name; a malformed escape in that segment is an error. */
  lemma TravelPath(pathname: string)
    requires var parts := PathParts(pathname); |parts| > 0 && parts[0] == "travel"
    ensures var parts, r := PathParts(pathname), ExtractPathParams(pathname);
      (r.UriError? <==> |parts| > 1 && PercentDecode(parts[1]).UriError?) &&
      (r.Ok? ==> r.value.pathHotelName == None &&
                 (r.value.pathCity.Some? <==> |parts| > 1) &&
                 (r.value.pathCity.Some? ==> PercentDecode(parts[1]) == Ok(r.value.pathCity.value)))
  {
  }

  /** Under `/hotel` the hotel name is the decoded third segment, when there is one,
      and the city stays null. */
  lemma HotelPath(pathname: string)
    requires var parts := PathParts(pathname); |parts| > 0 && parts[0] == "hotel"
    ensures var parts, r := PathParts(pathname), ExtractPathParams(pathname);
      (r.UriError? <==> |parts| > 2 && PercentDecode(parts[2]).UriError?) &&
      (r.Ok? ==> r.value.pathCity == None &&
                 (r.value.pathHotelName.Some? <==> |parts| > 2) &&
                 (r.value.pathHotelName.Some? ==> PercentDecode(parts[2]) == Ok(r.value.pathHotelName.value)))
  {
  }

  /** Any other first segment, and the root path, give neither. */
  lemma OtherPath(pathname: string)
    requires var parts := PathParts(pathname); |parts| == 0 || (parts[0] != "travel" && parts[0] != "hotel")
    ensures ExtractPathParams(pathname) == Ok(PathParams(None, None))
  {
  }

  /** The city and the hotel name are never both set. */
  lemma NeverBoth(pathname: string)
    ensures var r := ExtractPathParams(pathname);
      r.Ok? ==> r.value.pathCity.None? || r.value.pathHotelName.None?
  {
  }

  /** A slash in front adds one empty piece in front. */
  lemma SplitLeadingSlash(b: string)
    ensures Split(['/'] + b, '/') == [[]] + Split(b, '/')
  {
    assert ['/'] + b == [] + ['/'] + b;
    SplitAppend([], b, '/');
  }

  /** A slash at the end adds one empty piece at the end. */
  lemma SplitTrailingSlash(p: string)
    ensures Split(p + ['/'], '/') == Split(p, '/') + [[]]
  {
    assert p + ['/'] == p + ['/'] + [];
    SplitAppend(p, [], '/');
  }

  /** Empty pieces are dropped wherever they occur. */
  lemma FilterDropsEmpty(x: seq<string>, y: seq<string>)
    ensures Filter(x + [[]] + y, NonEmpty) == Filter(x + y, NonEmpty)
  {
    FilterAppend(x + [[]], y, NonEmpty);
    FilterAppend(x, [[]], NonEmpty);
    FilterAppend(x, y, NonEmpty);
  }

  /** A doubled slash reads as a single one. */
  lemma DoubledSlash(a: string, b: string)
    ensures PathParts(a + "//" + b) == PathParts(a + "/" + b)
  {
    var b' := ['/'] + b;
    assert a + "//" + b == a + ['/'] + b';
    assert a + "/" + b == a + ['/'] + b;
    SplitAppend(a, b', '/');
    SplitLeadingSlash(b);
    SplitAppend(a, b, '/');
    assert Split(a + "//" + b, '/') == Split(a, '/') + [[]] + Split(b, '/');
    FilterDropsEmpty(Split(a, '/'), Split(b, '/'));
  }

  /** A leading or a trailing slash changes nothing. */
  lemma OuterSlashes(p: string)
    ensures PathParts("/" + p) == PathParts(p)
    ensures PathParts(p + "/") == PathParts(p)
  {
    SplitLeadingSlash(p);
    FilterDropsEmpty([], Split(p, '/'));
    assert [] + [[]] + Split(p, '/') == [[]] + Split(p, '/');
    assert [] + Split(p, '/') == Split(p, '/');
    SplitTrailingSlash(p);
    FilterDropsEmpty(Split(p, '/'), []);
    assert Split(p, '/') + [[]] + [] == Split(p, '/') + [[]];
    assert Split(p, '/') + [] == Split(p, '/');
  }

  /** Segments written out as `/s1/s2/…` are read back as they were. */
  lemma {:induction false} PathPartsOfSegments(segs: seq<string>)
    requires forall w :: w in segs ==> w != [] && '/' !in w
    ensures PathParts(Join(segs, "/")) == segs
    decreases |segs|
  {
    if |segs| == 1 {
      SplitWithoutSeparator(segs[0], '/');
    } else if |segs| > 1 {
      var w, tail := segs[0], segs[1..];
      assert w in segs;
      assert forall v :: v in tail ==> v in segs;
      PathPartsOfSegments(tail);
      PathPartsStep(segs, w, tail);
    }
  }

  /** The inductive step: the parts of the tail and the first segment. */
  lemma PathPartsStep(segs: seq<string>, w: string, tail: seq<string>)
    requires |segs| > 1 && w == segs[0] && tail == segs[1..]
    requires w != [] && '/' !in w
    requires PathParts(Join(tail, "/")) == tail
    ensures PathParts(Join(segs, "/")) == segs
  {
    var rest := Join(tail, "/");
    assert Join(segs, "/") == w + "/" + rest;
    PathPartsCons(w, rest);
    assert [w] + tail == segs;
  }

  /** A first segment followed by a slash is read as that segment and the parts of
      what follows. */
  lemma PathPartsCons(w: string, rest: string)
    requires w != [] && '/' !in w
    ensures PathParts(w + "/" + rest) == [w] + PathParts(rest)
  {
    assert w + "/" + rest == w + ['/'] + rest;
    SplitCons(w, rest);
    FilterNonEmptyCons(w, Split(rest, '/'));
  }

  /** A piece without a slash, then a slash, splits off as one piece. */
  lemma SplitCons(w: string, rest: string)
    requires '/' !in w
    ensures Split(w + ['/'] + rest, '/') == [w] + Split(rest, '/')
  {
    SplitAppend(w, rest, '/');
    SplitWithoutSeparator(w, '/');
  }

  /** A non-empty first piece is kept. */
  lemma FilterNonEmptyCons(w: string, xs: seq<string>)
    requires w != []
    ensures Filter([w] + xs, NonEmpty) == [w] + Filter(xs, NonEmpty)
  {
    FilterAppend([w], xs, NonEmpty);
    assert [w][..0] == [];
  }

  // ---------------------------------------------------------------------------
  // The query
  // ---------------------------------------------------------------------------

  /** The decoded `name=value` pairs of a `URLSearchParams`, in order. */
  type QueryParams = seq<(string, string)>

  /** `params.has(k)`. */
  predicate Has(params: QueryParams, k: string) {
    exists i :: 0 <= i < |params| && params[i].0 == k
  }

  /** `params.get(k)`: the value of the first pair named `k`, or null. */
  function Get(params: QueryParams, k: string): (r: Option<string>)
    ensures r.Some? <==> Has(params, k)
    ensures r.Some? ==> exists i :: 0 <= i < |params| && params[i] == (k, r.value) &&
                                    forall j :: 0 <= j < i ==> params[j].0 != k
    decreases |params|
  {
    if params == [] then None
    else if params[0].0 == k then Some(params[0].1)
    else
      var r := Get(params[1..], k);
      if r.Some? then
        var i :| 0 <= i < |params[1..]| && params[1..][i] == (k, r.value) &&
                 forall j :: 0 <= j < i ==> params[1..][j].0 != k;
        assert params[i + 1] == (k, r.value);
        r
      else
        assert forall i :: 1 <= i < |params| ==> params[i] == params[1..][i - 1];
        r
  }

  /** A JavaScript number as far as this model follows `Number(...)`: an integer
      written in decimal, or something else (NaN, a fraction, an exponent or a hex
      literal), which is not computed. */
  datatype Numeric = Integer(value: int) | OtherNumber

  /** `Number(s)` on decimal integers: surrounding whitespace is ignored, the empty
      string is 0, and one leading sign is allowed. */
  function ToNumber(s: string): Numeric {
    var t := Trim(s);
    if IsDigitString(t) then Integer(DigitsValue(t))
    else if |t| > 1 && (t[0] == '-' || t[0] == '+') && IsDigitString(t[1..]) then
      var v: int := DigitsValue(t[1..]);
      Integer(if t[0] == '-' then -v else v)
    else OtherNumber
  }

  /** A string with no whitespace is its own trim. */
  lemma TrimNoWhitespace(s: string)
    requires NoWhitespace(s)
    ensures Trim(s) == s
  {
  }

  /** Reading back a printed integer gives the integer. */
  lemma ToNumberOfIntToString(n: int)
    ensures ToNumber(IntToString(n)) == Integer(n)
  {
    var d := NatToString(if n < 0 then -n else n);
    DigitsValueOfNatToString(if n < 0 then -n else n);
    var s := IntToString(n);
    assert NoWhitespace(s) by {
      forall i | 0 <= i < |s| ensures !IsWhitespace(s[i]) {
        if n < 0 && i > 0 {
          assert s[i] == d[i - 1];
        }
      }
    }
    TrimNoWhitespace(s);
    if n < 0 {
      assert s[1..] == d;
      assert !IsDigitString(s) by { assert s[0] == '-'; }
    }
  }

  /** `params.has(k) ? Number(params.get(k)) : default`. */
  function CountParam(params: QueryParams, k: string, default: int): (r: Numeric)
    ensures !Has(params, k) ==> r == Integer(default)
    ensures Has(params, k) ==> r == ToNumber(Get(params, k).value)
  {
    if Has(params, k) then ToNumber(Get(params, k).value) else Integer(default)
  }

  // ---------------------------------------------------------------------------
  // The dates
  // ---------------------------------------------------------------------------

  /** `convertToDate(value, isCheckout)` on instants; `parse` stands for
      `new Date(value)` and gives None for an Invalid Date. */
  function ConvertToDate(value: Option<string>, isCheckout: bool, parse: string -> Option<int>,
                         nextFriday: int, nextSunday: int): Option<int>
  {
    if value.None? || value.value == "" then Some(if isCheckout then nextSunday else nextFriday)
    else
      match parse(value.value)
      case None => None
      case Some(t) => Some(if isCheckout then SetTime(t, 23, 59, 59, Millis(t)) else t)
  }

  /** A missing or empty value gives the default. */
  lemma ConvertToDateMissing(value: Option<string>, isCheckout: bool, parse: string -> Option<int>,
                             nextFriday: int, nextSunday: int)
    requires value.None? || value.value == ""
    ensures ConvertToDate(value, isCheckout, parse, nextFriday, nextSunday) ==
      Some(if isCheckout then nextSunday else nextFriday)
  {
  }

  /** A value that is present but does not parse gives null, not the default. */
  lemma ConvertToDateInvalid(value: Option<string>, isCheckout: bool, parse: string -> Option<int>,
                             nextFriday: int, nextSunday: int)
    requires value.Some? && value.value != "" && parse(value.value).None?
    ensures ConvertToDate(value, isCheckout, parse, nextFriday, nextSunday).None?
  {
  }

  /** A parsed check-in is kept as it is; a parsed checkout is moved to 23:59:59 on
      its own day, keeping its milliseconds. */
  lemma ConvertToDateParsed(value: Option<string>, isCheckout: bool, parse: string -> Option<int>,
                            nextFriday: int, nextSunday: int)
    requires value.Some? && value.value != "" && parse(value.value).Some?
    ensures var t, r := parse(value.value).value, ConvertToDate(value, isCheckout, parse, nextFriday, nextSunday);
      r.Some? &&
      (!isCheckout ==> r.value == t) &&
      (isCheckout ==> Day(r.value) == Day(t) && TimeOfDay(r.value) == 86399000 + Millis(t))
  {
    var t := parse(value.value).value;
    SetTimeFacts(t, 23, 59, 59, Millis(t));
  }

  /** The same on `Date` objects: a missing value gives back the default object
      itself, an unparseable one null, and otherwise a new object, whose time is
      set in place for a checkout. */
  method ConvertToDateObject(value: Option<string>, isCheckout: bool, parse: string -> Option<int>,
                             nextFriday: JsDate, nextSunday: JsDate) returns (d: JsDate?)
    ensures (value.None? || value.value == "") ==> d == (if isCheckout then nextSunday else nextFriday)
    ensures (value.Some? && value.value != "") ==> d == null || fresh(d)
    ensures var r := ConvertToDate(value, isCheckout, parse, nextFriday.time, nextSunday.time);
      (d == null <==> r.None?) && (d != null ==> d.time == r.value)
  {
    if value.None? || value.value == "" {
      return if isCheckout then nextSunday else nextFriday;
    }
    var parsed := parse(value.value);
    if parsed.None? {
      return null;
    }
    d := new JsDate(parsed.value);
    if isCheckout {
      d.SetHoursKeepMillis(23, 59, 59);
    }
  }

  // ---------------------------------------------------------------------------
  // The whole extraction
  // ---------------------------------------------------------------------------

  /** The record `extractParams` returns; dates are instants. */
  datatype SearchParams = SearchParams(
    pathCity: Option<string>,
    pathHotelName: Option<string>,
    searchCheckIn: Option<int>,
    searchCheckOut: Option<int>,
    searchAdults: Numeric,
    searchChildren: Numeric)

  function TimeOf(d: JsDate?): Option<int>
    reads d
  {
    if d == null then None else Some(d.time)
  }

  /** `extractParams(params)` with "now" and the page's pathname passed in. The
      result starts from the defaults and has every field overwritten; a malformed
      escape in the path propagates as an error. */
  method ExtractParams(params: QueryParams, pathname: string, today: int, parse: string -> Option<int>)
    returns (res: Result<SearchParams>)
    ensures res.UriError? <==> ExtractPathParams(pathname).UriError?
    ensures res.Ok? ==>
      var r, path := res.value, ExtractPathParams(pathname).value;
      r.pathCity == path.pathCity && r.pathHotelName == path.pathHotelName &&
      r.searchCheckIn == ConvertToDate(Get(params, "checkin"), false, parse, DefaultCheckIn(today), DefaultCheckOut(today)) &&
      r.searchCheckOut == ConvertToDate(Get(params, "checkout"), true, parse, DefaultCheckIn(today), DefaultCheckOut(today)) &&
      r.searchAdults == CountParam(params, "adults", 1) &&
      r.searchChildren == CountParam(params, "children", 0)
  {
    var r := SearchParams(None, None, None, None, Integer(1), Integer(0));
    var nextFriday, nextSunday := ComputeDefaults(today);
    var checkIn := ConvertToDateObject(Get(params, "checkin"), false, parse, nextFriday, nextSunday);
    var checkOut := ConvertToDateObject(Get(params, "checkout"), true, parse, nextFriday, nextSunday);
    var adults := if Has(params, "adults") then ToNumber(Get(params, "adults").value) else Integer(1);
    var children := if Has(params, "children") then ToNumber(Get(params, "children").value) else Integer(0);
    var path := ExtractPathParams(pathname);
    if path.UriError? {
      return UriError;
    }
    r := r.(pathCity := path.value.pathCity, pathHotelName := path.value.pathHotelName);
    r := r.(searchCheckIn := TimeOf(checkIn), searchCheckOut := TimeOf(checkOut));
    r := r.(searchAdults := adults, searchChildren := children);
    res := Ok(r);
  }

  /** With no traveler parameters the counts are one adult and no children. */
  lemma CountDefaults(params: QueryParams)
    requires !Has(params, "adults") && !Has(params, "children")
    ensures CountParam(params, "adults", 1) == Integer(1) && CountParam(params, "children", 0) == Integer(0)
  {
  }

  /** A count written as `k=<n>` as the first `k` pair is read back as `n`. */
  lemma CountRoundTrip(params: QueryParams, k: string, n: int, default: int)
    requires params != [] && params[0] == (k, IntToString(n))
    ensures CountParam(params, k, default) == Integer(n)
  {
    assert Has(params, k) by { assert params[0].0 == k; }
    ToNumberOfIntToString(n);
  }
}
