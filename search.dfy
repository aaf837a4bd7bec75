/** The search widget (src/components/Search/Search.tsx): a text field that filters
    the hotel list as the user types and offers matching cities, a dates field and
    a travelers field that open as popovers, and a submit button that builds the
    URL of a results or hotel page. The component's `useState` variables are the
    fields of `SearchWidget`; its handlers are the methods. */
module Search {
  import opened Types
  import opened Text
  import opened Seqs
  import opened Calendar
  import opened Travelers
  import opened DatesSection

  // ---------------------------------------------------------------------------
  // Filtering hotels
  // ---------------------------------------------------------------------------

  /** The hotel filter of `handleSearch`: the lower-cased input occurs in the
      lower-cased name, city, or `"name, city"`. */
  predicate HotelMatches(q: string, h: Hotel) {
    var lq := Lower(q);
    Contains(Lower(h.name), lq) || Contains(Lower(h.city), lq) ||
    Contains(Lower(h.name + ", " + h.city), lq)
  }

  function Matcher(q: string): Hotel -> bool {
    h => HotelMatches(q, h)
  }

  /** `hotelData.filter(...)`: the matching hotels in data order. */
  function SearchResults(hotels: seq<Hotel>, q: string): (r: seq<Hotel>)
    ensures forall h :: h in r <==> h in hotels && HotelMatches(q, h)
  {
    Filter(hotels, Matcher(q))
  }

  /** The combined `"name, city"` test alone decides a match: a match on the name
      or on the city is also a match on the combination. */
  lemma MatchIsComboMatch(q: string, h: Hotel)
    ensures HotelMatches(q, h) <==> Contains(Lower(h.name + ", " + h.city), Lower(q))
  {
    var lq := Lower(q);
    LowerAppend(h.name + ", ", h.city);
    LowerAppend(h.name, ", ");
    if Contains(Lower(h.name), lq) {
      ContainsInLeft(Lower(h.name), Lower(", "), lq);
      ContainsInLeft(Lower(h.name) + Lower(", "), Lower(h.city), lq);
    }
    if Contains(Lower(h.city), lq) {
      ContainsInRight(Lower(h.name + ", "), Lower(h.city), lq);
    }
  }

  /** An empty input matches every hotel. */
  lemma EmptyQueryMatchesAll(hotels: seq<Hotel>)
    ensures SearchResults(hotels, "") == hotels
  {
    forall h | h in hotels ensures HotelMatches("", h) {
      ContainsEmpty(Lower(h.city));
    }
    FilterAll(hotels, Matcher(""));
  }

  // ---------------------------------------------------------------------------
  // City suggestions
  // ---------------------------------------------------------------------------

  /** One entry of the memoised `allCities` list. */
  datatype CityData = CityData(name: string, lowerCase: string)

  /** `hotelData.map(hotel => ({ name: hotel.city, lowerCase: hotel.city.toLowerCase() }))`. */
  function AllCities(hotels: seq<Hotel>): (r: seq<CityData>)
    ensures |r| == |hotels|
    ensures forall i :: 0 <= i < |r| ==> r[i].name == hotels[i].city && r[i].lowerCase == Lower(hotels[i].city)
  {
    seq(|hotels|, i requires 0 <= i < |hotels| => CityData(hotels[i].city, Lower(hotels[i].city)))
  }

  predicate CityMatch(q: string, c: CityData) {
    Contains(c.lowerCase, Lower(q))
  }

  function Names(m: seq<CityData>): set<string> {
    set i | 0 <= i < |m| :: m[i].name
  }

  /** The names of the matching cities of a list. */
  ghost function MatchedNames(cities: seq<CityData>, q: string): set<string> {
    set c | c in cities && CityMatch(q, c) :: c.name
  }

  lemma MatchedNamesSnoc(init: seq<CityData>, c: CityData, q: string)
    ensures MatchedNames(init + [c], q) ==
      MatchedNames(init, q) + (if CityMatch(q, c) then {c.name} else {})
  {
    assert forall x :: x in init + [c] <==> x in init || x == c;
  }

  lemma NamesSnoc(m: seq<CityData>, c: CityData)
    ensures Names(m + [c]) == Names(m) + {c.name}
  {
    assert forall i :: 0 <= i < |m| ==> (m + [c])[i] == m[i];
    assert (m + [c])[|m|] == c;
  }

  /** What the suggestion list promises for a list of cities. */
  ghost predicate Suggests(r: seq<CityData>, cities: seq<CityData>, q: string) {
    (forall c :: c in r ==> c in cities && CityMatch(q, c)) &&
    (forall i, j :: 0 <= i < j < |r| ==> r[i].name != r[j].name) &&
    Names(r) == MatchedNames(cities, q)
  }

  /** One more city: added when it matches and its name is new. */
  lemma SuggestsSnoc(m: seq<CityData>, init: seq<CityData>, c: CityData, q: string)
    requires Suggests(m, init, q)
    ensures Suggests(if CityMatch(q, c) && c.name !in Names(m) then m + [c] else m, init + [c], q)
  {
    MatchedNamesSnoc(init, c, q);
    if CityMatch(q, c) && c.name !in Names(m) {
      SuggestsAdd(m, init, c, q);
    } else {
      assert forall x :: x in init ==> x in init + [c];
    }
  }

  lemma SuggestsAdd(m: seq<CityData>, init: seq<CityData>, c: CityData, q: string)
    requires Suggests(m, init, q) && CityMatch(q, c) && c.name !in Names(m)
    requires MatchedNames(init + [c], q) == MatchedNames(init, q) + {c.name}
    ensures Suggests(m + [c], init + [c], q)
  {
    NamesSnoc(m, c);
    var r := m + [c];
    assert forall x :: x in r ==> x in m || x == c;
    assert forall x :: x in init ==> x in init + [c];
    forall i, j | 0 <= i < j < |r| ensures r[i].name != r[j].name {
      assert r[i] == m[i];
      if j == |m| {
        assert m[i].name in Names(m);
      } else {
        assert r[j] == m[j];
      }
    }
  }

  /** The cities of the `forEach` loop in `handleSearch`: each matching city once,
      at its first occurrence, in list order. */
  function CityMatches(cities: seq<CityData>, q: string): (r: seq<CityData>)
    ensures forall c :: c in r ==> c in cities && CityMatch(q, c)
    ensures forall i, j :: 0 <= i < j < |r| ==> r[i].name != r[j].name
    ensures Names(r) == MatchedNames(cities, q)
    decreases |cities|
  {
    if cities == [] then []
    else
      var init, c := cities[..|cities| - 1], cities[|cities| - 1];
      var m := CityMatches(init, q);
      assert cities == init + [c];
      SuggestsSnoc(m, init, c, q);
      if CityMatch(q, c) && c.name !in Names(m) then m + [c] else m
  }

  /** The suggestions keep the order of the city list. */
  lemma {:induction false} CityMatchesInOrder(cities: seq<CityData>, q: string)
    ensures Subsequence(CityMatches(cities, q), cities)
    decreases |cities|
  {
    if cities != [] {
      var init := cities[..|cities| - 1];
      var c := cities[|cities| - 1];
      assert init + [c] == cities;
      CityMatchesInOrder(init, q);
      var m := CityMatches(init, q);
      if CityMatch(q, c) && c.name !in Names(m) {
        SubsequenceBoth(m, init, c);
      } else {
        SubsequenceExtend(m, init, c);
      }
    }
  }

  /** Every suggested city is the city of a hotel in the results. */
  lemma CityMatchesHaveHotels(hotels: seq<Hotel>, q: string)
    ensures forall c :: c in CityMatches(AllCities(hotels), q) ==>
      exists h :: h in SearchResults(hotels, q) && h.city == c.name
  {
    var all := AllCities(hotels);
    forall c | c in CityMatches(all, q)
      ensures exists h :: h in SearchResults(hotels, q) && h.city == c.name
    {
      var i :| 0 <= i < |all| && all[i] == c;
      var h := hotels[i];
      assert HotelMatches(q, h);
      assert h in SearchResults(hotels, q);
    }
  }

  /** The loop itself: a `Map` records the names already taken. */
  method FindCityMatches(cities: seq<CityData>, q: string) returns (matches: seq<CityData>)
    ensures matches == CityMatches(cities, q)
  {
    matches := [];
    var seen: map<string, bool> := map[];
    var i := 0;
    while i < |cities|
      invariant 0 <= i <= |cities|
      invariant matches == CityMatches(cities[..i], q)
      invariant seen.Keys == Names(matches)
    {
      var city := cities[i];
      assert cities[..i + 1][..i] == cities[..i];
      if Contains(city.lowerCase, Lower(q)) && city.name !in seen {
        seen := seen[city.name := true];
        matches := matches + [city];
      }
      i := i + 1;
    }
    assert cities[..i] == cities;
  }

  // ---------------------------------------------------------------------------
  // The submit URL
  // ---------------------------------------------------------------------------

  predicate IsComma(c: char) { c == ',' }
  predicate NotComma(c: char) { c != ',' }

  /** `.replace(/\s/g, "-").replace(/,/g, "")`: each whitespace character becomes a
      hyphen and commas are dropped. */
  function UrlText(s: string): (r: string)
    ensures NoWhitespace(r) && ',' !in r
  {
    var t := ReplaceEach(s, IsWhitespace, '-');
    var r := KeepOnly(t, NotComma);
    KeepOnlyMembers(t, NotComma);
    assert forall i :: 0 <= i < |r| ==> r[i] in t;
    r
  }

  /** Text without whitespace or commas is left as it is. */
  lemma UrlTextOfPlain(s: string)
    requires NoWhitespace(s) && ',' !in s
    ensures UrlText(s) == s
  {
    assert ReplaceEach(s, IsWhitespace, '-') == s;
    KeepOnlyAll(s, NotComma);
  }

  /** Formatting text that is already formatted changes nothing. */
  lemma UrlTextIdempotent(s: string)
    ensures UrlText(UrlText(s)) == UrlText(s)
  {
    UrlTextOfPlain(UrlText(s));
  }

  /** The query part shared by both URL shapes. */
  function Query(checkIn: string, checkOut: string, adults: int, children: int): string {
    "?checkin=" + checkIn + "&checkout=" + checkOut +
    "&adults=" + IntToString(adults) + "&children=" + IntToString(children)
  }

  /** A prop or state value counts as given when it is truthy: a non-empty string,
      a non-zero number. */
  predicate GivenText(s: Option<string>) { s.Some? && s.value != "" }
  predicate GivenCount(n: Option<int>) { n.Some? && n.value != 0 }

  /** What a submit produces: the "select a destination" error or a page URL. */
  datatype Submission = MissingDestination | Navigate(url: string)

  /** The URL of `handleSubmit`, from the selections, the formatted dates and the
      counts; an empty city name is falsy and counts as no selection. */
  function SubmitUrl(hotel: Option<Hotel>, city: Option<string>, checkIn: string, checkOut: string,
                     adults: int, children: int): Submission
  {
    if hotel.None? && !GivenText(city) then MissingDestination
    else
      var q := Query(UrlText(checkIn), UrlText(checkOut), adults, children);
      if hotel.Some? then Navigate("/hotel/" + hotel.value.city + "/" + UrlText(hotel.value.name) + q)
      else Navigate("/travel/" + city.value + q)
  }

  /** A submit is refused exactly when nothing is selected; with a hotel selected it
      names the hotel page, otherwise the city page. */
  lemma SubmitUrlShape(hotel: Option<Hotel>, city: Option<string>, checkIn: string, checkOut: string,
                       adults: int, children: int)
    ensures var s := SubmitUrl(hotel, city, checkIn, checkOut, adults, children);
      (s.MissingDestination? <==> hotel.None? && !GivenText(city)) &&
      (hotel.Some? ==> s.url[..|"/hotel/"|] == "/hotel/") &&
      (hotel.None? && GivenText(city) ==> s.url[..|"/travel/"|] == "/travel/")
  {
  }

  // ---------------------------------------------------------------------------
  // The widget
  // ---------------------------------------------------------------------------

  /** What the calendar hands to `handleDateChange`: one date, or a range given as
      the array the calendar passes (which the handler may change in place). */
  datatype CalendarValue = Single(date: Option<int>) | Range(dates: array<Option<int>>)

  class SearchWidget {
    const hotelData: seq<Hotel>
    const allCities: seq<CityData>

    var adultsCount: int
    var childrenCount: int
    var checkInDate: Option<int>
    var checkOutDate: Option<int>
    var citySearchMatches: seq<CityData>
    var forceSearchResultsClosed: bool
    var searchResults: seq<Hotel>
    var searchHotelSelection: Option<Hotel>
    var searchCitySelection: Option<string>
    var searchInput: string
    var showSearchError: bool
    var showCalendars: bool
    var showTravelersInputs: bool

    /** At most one destination is selected and at most one popover is open. */
    predicate Valid()
      reads this
    {
      allCities == AllCities(hotelData) &&
      !(searchHotelSelection.Some? && searchCitySelection.Some?) &&
      !(showCalendars && showTravelersInputs)
    }

    /** The first render: the `useState` defaults, then the mount effect's default
        dates, then the initial values that were given. */
    constructor (hotels: seq<Hotel>, today: int, initialCityValue: Option<string>,
                 initialCheckInDate: Option<int>, initialCheckOutDate: Option<int>,
                 initialAdultsCount: Option<int>, initialChildrenCount: Option<int>)
      ensures Valid() && hotelData == hotels
      ensures searchInput == (if GivenText(initialCityValue) then initialCityValue.value else "")
      ensures searchCitySelection == (if GivenText(initialCityValue) then initialCityValue else None)
      ensures searchHotelSelection == None
      ensures checkInDate == (if initialCheckInDate.Some? then initialCheckInDate else Some(DefaultCheckIn(today)))
      ensures checkOutDate == (if initialCheckOutDate.Some? then initialCheckOutDate else Some(DefaultCheckOut(today)))
      ensures adultsCount == (if GivenCount(initialAdultsCount) then initialAdultsCount.value else 1)
      ensures childrenCount == (if GivenCount(initialChildrenCount) then initialChildrenCount.value else 0)
      ensures citySearchMatches == [] && searchResults == []
      ensures !forceSearchResultsClosed && !showSearchError && !showCalendars && !showTravelersInputs
    {
      var nextFriday, nextSunday := ComputeDefaults(today);
      var input, citySelection := "", None;
      var checkIn, checkOut := Some(nextFriday.time), Some(nextSunday.time);
      var adults, children := 1, 0;
      if GivenText(initialCityValue) {
        input := initialCityValue.value;
        citySelection := initialCityValue;
      }
      if initialCheckInDate.Some? {
        checkIn := initialCheckInDate;
      }
      if initialCheckOutDate.Some? {
        checkOut := initialCheckOutDate;
      }
      if GivenCount(initialAdultsCount) {
        adults := initialAdultsCount.value;
      }
      if GivenCount(initialChildrenCount) {
        children := initialChildrenCount.value;
      }
      hotelData := hotels;
      allCities := AllCities(hotels);
      adultsCount, childrenCount := adults, children;
      checkInDate, checkOutDate := checkIn, checkOut;
      citySearchMatches, searchResults := [], [];
      forceSearchResultsClosed := false;
      searchHotelSelection, searchCitySelection := None, citySelection;
      searchInput := input;
      showSearchError, showCalendars, showTravelersInputs := false, false, false;
    }

    /** The dropdown of `generateSearchResults` is shown. */
    predicate ResultsVisible()
      reads this
    {
      !forceSearchResultsClosed && |searchResults| > 0 && |searchInput| >= 3
    }

    /** `handleSearch`: a keystroke stores the text, reopens the dropdown, and
        recomputes the results and the city suggestions. */
    method HandleSearch(value: string)
      requires Valid()
      modifies this
      ensures Valid()
      ensures searchInput == value && !forceSearchResultsClosed
      ensures citySearchMatches == CityMatches(AllCities(hotelData), value)
      ensures searchResults == SearchResults(hotelData, value)
      ensures searchHotelSelection == old(searchHotelSelection) && searchCitySelection == old(searchCitySelection)
      ensures adultsCount == old(adultsCount) && childrenCount == old(childrenCount)
      ensures checkInDate == old(checkInDate) && checkOutDate == old(checkOutDate)
      ensures showSearchError == old(showSearchError)
      ensures showCalendars == old(showCalendars) && showTravelersInputs == old(showTravelersInputs)
    {
      var cityMatches := FindCityMatches(allCities, value);
      var results := SearchResults(hotelData, value);
      searchInput := value;
      if forceSearchResultsClosed {
        forceSearchResultsClosed := false;
      }
      citySearchMatches := cityMatches;
      searchResults := results;
    }

    /** Clicking a hotel in the dropdown. */
    method SelectHotel(hotel: Hotel)
      requires Valid()
      modifies this
      ensures Valid()
      ensures searchInput == hotel.name + ", " + hotel.city
      ensures searchHotelSelection == Some(hotel) && searchCitySelection == None
      ensures forceSearchResultsClosed && !ResultsVisible()
      ensures searchResults == old(searchResults) && citySearchMatches == old(citySearchMatches)
      ensures adultsCount == old(adultsCount) && childrenCount == old(childrenCount)
      ensures checkInDate == old(checkInDate) && checkOutDate == old(checkOutDate)
      ensures showSearchError == old(showSearchError)
      ensures showCalendars == old(showCalendars) && showTravelersInputs == old(showTravelersInputs)
    {
      searchInput := hotel.name + ", " + hotel.city;
      searchHotelSelection := Some(hotel);
      searchCitySelection := None;
      forceSearchResultsClosed := true;
    }

    /** Clicking a city suggestion. */
    method SelectCity(city: CityData)
      requires Valid()
      modifies this
      ensures Valid()
      ensures searchInput == city.name
      ensures searchHotelSelection == None && searchCitySelection == Some(city.name)
      ensures forceSearchResultsClosed && !ResultsVisible()
      ensures searchResults == old(searchResults) && citySearchMatches == old(citySearchMatches)
      ensures adultsCount == old(adultsCount) && childrenCount == old(childrenCount)
      ensures checkInDate == old(checkInDate) && checkOutDate == old(checkOutDate)
      ensures showSearchError == old(showSearchError)
      ensures showCalendars == old(showCalendars) && showTravelersInputs == old(showTravelersInputs)
    {
      searchInput := city.name;
      searchHotelSelection := None;
      searchCitySelection := Some(city.name);
      forceSearchResultsClosed := true;
    }

    /** The blur handler on the last dropdown entry. */
    method CloseResults()
      requires Valid()
      modifies this`forceSearchResultsClosed
      ensures Valid() && forceSearchResultsClosed && !ResultsVisible()
    {
      forceSearchResultsClosed := true;
    }

    /** The `setShowCalendars` passed to the dates field: opening it closes the
        travelers popover and the dropdown. */
    method SetShowCalendars(show: bool)
      requires Valid()
      modifies this`showCalendars, this`showTravelersInputs, this`forceSearchResultsClosed
      ensures Valid() && showCalendars == show
      ensures show ==> !showTravelersInputs && forceSearchResultsClosed
      ensures !show ==> showTravelersInputs == old(showTravelersInputs) &&
                        forceSearchResultsClosed == old(forceSearchResultsClosed)
    {
      if show {
        showTravelersInputs := false;
        forceSearchResultsClosed := true;
      }
      showCalendars := show;
    }

    /** The `setIsOpen` passed to the travelers field: opening it closes the
        calendars and the dropdown. */
    method SetShowTravelersInputs(show: bool)
      requires Valid()
      modifies this`showCalendars, this`showTravelersInputs, this`forceSearchResultsClosed
      ensures Valid() && showTravelersInputs == show
      ensures show ==> !showCalendars && forceSearchResultsClosed
      ensures !show ==> showCalendars == old(showCalendars) &&
                        forceSearchResultsClosed == old(forceSearchResultsClosed)
    {
      if show {
        showCalendars := false;
        forceSearchResultsClosed := true;
      }
      showTravelersInputs := show;
    }

    /** Focusing the text field closes both popovers. */
    method FocusSearchInput()
      requires Valid()
      modifies this`showCalendars, this`showTravelersInputs
      ensures Valid() && !showCalendars && !showTravelersInputs
    {
      showTravelersInputs := false;
      showCalendars := false;
    }

    /** A click on one of the four counter buttons; a disabled button does nothing. */
    method ClickCounter(decrement: bool, forChildren: bool)
      requires Valid()
      modifies this`adultsCount, this`childrenCount
      ensures Valid()
      ensures var b := GenerateButton(decrement, forChildren, if forChildren then old(childrenCount) else old(adultsCount));
        if b.disabled then adultsCount == old(adultsCount) && childrenCount == old(childrenCount)
        else if forChildren then childrenCount == b.newCount && adultsCount == old(adultsCount)
        else adultsCount == b.newCount && childrenCount == old(childrenCount)
    {
      var b := GenerateButton(decrement, forChildren, if forChildren then childrenCount else adultsCount);
      if !b.disabled {
        if forChildren {
          childrenCount := b.newCount;
        } else {
          adultsCount := b.newCount;
        }
      }
    }

    /** `handleDateChange`: a complete range is stored, and a range that starts and
        ends on the same day has its end moved to the next day, as a new value in
        the calendar's array. */
    method HandleDateChange(value: CalendarValue)
      requires Valid()
      modifies this`checkInDate, this`checkOutDate, if value.Range? then {value.dates} else {}
      ensures Valid()
      ensures value.Single? || value.dates.Length != 2 ||
              old(value.dates[0]).None? || old(value.dates[1]).None? ==>
        checkInDate == old(checkInDate) && checkOutDate == old(checkOutDate) &&
        (value.Range? ==> value.dates[..] == old(value.dates[..]))
      ensures value.Range? && value.dates.Length == 2 &&
              old(value.dates[0]).Some? && old(value.dates[1]).Some? ==>
        var start, end := old(value.dates[0]).value, old(value.dates[1]).value;
        checkInDate == Some(start) &&
        checkOutDate == Some(if Day(start) == Day(end) then AddDays(end, 1) else end) &&
        value.dates[..] == [checkInDate, checkOutDate]
    {
      if value.Single? || value.dates.Length != 2 || value.dates[0].None? || value.dates[1].None? {
        return;
      }
      var dates := value.dates;
      var datesAreTheSame := Day(dates[0].value) == Day(dates[1].value);
      if datesAreTheSame {
        var end := new JsDate(dates[1].value);
        end.AdvanceDays(1);
        dates[1] := Some(end.time);
      }
      checkInDate := dates[0];
      checkOutDate := dates[1];
      assert dates[..] == [dates[0], dates[1]];
    }

    /** `handleSubmit`; `formatDate` stands for the locale formatting of a date. */
    method HandleSubmit(formatDate: Option<int> -> string) returns (s: Submission)
      requires Valid()
      modifies this`showSearchError
      ensures Valid()
      ensures s == SubmitUrl(searchHotelSelection, searchCitySelection, formatDate(checkInDate),
                             formatDate(checkOutDate), adultsCount, childrenCount)
      ensures showSearchError == (s.MissingDestination? || old(showSearchError))
    {
      if searchHotelSelection.None? && !GivenText(searchCitySelection) {
        showSearchError := true;
        return MissingDestination;
      }
      var formattedCheckIn := formatDate(checkInDate);
      var formattedCheckOut := formatDate(checkOutDate);
      formattedCheckIn := UrlText(formattedCheckIn);
      formattedCheckOut := UrlText(formattedCheckOut);
      var q := Query(formattedCheckIn, formattedCheckOut, adultsCount, childrenCount);
      if searchHotelSelection.Some? {
        var formattedName := UrlText(searchHotelSelection.value.name);
        return Navigate("/hotel/" + searchHotelSelection.value.city + "/" + formattedName + q);
      }
      return Navigate("/travel/" + searchCitySelection.value + q);
    }

    /** The "Close" button of the error message: it hides the error and moves the
        focus to the text field, whose focus handler closes both popovers. */
    method DismissSearchError()
      requires Valid()
      modifies this`showSearchError, this`showCalendars, this`showTravelersInputs
      ensures Valid() && !showSearchError && !showCalendars && !showTravelersInputs
    {
      showSearchError := false;
      FocusSearchInput();
    }
  }

  /** The stay stored by `handleDateChange` for a same-day range is one calendar
      night, and at least one night by the label's count. */
  lemma SameDayRangeIsOneNight(start: int, end: int)
    requires Day(start) == Day(end)
    ensures CalendarNights(start, AddDays(end, 1)) == 1
    ensures Nights(AddDays(end, 1) - start) >= 1
  {
    DayAndTime(start);
    DayAndTime(end);
    AddDaysFacts(end, 1);
  }
}
