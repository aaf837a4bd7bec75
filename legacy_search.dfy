/** The earlier search box (src/components/Search.tsx): a text field whose
    keystrokes filter the hotels by city only. */
module LegacySearch {
  import opened Types
  import opened Text
  import opened Seqs
  import Search

  /** The city-only test: the lower-cased input occurs in the lower-cased city. */
  predicate CityContains(q: string, h: Hotel) {
    Contains(Lower(h.city), Lower(q))
  }

  function CityMatcher(q: string): Hotel -> bool {
    h => CityContains(q, h)
  }

  /** `hotelData.filter(...)` of the older `handleSearch`. */
  function CityResults(hotels: seq<Hotel>, q: string): (r: seq<Hotel>)
    ensures forall h :: h in r <==> h in hotels && CityContains(q, h)
  {
    Filter(hotels, CityMatcher(q))
  }

  /** An empty input keeps every hotel, in order. */
  lemma EmptyQueryKeepsAll(hotels: seq<Hotel>)
    ensures CityResults(hotels, "") == hotels
  {
    forall h | h in hotels ensures CityContains("", h) {
      ContainsEmpty(Lower(h.city));
    }
    FilterAll(hotels, CityMatcher(""));
  }

  /** A city match is a match for the newer widget too. */
  lemma CityMatchIsWidgetMatch(q: string, h: Hotel)
    requires CityContains(q, h)
    ensures Search.HotelMatches(q, h)
  {
  }

  /** Both filters keep data order, so the older results are the newer results
      with some hotels left out. */
  lemma {:induction false} CityResultsWithinWidget(hotels: seq<Hotel>, q: string)
    ensures Subsequence(CityResults(hotels, q), Search.SearchResults(hotels, q))
    decreases |hotels|
  {
    if hotels != [] {
      var init, h := hotels[..|hotels| - 1], hotels[|hotels| - 1];
      CityResultsWithinWidget(init, q);
      var a, b := CityResults(init, q), Search.SearchResults(init, q);
      if CityContains(q, h) {
        assert CityResults(hotels, q) == a + [h];
        assert Search.SearchResults(hotels, q) == b + [h];
        assert (a + [h])[..|a|] == a && (b + [h])[..|b|] == b;
      } else if Search.HotelMatches(q, h) {
        assert CityResults(hotels, q) == a;
        assert Search.SearchResults(hotels, q) == b + [h];
        SubsequenceExtend(a, b, h);
      } else {
        assert CityResults(hotels, q) == a;
        assert Search.SearchResults(hotels, q) == b;
      }
    }
  }

  /** The component's two state variables. */
  class LegacySearchBox {
    const hotelData: seq<Hotel>
    var textInput: string
    var results: seq<Hotel>

    constructor (hotels: seq<Hotel>)
      ensures hotelData == hotels && textInput == "" && results == []
    {
      hotelData := hotels;
      textInput := "";
      results := [];
    }

    /** A keystroke stores the text and the city matches. */
    method HandleSearch(value: string)
      modifies this
      ensures textInput == value
      ensures results == CityResults(hotelData, value)
    {
      textInput := value;
      results := Filter(hotelData, CityMatcher(value));
    }
  }
}
