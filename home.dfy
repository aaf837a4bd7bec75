/** The home page (src/pages/Home.tsx): on load it sorts the shared hotel array in
    place by city, then groups the hotels by city in a dictionary whose keys are
    listed in the order they were first added. `localeCompare` is a caller-supplied
    total preorder `le` on city names. */
module Home {
  import opened Types
  import opened Text
  import opened Seqs
  import opened Uri
  import opened ExtractParams
  import opened CityPage

  /** `le` is total and transitive: it can stand for `a.localeCompare(b) <= 0`. */
  ghost predicate TotalPreorder(le: (string, string) -> bool) {
    (forall a, b :: le(a, b) || le(b, a)) &&
    (forall a, b, c :: le(a, b) && le(b, c) ==> le(a, c))
  }

  /** The hotels are in non-decreasing order of city. */
  predicate SortedByCity(s: seq<Hotel>, le: (string, string) -> bool) {
    forall i, j :: 0 <= i < j < |s| ==> le(s[i].city, s[j].city)
  }

  // ---------------------------------------------------------------------------
  // The in-place sort
  // ---------------------------------------------------------------------------

  /** `hotelData.sort((a, b) => a.city.localeCompare(b.city))`, as an insertion sort
      by adjacent swaps (the algorithm of the engine's `sort` is not modelled, only
      its outcome). */
  method SortByCity(a: array<Hotel>, le: (string, string) -> bool)
    requires TotalPreorder(le)
    modifies a
    ensures SortedByCity(a[..], le)
    ensures multiset(a[..]) == multiset(old(a[..]))
  {
    var i := 0;
    while i < a.Length
      invariant 0 <= i <= a.Length
      invariant SortedByCity(a[..i], le)
      invariant multiset(a[..]) == multiset(old(a[..]))
    {
      InsertLast(a, i, le);
      i := i + 1;
    }
    assert a[..] == a[..a.Length];
  }

  /** Moves `a[i]` down into the sorted prefix `a[..i]`. */
  method InsertLast(a: array<Hotel>, i: int, le: (string, string) -> bool)
    requires TotalPreorder(le)
    requires 0 <= i < a.Length && SortedByCity(a[..i], le)
    modifies a
    ensures SortedByCity(a[..i + 1], le)
    ensures multiset(a[..]) == multiset(old(a[..]))
    ensures forall k :: i < k < a.Length ==> a[k] == old(a[k])
  {
    InsertingStart(a[..], i, le);
    var j := i;
    while j > 0 && !le(a[j - 1].city, a[j].city)
      invariant 0 <= j <= i
      invariant Inserting(a[..], i, j, le)
      invariant multiset(a[..]) == multiset(old(a[..]))
      invariant forall k :: i < k < a.Length ==> a[k] == old(a[k])
    {
      InsertingStep(a[..], i, j, le);
      Swap(a, j);
      j := j - 1;
    }
    InsertingDone(a[..], i, j, le);
  }

  /** `a[j - 1]` and `a[j]` trade places; nothing else moves. */
  method Swap(a: array<Hotel>, j: int)
    requires 0 < j < a.Length
    modifies a
    ensures a[..] == old(a[..])[j - 1 := old(a[j])][j := old(a[j - 1])]
    ensures multiset(a[..]) == multiset(old(a[..]))
  {
    a[j - 1], a[j] := a[j], a[j - 1];
  }

  /** The loop's invariant: `s[..i + 1]` is sorted except for the element at `j`,
      which is no greater than the elements after it. */
  ghost predicate Inserting(s: seq<Hotel>, i: int, j: int, le: (string, string) -> bool)
    requires 0 <= j <= i < |s|
  {
    (forall p, q :: 0 <= p < q <= i && p != j && q != j ==> le(s[p].city, s[q].city)) &&
    (forall q :: j < q <= i ==> le(s[j].city, s[q].city))
  }

  lemma InsertingStart(s: seq<Hotel>, i: int, le: (string, string) -> bool)
    requires 0 <= i < |s| && SortedByCity(s[..i], le)
    ensures Inserting(s, i, i, le)
  {
    forall p, q | 0 <= p < q <= i && p != i && q != i ensures le(s[p].city, s[q].city) {
      assert s[..i][p] == s[p] && s[..i][q] == s[q];
    }
  }

  /** Swapping the out-of-order neighbours keeps the invariant one place lower. */
  lemma InsertingStep(s: seq<Hotel>, i: int, j: int, le: (string, string) -> bool)
    requires TotalPreorder(le)
    requires 0 < j <= i < |s| && Inserting(s, i, j, le)
    requires !le(s[j - 1].city, s[j].city)
    ensures Inserting(s[j - 1 := s[j]][j := s[j - 1]], i, j - 1, le)
  {
    var t := s[j - 1 := s[j]][j := s[j - 1]];
    assert le(s[j].city, s[j - 1].city);
    forall p, q | 0 <= p < q <= i && p != j - 1 && q != j - 1 ensures le(t[p].city, t[q].city) {
      if q == j {
        assert t[q] == s[j - 1] && t[p] == s[p];
      } else if p == j {
        assert t[p] == s[j - 1] && t[q] == s[q];
      } else {
        assert t[p] == s[p] && t[q] == s[q];
      }
    }
    forall q | j - 1 < q <= i ensures le(t[j - 1].city, t[q].city) {
      if q > j {
        assert t[q] == s[q];
      }
    }
  }

  /** Once the element at `j` is in order with its left neighbour, the prefix is
      sorted. */
  lemma InsertingDone(s: seq<Hotel>, i: int, j: int, le: (string, string) -> bool)
    requires TotalPreorder(le)
    requires 0 <= j <= i < |s| && Inserting(s, i, j, le)
    requires j == 0 || le(s[j - 1].city, s[j].city)
    ensures SortedByCity(s[..i + 1], le)
  {
    var t := s[..i + 1];
    forall p, q | 0 <= p < q < |t| ensures le(t[p].city, t[q].city) {
      assert t[p] == s[p] && t[q] == s[q];
      if q == j && p < j - 1 {
        assert le(s[p].city, s[j - 1].city);
      }
    }
  }

  // ---------------------------------------------------------------------------
  // Grouping by city
  // ---------------------------------------------------------------------------

  /** The cities in the order the loop first meets them: the dictionary's keys in
      the order `Object.entries` lists them. */
  function CityKeys(hotels: seq<Hotel>): (r: seq<string>)
    ensures forall c :: c in r <==> exists h :: h in hotels && h.city == c
    ensures forall i, j :: 0 <= i < j < |r| ==> r[i] != r[j]
    decreases |hotels|
  {
    if hotels == [] then []
    else
      var init, h := hotels[..|hotels| - 1], hotels[|hotels| - 1];
      var ks := CityKeys(init);
      assert hotels == init + [h];
      if h.city in ks then ks else ks + [h.city]
  }

  /** The group of city `c`: its hotels in array order. */
  function Group(hotels: seq<Hotel>, c: string): (r: seq<Hotel>)
    ensures forall h :: h in r <==> h in hotels && h.city == c
  {
    HotelsInCity(hotels, c)
  }

  /** The loop of the effect: a missing key gets an empty list, then the hotel is
      pushed onto its city's list. */
  method GroupByCity(hotels: seq<Hotel>) returns (groups: map<string, seq<Hotel>>, keys: seq<string>)
    ensures keys == CityKeys(hotels)
    ensures forall c :: c in groups <==> c in keys
    ensures forall c :: c in groups ==> groups[c] == Group(hotels, c)
  {
    groups, keys := map[], [];
    var i := 0;
    while i < |hotels|
      invariant 0 <= i <= |hotels|
      invariant keys == CityKeys(hotels[..i])
      invariant forall c :: c in groups <==> c in keys
      invariant GroupsAgree(groups, hotels[..i])
    {
      var hotel := hotels[i];
      GroupStep(hotels, i);
      if hotel.city !in groups {
        GroupAbsent(hotels[..i], hotel.city);
        groups := groups[hotel.city := []];
        keys := keys + [hotel.city];
      }
      PushKeepsAgreement(groups, hotels, i);
      groups := groups[hotel.city := groups[hotel.city] + [hotel]];
      i := i + 1;
    }
    assert hotels[..i] == hotels;
  }

  /** Every list of the dictionary is the group of its key. */
  predicate GroupsAgree(groups: map<string, seq<Hotel>>, hotels: seq<Hotel>) {
    forall c :: c in groups ==> groups[c] == Group(hotels, c)
  }

  /** What one more hotel does to the keys. */
  lemma GroupStep(hotels: seq<Hotel>, i: int)
    requires 0 <= i < |hotels|
    ensures var ks, h := CityKeys(hotels[..i]), hotels[i];
      CityKeys(hotels[..i + 1]) == (if h.city in ks then ks else ks + [h.city])
  {
    assert hotels[..i + 1][..i] == hotels[..i];
  }

  /** Pushing the next hotel onto its city's list keeps every list equal to its
      group. */
  lemma PushKeepsAgreement(groups: map<string, seq<Hotel>>, hotels: seq<Hotel>, i: int)
    requires 0 <= i < |hotels| && hotels[i].city in groups && GroupsAgree(groups, hotels[..i])
    ensures var h := hotels[i];
      GroupsAgree(groups[h.city := groups[h.city] + [h]], hotels[..i + 1])
  {
    var h := hotels[i];
    var g := groups[h.city := groups[h.city] + [h]];
    assert hotels[..i + 1] == hotels[..i] + [h];
    forall c | c in g ensures g[c] == Group(hotels[..i + 1], c) {
      GroupSnoc(hotels[..i], h, c);
    }
  }

  lemma GroupSnoc(hotels: seq<Hotel>, h: Hotel, c: string)
    ensures Group(hotels + [h], c) == Group(hotels, c) + (if h.city == c then [h] else [])
  {
    assert (hotels + [h])[..|hotels|] == hotels;
  }

  /** A city that is not a key has no hotels. */
  lemma GroupAbsent(hotels: seq<Hotel>, c: string)
    requires c !in CityKeys(hotels)
    ensures Group(hotels, c) == []
  {
  }

  /** Each hotel lies in exactly one group, the one of its own city. */
  lemma OneGroupEach(hotels: seq<Hotel>, h: Hotel, c: string)
    requires h in hotels && c in CityKeys(hotels)
    ensures h in Group(hotels, c) <==> c == h.city
  {
  }

  /** The total size of the groups of `keys`. */
  function SumSizes(hotels: seq<Hotel>, keys: seq<string>): nat
    decreases |keys|
  {
    if keys == [] then 0 else |Group(hotels, keys[0])| + SumSizes(hotels, keys[1..])
  }

  /** Occurrences of `c` among `keys`. */
  function Occurrences(keys: seq<string>, c: string): nat
    decreases |keys|
  {
    if keys == [] then 0 else (if keys[0] == c then 1 else 0) + Occurrences(keys[1..], c)
  }

  /** One more hotel adds one to the size of every group of its city. */
  lemma {:induction false} SumSizesAppend(hotels: seq<Hotel>, h: Hotel, keys: seq<string>)
    ensures SumSizes(hotels + [h], keys) == SumSizes(hotels, keys) + Occurrences(keys, h.city)
    decreases |keys|
  {
    if keys != [] {
      GroupSnoc(hotels, h, keys[0]);
      SumSizesAppend(hotels, h, keys[1..]);
    }
  }

  lemma {:induction false} OccurrencesAbsent(keys: seq<string>, c: string)
    requires c !in keys
    ensures Occurrences(keys, c) == 0
    decreases |keys|
  {
    if keys != [] {
      OccurrencesAbsent(keys[1..], c);
    }
  }

  lemma {:induction false} OccurrencesDistinct(keys: seq<string>, c: string)
    requires c in keys && forall i, j :: 0 <= i < j < |keys| ==> keys[i] != keys[j]
    ensures Occurrences(keys, c) == 1
    decreases |keys|
  {
    if keys[0] == c {
      OccurrencesAbsent(keys[1..], c);
    } else {
      OccurrencesDistinct(keys[1..], c);
    }
  }

  lemma {:induction false} SumSizesSnoc(hotels: seq<Hotel>, keys: seq<string>, c: string)
    ensures SumSizes(hotels, keys + [c]) == SumSizes(hotels, keys) + |Group(hotels, c)|
    decreases |keys|
  {
    if keys == [] {
      assert [] + [c] == [c];
    } else {
      assert (keys + [c])[1..] == keys[1..] + [c];
      SumSizesSnoc(hotels, keys[1..], c);
    }
  }

  /** The group sizes add up to the number of hotels. */
  lemma {:induction false} GroupSizesSum(hotels: seq<Hotel>)
    ensures SumSizes(hotels, CityKeys(hotels)) == |hotels|
    decreases |hotels|
  {
    if hotels != [] {
      var init, h := hotels[..|hotels| - 1], hotels[|hotels| - 1];
      assert hotels == init + [h];
      var ks := CityKeys(init);
      GroupSizesSum(init);
      SumSizesAppend(init, h, ks);
      if h.city in ks {
        OccurrencesDistinct(ks, h.city);
      } else {
        OccurrencesAbsent(ks, h.city);
        GroupAbsent(init, h.city);
        SumSizesSnoc(hotels, ks, h.city);
        GroupSnoc(init, h, h.city);
      }
    }
  }

  /** The names are in non-decreasing order. */
  predicate SortedNames(ks: seq<string>, le: (string, string) -> bool) {
    forall i, j :: 0 <= i < j < |ks| ==> le(ks[i], ks[j])
  }

  /** When the hotels are sorted by city, so are the keys. */
  lemma {:induction false} SortedKeys(hotels: seq<Hotel>, le: (string, string) -> bool)
    requires TotalPreorder(le) && SortedByCity(hotels, le)
    ensures SortedNames(CityKeys(hotels), le)
    decreases |hotels|
  {
    if hotels != [] {
      var init, h := hotels[..|hotels| - 1], hotels[|hotels| - 1];
      assert hotels == init + [h];
      assert SortedByCity(init, le);
      SortedKeys(init, le);
      var ks := CityKeys(init);
      assert SortedNames(ks, le);
      assert CityKeys(hotels) == if h.city in ks then ks else ks + [h.city];
      forall k | k in ks ensures le(k, h.city) {
        var g :| g in init && g.city == k;
        var p :| 0 <= p < |init| && init[p] == g;
        assert hotels[p] == g;
      }
      if h.city !in ks {
        var ks' := ks + [h.city];
        forall i, j | 0 <= i < j < |ks'| ensures le(ks'[i], ks'[j]) {
          if j < |ks| {
            assert ks'[i] == ks[i] && ks'[j] == ks[j];
            assert le(ks[i], ks[j]);
          } else {
            assert ks'[i] == ks[i] && ks'[j] == h.city;
            assert ks[i] in ks;
          }
        }
        assert CityKeys(hotels) == ks';
      } else {
        assert CityKeys(hotels) == ks;
      }
    }
  }

  // ---------------------------------------------------------------------------
  // The page
  // ---------------------------------------------------------------------------

  /** The page state: the shared hotel array and the `sortedByCity` dictionary with
      its key order. */
  class HomePage {
    const hotelData: array<Hotel>
    var sortedByCity: map<string, seq<Hotel>>
    var cityOrder: seq<string>

    constructor (hotels: array<Hotel>)
      ensures hotelData == hotels && sortedByCity == map[] && cityOrder == []
    {
      hotelData := hotels;
      sortedByCity := map[];
      cityOrder := [];
    }

    /** "Loading..." is shown while the dictionary has no key. */
    predicate Loading()
      reads this
    {
      |cityOrder| == 0
    }

    /** The effect: sort the shared array in place, then group it. */
    method LoadEffect(le: (string, string) -> bool)
      requires TotalPreorder(le)
      modifies this, hotelData
      ensures SortedByCity(hotelData[..], le)
      ensures multiset(hotelData[..]) == multiset(old(hotelData[..]))
      ensures cityOrder == CityKeys(hotelData[..])
      ensures forall c :: c in sortedByCity <==> c in cityOrder
      ensures forall c :: c in sortedByCity ==> sortedByCity[c] == Group(hotelData[..], c)
      ensures Loading() <==> hotelData.Length == 0
    {
      SortByCity(hotelData, le);
      var groups, keys := GroupByCity(hotelData[..]);
      sortedByCity, cityOrder := groups, keys;
      if hotelData.Length > 0 {
        assert hotelData[..][0] in hotelData[..];
      }
    }
  }

  // ---------------------------------------------------------------------------
  // The hotel links
  // ---------------------------------------------------------------------------

  lemma {:induction false} EscapeBytesChars(bs: seq<nat>)
    requires forall i :: 0 <= i < |bs| ==> bs[i] < 256
    ensures '/' !in EscapeBytes(bs)
    decreases |bs|
  {
    if bs != [] {
      EscapeBytesChars(bs[1..]);
      var e := EscapeByte(bs[0]);
      assert e[0] == '%' && IsHex(e[1]) && IsHex(e[2]);
    }
  }

  /** `encodeURIComponent` never leaves a slash and never shortens its input. */
  lemma {:induction false} PercentEncodeNoSlash(s: string)
    ensures '/' !in PercentEncode(s) && |PercentEncode(s)| >= |s|
    decreases |s|
  {
    if s != [] {
      PercentEncodeNoSlash(s[1..]);
      if !IsUnreserved(s[0]) {
        EscapeBytesChars(Utf8Bytes(s[0]));
      }
    }
  }

  /** The link of a hotel on the home page, `/hotel/{encoded city}/{encoded name}`,
      brings parameter extraction back to the hotel's own name. */
  lemma HomeLinkReadsBack(h: Hotel, path: string)
    requires h.city != [] && h.name != []
    requires path == "/hotel/" + PercentEncode(h.city) + "/" + PercentEncode(h.name)
    ensures ExtractPathParams(path) == Ok(PathParams(None, Some(h.name)))
  {
    PercentEncodeNoSlash(h.city);
    PercentEncodeNoSlash(h.name);
    HotelSegments(path, PercentEncode(h.city), PercentEncode(h.name));
    PercentDecodeEncode(h.name);
    HotelPath(path);
  }
}
