# Hotel search front end, modelled in Dafny

This project models the logic of a small client-side hotel search site.

- **Search form.** As the visitor types, it lists matching hotels, plus the cities that match, without duplicates. It keeps a hotel selection or a city selection, and keeps at most one of its two popovers (calendar, travelers) open. It enforces a one-night minimum stay and, on submit, builds the hotel or city results URL or shows "select a destination".
- **Traveler counters.** One adult to four, zero to four children, with disabled flags on the buttons and a pluralised label.
- **Nights label.** Shows both dates and the number of nights.
- **Parameter extraction.** Reads the city or hotel from the page path and the dates and traveler counts from the query string. Missing values get defaults: the coming Friday and the Sunday after it, one adult, no children.
- **City results page.** Takes the city from the last path segment, lists its hotels and links each one to its hotel page.
- **Home page.** Sorts the shared hotel array by city in place and groups it by city.
- **Older search box.** Filters by city only.
- **String utilities.** `formatStringForUrl`, `decodeUrlString`, `capitalizeWordsInString`, `convertToKebabCase` and `convertToSnakeCase`.

How the model is built:

- **Stateful code is imperative Dafny.**
  - Components whose state changes are classes: `Search.SearchWidget`, `LegacySearch.LegacySearchBox` and `Home.HomePage`. Their fields are the components' state variables.
  - `Date` objects are a `Calendar.JsDate` class that `setDate` and `setHours` change in place.
  - Loops stay loops, each proved against a specification function:
    - the city-match loop (`Search.FindCityMatches`);
    - the hotel-link loop (`CityPage.BuildHotelUrl`);
    - the hyphen pass (`Capitalize.RunCapitalizeWordsInString`);
    - the group-by loop (`Home.GroupByCity`);
    - the in-place sort (`Home.SortByCity`, on an `array`).
- **Pure code is functions with lemmas.** This covers the string transforms, path parsing and the labels.

What the standard library does is modelled as follows:

- **Instants** are integer milliseconds in local time. A calendar day is 86 400 000 ms, and day 0 (1970-01-01) was a Thursday.
- **Inputs that were implicit** are parameters: "now", the page's pathname, `new Date(string)` (a partial function `string -> Option<int>`), the locale date formatting (`int -> string`) and `localeCompare` (a caller-supplied total preorder).
- **`decodeURIComponent` and `encodeURIComponent`** follow the abstract operations Decode and Encode of ECMA-262: `%XX` escapes (the syntax of section 2.1 of RFC 3986), UTF-8 multi-byte sequences validated as ECMA-262 requires, and a `URIError` for a malformed escape.
- **Case mapping** is ASCII.
- **JavaScript's `\s`** is its full code-point set.
- **`convertToDate`** gives `null`, not the default date, for a value that is present but does not parse (src/utils/extractParams.ts:57-60), as its doc comment (src/utils/extractParams.ts:44-46) says.

## Model

| member | source | states |
|---|---|---|
| Seqs.Filter | src/components/Search/Search.tsx:233 | `Array.prototype.filter`: an element is in the result exactly when it is in the input and passes the test |
| Seqs.FilterKeepsOrder | src/components/Search/Search.tsx:233 | the result is the input with the failing elements left out, in the input's order |
| Seqs.FilterCounts | src/components/Search/Search.tsx:233 | an element that passes occurs in the result as often as in the input; one that fails does not occur |
| Calendar.Weekday | src/utils/extractParams.ts:34 | `getDay()` is always in 0..6 |
| Calendar.JsDate.constructor | src/utils/extractParams.ts:32 | `new Date(d)` is a new object holding the same instant |
| Calendar.JsDate.GetDay | src/utils/extractParams.ts:34 | the object's weekday, 0 being Sunday |
| Calendar.JsDate.AdvanceDays | src/utils/extractParams.ts:34 | `setDate(getDate() + k)` moves the object in place by exactly k days |
| Calendar.JsDate.SetHours | src/utils/extractParams.ts:39 | `setHours(h, m, s, ms)` sets the time of day in place and keeps the calendar day |
| Calendar.JsDate.SetHoursKeepMillis | src/utils/extractParams.ts:40 | `setHours(h, m, s)` leaves the milliseconds as they were |
| Calendar.AddDaysFacts | src/utils/extractParams.ts:34-37 | moving by k days adds k to the day number, keeps time of day and milliseconds, and advances the weekday by k mod 7 |
| Calendar.SetTimeFacts | src/utils/extractParams.ts:39-40 | setting the time keeps the day and weekday and gives exactly the time asked for |
| Calendar.FridayOffset | src/utils/extractParams.ts:34 | `(5 - weekday + 7) % 7` is in 0..6, is 0 exactly on a Friday, and always lands on a Friday |
| Calendar.ComputeDefaults | src/utils/extractParams.ts:31-40 | the two new, distinct `Date` objects hold the default check-in and checkout |
| Calendar.DefaultCheckInIsComingFriday | src/utils/extractParams.ts:31-39 | the default check-in is midnight of the first Friday on or after today, at most six days ahead, and today itself when today is a Friday |
| Calendar.DefaultCheckOutIsSunday | src/utils/extractParams.ts:35-40 | the default checkout is the Sunday two days after check-in at 23:59:59, plus the milliseconds of the load time |
| Travelers.GenerateButton | src/components/Search/TravelersSection.tsx:62-83 | no button ever hands on a count above four |
| Travelers.DecrementAtFloor | src/components/Search/TravelersSection.tsx:62-78 | `-` at one adult, or at zero children, keeps the count and is disabled |
| Travelers.IncrementAtFour | src/components/Search/TravelersSection.tsx:71-83 | `+` at four is disabled and its count is capped at four |
| Travelers.AwayFromBounds | src/components/Search/TravelersSection.tsx:66 | away from the bounds, `+` adds one and `-` takes one away, and neither is disabled |
| Travelers.ButtonKeepsRange | src/components/Search/TravelersSection.tsx:62-83 | from adults in 1..4 and children in 0..4, every button's count stays in the same range |
| Travelers.DisabledIffNoChange | src/components/Search/TravelersSection.tsx:62-83 | inside the range, a button is disabled exactly when clicking it would not change the count |
| Travelers.LabelMentionsChildren | src/components/Search/TravelersSection.tsx:107-124 | the label has the `& … Child` clause exactly when there are children |
| Travelers.LabelPlurals | src/components/Search/TravelersSection.tsx:107-124 | `Adults` exactly when the adult count is not one; `Children` exactly when the child count is not one |
| Travelers.LabelInjective | src/components/Search/TravelersSection.tsx:107-124 | two count pairs with the same label are the same pair |
| DatesSection.Nights | src/components/Search/DatesSection.tsx:71-72 | the night count is the ceiling of the difference in days: the whole number n with (n-1) days < diff <= n days |
| DatesSection.NightsUnique | src/components/Search/DatesSection.tsx:72 | that whole number is unique |
| DatesSection.NightsCopyPlural | src/components/Search/DatesSection.tsx:75-77 | `nights` is used exactly when the count is above one |
| DatesSection.PseudoLabelEmpty | src/components/Search/DatesSection.tsx:68 | the label is empty exactly when a date is missing |
| DatesSection.PseudoLabelEnds | src/components/Search/DatesSection.tsx:66-83 | with both dates, the label is the formatted dates, leading whitespace trimmed, then the night count in brackets |
| DatesSection.DefaultStayIsThreeNights | src/components/Search/DatesSection.tsx:71-72 | the default Friday-to-Sunday stay counts as three nights |
| DatesSection.DefaultStayLabel | src/components/Search/DatesSection.tsx:66-83 | the default stay's label ends in `(3 nights)` |
| DatesSection.CalendarNights | src/components/Search/DatesSection.tsx:71-72 | the calendar-day count: moving check-in by that many days reaches checkout's day |
| DatesSection.CeilingCountsExtraNight | src/components/Search/DatesSection.tsx:72 | a stay from midnight to later than midnight is counted one night more than its calendar nights |
| DatesSection.NightsAtSameTime | src/components/Search/DatesSection.tsx:72 | when both ends have the same time of day, the two counts agree |
| DatesSection.DefaultStayIsTwoNights | src/components/Search/DatesSection.tsx:71-72 | the default stay is two calendar nights |
| DatesSection.StayLabelDefault | src/components/Search/DatesSection.tsx:66-83 | with calendar nights, the default stay's label ends in `(2 nights)` |
| DatesSection.StayLabelEmpty | src/components/Search/DatesSection.tsx:68 | the corrected label is also empty exactly when a date is missing |
| ExtractParams.PathParts | src/utils/extractParams.ts:79 | every path part is non-empty and has no slash |
| ExtractParams.TravelPath | src/utils/extractParams.ts:84-85 | under `/travel`: the city is the decoded second segment when there is one, the hotel name is null, and a malformed escape is an error |
| ExtractParams.HotelPath | src/utils/extractParams.ts:86-87 | under `/hotel`: the hotel name is the decoded third segment when there is one, the city is null, and a malformed escape is an error |
| ExtractParams.OtherPath | src/utils/extractParams.ts:81-90 | any other first segment, and the root path, give neither |
| ExtractParams.NeverBoth | src/utils/extractParams.ts:81-90 | the city and the hotel name are never both set |
| ExtractParams.DoubledSlash | src/utils/extractParams.ts:79 | a doubled slash reads as a single slash |
| ExtractParams.OuterSlashes | src/utils/extractParams.ts:79 | a leading or trailing slash changes nothing |
| ExtractParams.PathPartsOfSegments | src/utils/extractParams.ts:79 | non-empty, slash-free segments joined by `/` are read back exactly |
| ExtractParams.Get | src/utils/extractParams.ts:94 | `params.get(k)` is present exactly when `k` occurs, and then it is the value of the first pair named `k` |
| ExtractParams.ToNumberOfIntToString | src/utils/extractParams.ts:100 | `Number` of a printed integer is that integer |
| ExtractParams.CountParam | src/utils/extractParams.ts:99-104 | an absent count gives the default; a present one gives `Number` of its value |
| ExtractParams.CountDefaults | src/utils/extractParams.ts:99-104 | without traveler parameters: one adult and no children |
| ExtractParams.CountRoundTrip | src/utils/extractParams.ts:99-104 | a count written as the first `k=<n>` pair is read back as n |
| ExtractParams.ConvertToDateMissing | src/utils/extractParams.ts:53-55 | a missing or empty date gives the default Friday or Sunday |
| ExtractParams.ConvertToDateInvalid | src/utils/extractParams.ts:57-60 | a present value that does not parse gives null, not the default |
| ExtractParams.ConvertToDateParsed | src/utils/extractParams.ts:62-67 | a parsed check-in keeps its time; a parsed checkout moves to 23:59:59 on its own day |
| ExtractParams.ConvertToDateObject | src/utils/extractParams.ts:48-68 | the same on objects: a missing value hands back the shared default object itself; otherwise the result is null or a new object |
| ExtractParams.ExtractParams | src/utils/extractParams.ts:18-120 | the result fails exactly when the path fails to decode; otherwise each field is the path's value, the converted date, or the count with its default |
| UrlFormat.TrimHyphens | src/utils/formatStringForUrl.ts:21 | trimming leaves no new characters and never lengthens |
| UrlFormat.FormatAlphabet | src/utils/formatStringForUrl.ts:12-21 | every output character is from `%20`, `-`, or the lower-cased input minus whitespace |
| UrlFormat.FormatNoUpper | src/utils/formatStringForUrl.ts:12 | no upper-case ASCII letter in the output |
| UrlFormat.FormatNoWhitespace | src/utils/formatStringForUrl.ts:15 | no whitespace in the output |
| UrlFormat.FormatWhitespaceRun | src/utils/formatStringForUrl.ts:15 | one maximal run of whitespace becomes exactly one `%20` |
| UrlFormat.FormatHyphens | src/utils/formatStringForUrl.ts:18-21 | the output never has `--` and neither starts nor ends with `-` |
| UrlFormat.FormatFixedPoint | src/utils/formatStringForUrl.ts:12-21 | a string already in output form is returned unchanged |
| UrlFormat.FormatIdempotent | src/utils/formatStringForUrl.ts:12-21 | formatting twice is formatting once |
| UrlFormat.FormatPlainWord | src/utils/formatStringForUrl.ts:12-21 | a lower-case string with no whitespace and no hyphen is unchanged |
| UrlFormat.FormatWithoutHyphens | src/utils/formatStringForUrl.ts:12-21 | without hyphens, formatting is lower-casing and encoding spaces |
| Uri.PercentDecode | src/utils/decodeUrlString.ts:9 | decoding never lengthens |
| Uri.PercentDecodeNoPercent | src/utils/decodeUrlString.ts:9 | text without `%` decodes to itself |
| Uri.PercentDecodeAppend | src/utils/decodeUrlString.ts:9 | text that decodes, followed by more text, decodes to the two decodings joined, and fails exactly when the rest fails |
| Uri.PercentDecodeMalformed | src/utils/extractParams.ts:85 | a `%` not followed by two hex digits throws `URIError`, whatever follows it and whatever text that decodes comes before it |
| Uri.PercentDecodeLateMalformed | src/utils/decodeUrlString.ts:9 | `%41` decodes to `A`, yet `%41%zz` throws: a bad escape after a good one still fails |
| Uri.PercentDecodeEncode | src/pages/Home.tsx:82-84 | `decodeURIComponent(encodeURIComponent(s)) == s` for every string |
| UrlDecode.SplitChar | src/utils/decodeUrlString.ts:13 | the split character is a space exactly when the decoded text has one, and `-` otherwise |
| UrlDecode.DecodeUrlString | src/utils/decodeUrlString.ts:7-22 | it fails exactly when percent-decoding fails |
| UrlDecode.DecodeUrlStringCapitalizes | src/utils/decodeUrlString.ts:9-19 | the result is the decoded text with the first character of each word upper-cased |
| UrlDecode.DecodeUrlStringNoPercent | src/utils/decodeUrlString.ts:9-19 | text without `%` always decodes and keeps its length |
| UrlDecode.DecodeUrlStringMalformed | src/utils/decodeUrlString.ts:9 | a malformed escape after any text that decodes is an error |
| UrlDecode.FormatCity | src/utils/formatStringForUrl.ts:12-21 | a title-case city's slug is its lower-cased words joined by `%20` or `-` |
| UrlDecode.DecodeSlug | src/utils/decodeUrlString.ts:9-19 | such a slug decodes to the words, capitalised and joined by the separator |
| UrlDecode.DecodeFormatRoundTrip | src/utils/decodeUrlString.ts:9-19 | `decodeUrlString(formatStringForUrl(c)) == c` for a city of title-case words joined by spaces or by hyphens |
| UrlDecode.DecodeLakeTahoe | src/utils/decodeUrlString.ts:9-19 | `lake%20tahoe` decodes to `Lake Tahoe` |
| UrlDecode.DecodeWinstonSalem | src/utils/decodeUrlString.ts:9-19 | `winston-salem` decodes to `Winston-Salem` |
| Capitalize.RunCapitalizeWordsInString | src/utils/capitalizeWordsInString.ts:10-27 | the loop that reassigns `str` per hyphen piece computes the specification function |
| Capitalize.SpacePassUpcased | src/utils/capitalizeWordsInString.ts:12-15 | the space pass upper-cases the first character and each one after a space, and changes nothing else |
| Capitalize.CapitalizeWordsInStringUpcased | src/utils/capitalizeWordsInString.ts:12-24 | without `$`, the output is the input with some lower-case letters upper-cased: nothing is inserted, removed or lower-cased |
| Capitalize.CapitalizeWordsInStringAfterSpaces | src/utils/capitalizeWordsInString.ts:12-15 | without `$`: same length, the first character and every one after a space upper-cased, and spaces in place |
| Capitalize.CapitalizeWordsInStringNoHyphen | src/utils/capitalizeWordsInString.ts:20-24 | a string without `-` gets exactly the space pass |
| Capitalize.CapitalizeWordsInStringFirstOccurrence | src/utils/capitalizeWordsInString.ts:20-23 | as written, `ab-b` becomes `AB-b` |
| Capitalize.CapitalizeWordsInStringSecondPass | src/utils/capitalizeWordsInString.ts:20-23 | as written, `AB-b` becomes `AB-B` |
| Capitalize.CapitalizeWordsInStringNotIdempotent | src/utils/capitalizeWordsInString.ts:20-23 | as written, the function is not idempotent |
| Capitalize.CapitalizeWordsInStringDollar | src/utils/capitalizeWordsInString.ts:22 | as written, `a-$$` becomes `A-$` |
| Capitalize.CapitalizeWordsCorrected | src/utils/capitalizeWordsInString.ts:10-27 | corrected: same length, and exactly the characters at the start or after a space or hyphen are upper-cased |
| Capitalize.CorrectedUpcased | src/utils/capitalizeWordsInString.ts:12-24 | corrected: only lower-case letters change, to upper case |
| Capitalize.CorrectedIdempotent | src/utils/capitalizeWordsInString.ts:10-27 | corrected: idempotent |
| Capitalize.CorrectedIsTwoSplits | src/utils/capitalizeWordsInString.ts:12-24 | corrected: a split/map/join on spaces, then the same on hyphens |
| Capitalize.CorrectedExamples | src/utils/capitalizeWordsInString.ts:20-23 | corrected: `ab-b` becomes `Ab-B` and `a-$$` stays `A-$$` |
| Capitalize.CorrectedAgreesWithoutHyphen | src/utils/capitalizeWordsInString.ts:20-24 | without hyphens, corrected and as-written agree |
| CaseConvert.ConvertCaseAlphabet | src/utils/convertToKebabCase.ts:12-14 | the shared conversion emits only `[a-z0-9]` and its separator |
| CaseConvert.ConvertCaseLength | src/utils/convertToKebabCase.ts:12-13 | it never lengthens |
| CaseConvert.ConvertCaseIdempotent | src/utils/convertToKebabCase.ts:12-14 | it is idempotent |
| CaseConvert.ConvertCaseRun | src/utils/convertToKebabCase.ts:12 | one whitespace run becomes one separator |
| CaseConvert.ConvertCaseWithoutSeparators | src/utils/convertToKebabCase.ts:12-14 | without separators, the output is the input's ASCII letters and digits, lowercased, in order |
| CaseConvert.ConvertCaseRename | src/utils/convertToSnakeCase.ts:2-5 | converting with one separator is converting with another and renaming it |
| KebabCase.KebabAlphabet | src/utils/convertToKebabCase.ts:12-14 | every output character is in `[a-z0-9-]` |
| KebabCase.KebabLength | src/utils/convertToKebabCase.ts:12-13 | output length is at most input length |
| KebabCase.KebabIdempotent | src/utils/convertToKebabCase.ts:12-14 | it is idempotent |
| KebabCase.KebabWhitespaceRun | src/utils/convertToKebabCase.ts:12 | each whitespace run becomes one `-` |
| KebabCase.KebabLettersAndDigits | src/utils/convertToKebabCase.ts:12-14 | removing `-` from the output leaves the input's ASCII letters and digits, lowercased, in order |
| KebabCase.KebabFixedPoint | src/utils/convertToKebabCase.ts:12-14 | a string in `[a-z0-9-]` is unchanged |
| KebabCase.KebabKeepsHyphensAround | src/utils/convertToKebabCase.ts:12-13 | existing hyphens are not collapsed: `x - y` becomes `x---y` |
| KebabCase.KebabKeepsHyphens | src/utils/convertToKebabCase.ts:12-13 | `a - b` becomes `a---b` |
| SnakeCase.SnakeAlphabet | src/utils/convertToSnakeCase.ts:3-5 | every output character is in `[a-z0-9_]` |
| SnakeCase.SnakeLength | src/utils/convertToSnakeCase.ts:3-4 | output length is at most input length |
| SnakeCase.SnakeIdempotent | src/utils/convertToSnakeCase.ts:3-5 | it is idempotent |
| SnakeCase.SnakeWhitespaceRun | src/utils/convertToSnakeCase.ts:3 | each whitespace run becomes one `_` |
| SnakeCase.SnakeIsKebabRenamed | src/utils/convertToSnakeCase.ts:3-4 | without `-` or `_`, the output is the kebab-case output with `-` renamed `_` |
| Search.SearchResults | src/components/Search/Search.tsx:233-247 | a hotel is a result exactly when the lower-cased input occurs in its lower-cased name, city or `name, city`; as a `Seqs.Filter`, data order is kept by `Seqs.FilterKeepsOrder` |
| Search.MatchIsComboMatch | src/components/Search/Search.tsx:233-247 | the `name, city` test alone decides a match |
| Search.EmptyQueryMatchesAll | src/components/Search/Search.tsx:233-247 | an empty input keeps every hotel, in order |
| Search.AllCities | src/components/Search/Search.tsx:58-62 | one entry per hotel, in order: its city and the lower-cased city |
| Search.CityMatches | src/components/Search/Search.tsx:216-230 | only matching cities; no two entries with the same name; every matching city name present |
| Search.CityMatchesInOrder | src/components/Search/Search.tsx:216-230 | the matches follow the order of the data |
| Search.CityMatchesHaveHotels | src/components/Search/Search.tsx:216-247 | every matched city is the city of some hotel in the results |
| Search.FindCityMatches | src/components/Search/Search.tsx:216-230 | the `forEach` with its `Map` of seen names computes the city matches |
| Search.UrlText | src/components/Search/Search.tsx:175-176 | date and name text for the URL has no whitespace and no comma |
| Search.UrlTextOfPlain | src/components/Search/Search.tsx:175-176 | text with neither is unchanged |
| Search.UrlTextIdempotent | src/components/Search/Search.tsx:175-176 | applying it twice is applying it once |
| Search.SubmitUrlShape | src/components/Search/Search.tsx:163-192 | submit is refused exactly when no hotel and no (non-empty) city is selected; a hotel gives `/hotel/…`, otherwise `/travel/…` |
| Search.SearchWidget.constructor | src/components/Search/Search.tsx:121-142 | initial values override the defaults only when truthy; the dates default to the coming Friday and Sunday |
| Search.SearchWidget.HandleSearch | src/components/Search/Search.tsx:200-252 | a keystroke stores the input, the hotel results and the city matches, and clears the forced close of the dropdown, so that `ResultsVisible` then depends only on the results and the input length; nothing else changes |
| Search.SearchWidget.SelectHotel | src/components/Search/Search.tsx:318-322 | the input becomes `name, city`, the hotel is selected, the city selection cleared, the dropdown closed |
| Search.SearchWidget.SelectCity | src/components/Search/Search.tsx:360-364 | the mirror image: the city is selected and the hotel selection cleared |
| Search.SearchWidget.CloseResults | src/components/Search/Search.tsx:306-311 | leaving the last result closes the dropdown |
| Search.SearchWidget.SetShowCalendars | src/components/Search/Search.tsx:456-462 | opening the calendar closes the travelers panel and the dropdown |
| Search.SearchWidget.SetShowTravelersInputs | src/components/Search/Search.tsx:479-485 | opening the travelers panel closes the calendar and the dropdown |
| Search.SearchWidget.FocusSearchInput | src/components/Search/Search.tsx:443-446 | focusing the input closes both popovers |
| Search.SearchWidget.ClickCounter | src/components/Search/TravelersSection.tsx:92 | an enabled button sets its own counter to the button's count, leaving the other counter alone |
| Search.SearchWidget.HandleDateChange | src/components/Search/Search.tsx:260-280 | ignores anything but a complete pair; a same-day pair stores checkout one day later, also in the calendar's array; otherwise stores both ends |
| Search.SearchWidget.HandleSubmit | src/components/Search/Search.tsx:163-192 | returns the submit URL for the current state and raises the error exactly when nothing is selected |
| Search.SearchWidget.DismissSearchError | src/components/Search/Search.tsx:410-415 | the error's Close button hides it and focuses the text field, which closes both popovers |
| Search.SameDayRangeIsOneNight | src/components/Search/Search.tsx:270-275 | the adjusted same-day stay is one calendar night and at least one night on the label |
| LegacySearch.CityResults | src/components/Search.tsx:36-38 | a hotel is a result exactly when its lower-cased city contains the lower-cased input |
| LegacySearch.EmptyQueryKeepsAll | src/components/Search.tsx:37 | an empty input keeps every hotel, in order |
| LegacySearch.CityMatchIsWidgetMatch | src/components/Search.tsx:36-38 | a city match is a match of the newer widget |
| LegacySearch.CityResultsWithinWidget | src/components/Search.tsx:36-38 | the older results are a subsequence of the newer widget's results |
| LegacySearch.LegacySearchBox.constructor | src/components/Search.tsx:19-20 | empty input, no results |
| LegacySearch.LegacySearchBox.HandleSearch | src/components/Search.tsx:28-41 | the text state becomes the typed value and the results the city matches |
| CityPage.RawCity | src/pages/CityResults.tsx:32 | the raw city is non-empty and has no slash |
| CityPage.TrailingSlashIsUnknown | src/pages/CityResults.tsx:32 | a path ending in `/` names the city `unknown` |
| CityPage.RawCityIsLastSegment | src/pages/CityResults.tsx:32 | otherwise it is whatever follows the last slash |
| CityPage.CityPageRoundTrip | src/pages/CityResults.tsx:32-35 | the page reached through a city's slug shows that city's name again |
| CityPage.HotelsInCity | src/pages/CityResults.tsx:109 | exactly the hotels whose city equals the page's city, case-sensitively; as a `Seqs.Filter`, in data order by `Seqs.FilterKeepsOrder` |
| CityPage.NotFoundIffNoHotel | src/pages/CityResults.tsx:113-127 | "No Hotels Found" exactly when no hotel has the city; otherwise the listing holds exactly its hotels |
| CityPage.CountHeadingPlural | src/pages/CityResults.tsx:145-148 | the heading starts with the count and says `hotels` exactly for more than one |
| CityPage.Grown | src/pages/CityResults.tsx:67-73 | appending the parameter pieces keeps what was there; the result is that start alone or ends in `&` |
| CityPage.GrownFrom | src/pages/CityResults.tsx:65-73 | the link is its path followed by the parameter part on its own |
| CityPage.BuildHotelUrl | src/pages/CityResults.tsx:63-73 | the string-growing loop builds `/hotel/{slug}/{slug}?` and the parameter pieces |
| CityPage.HotelUrlEnds | src/pages/CityResults.tsx:65-73 | the link always ends in `?` or `&` |
| CityPage.ParamSuffixSkipsEmpty | src/pages/CityResults.tsx:67-73 | the pieces are exactly the parameters with a non-empty value, in order |
| CityPage.HotelLinkPath | src/pages/CityResults.tsx:63-65 | the link's path has the parts `hotel`, city slug, name slug, and parameter extraction decodes the name slug |
| Home.SortByCity | src/pages/Home.tsx:36 | the array is reordered in place, non-decreasing by city, as a permutation |
| Home.InsertLast | src/pages/Home.tsx:36 | one insertion step extends the sorted prefix by one; the array stays a permutation of itself and every element after that prefix stays in place |
| Home.CityKeys | src/pages/Home.tsx:39-41 | the group keys are the distinct cities of the data, each once |
| Home.Group | src/pages/Home.tsx:42 | a group holds exactly the hotels of its city |
| Home.GroupByCity | src/pages/Home.tsx:38-43 | the loop's dictionary has exactly the keys of the cities, in first-seen order, and each group is that city's hotels in array order |
| Home.OneGroupEach | src/pages/Home.tsx:38-43 | every hotel is in exactly one group, its own city's |
| Home.GroupSizesSum | src/pages/Home.tsx:38-43 | the group sizes sum to the number of hotels |
| Home.SortedKeys | src/pages/Home.tsx:36-43 | after the sort, the groups come in city order |
| Home.HomePage.constructor | src/pages/Home.tsx:25 | no groups before the effect runs |
| Home.HomePage.LoadEffect | src/pages/Home.tsx:32-46 | the effect sorts the shared array and stores its groups; the loading message shows exactly when there are no hotels |
| Home.PercentEncodeNoSlash | src/pages/Home.tsx:82-84 | an encoded path segment never holds a slash |
| Home.HomeLinkReadsBack | src/pages/Home.tsx:82-84 | the hotel page reads the hotel's own name back from the home page's link |

## Left out

- Network fetch, router, DOM bootstrapping, page titles and the static microsite page have no logic modelled here.
- The calendar widget wrapper, JSX, CSS classes, aria attributes, focus refs and `window.location.href` assignment are left out. Submission returns its URL instead.
- Locale date formatting (`toLocaleDateString`) and `new Date(string)` parsing are parameters, not definitions.
- The same-day test in `handleDateChange` compares locale date strings. It is modelled as equal day numbers.
- Local time zones, daylight-saving shifts and `setDate` month rollover are not modelled. Instants are milliseconds in one uniform local time.
- Floating point (the member rate `daily_rate * 0.9` and `toFixed`) is left out. The night count's float `Math.ceil` is integer ceiling division.
- DatesSection.Nights: integer ceiling division agrees with the float `Math.ceil((checkout - checkin) / 86400000)` only while the double quotient is exact enough. It can differ for stays of 2^27 days (about 367,000 years) or more, where `(k * 86400000 + 1) / 86400000` rounds to k, and for differences above 2^53 ms, where the subtraction itself rounds.
- ExtractParams.ToNumber: `Number(...)` is followed only for decimal integers with an optional sign and surrounding whitespace. Every other input (NaN, fractions, hex, exponents) is one abstract value.
- `URLSearchParams` is a list of already-decoded name/value pairs. Its own decoding of `+` and escapes is not modelled.
- Home.GroupByCity, Home.HomePage.LoadEffect: the groups are built in a plain object literal, so a city named after an `Object.prototype` member (`constructor`, `toString`, `valueOf`, `hasOwnProperty`, `__proto__`, …) reads the inherited, truthy member, is never given its `[]`, and `push` throws a `TypeError` (src/pages/Home.tsx:39-42). The model's dictionary is a `map` without a prototype and groups such a city like any other.
- Upper- and lower-casing is ASCII only. Unicode case mapping is not modelled.
- Search.SearchWidget.ResultsVisible, Uri.PercentEncode, Uri.PercentDecode: strings are sequences of Unicode code points, not JavaScript's UTF-16 code units. So `searchInput.length` counts a character outside the Basic Multilingual Plane as one, not two; `encodeURIComponent`'s `URIError` on a lone surrogate is not modelled (a lone surrogate is not a Dafny `char`); and the length lemmas of the decoding count code points.
- Home.SortByCity: only the outcome of `Array.prototype.sort` is stated: sorted and a permutation. Stability is not, and the insertion sort stands for the engine's algorithm. `localeCompare` is a caller-supplied total preorder.
- `Object.keys` moves integer-like keys to the front. The model keeps insertion order only, which is the same for city names.
- React scheduling (`isFirstRender`, `useMemo`, effect timing) is not modelled. The initial values are constructor arguments, applied when truthy, as the first render does.
- Search.SearchWidget: dates are stored as `Option<int>` values, so the sharing of one `Date` object between state and the calendar's array is not modelled. The stored checkout of a same-day range is a copy, as in the source.
- Capitalize.CapitalizeWordsInStringUpcased and the lemmas beside it hold only for text without `$`. With `$`, `String.prototype.replace` expands replacement patterns, which the model exhibits by example.

## Findings

| source | as written | input that shows it | evidently intended | confidence | as-written member | corrected member |
|---|---|---|---|---|---|---|
| src/utils/capitalizeWordsInString.ts:20-23 | each hyphen piece after the first is capitalised where it first occurs anywhere in the string | `ab-b` gives `AB-b`, and applying it again gives `AB-B` | capitalise the piece that follows the hyphen: `Ab-B`, idempotent | high, not executed | Capitalize.CapitalizeWordsInStringFirstOccurrence | Capitalize.CapitalizeWordsCorrected |
| src/utils/capitalizeWordsInString.ts:22 | the piece is passed as a `replace` replacement string, so `$$` collapses to `$` | `a-$$` gives `A-$` | the piece is inserted literally: `A-$$` | high, not executed | Capitalize.CapitalizeWordsInStringDollar | Capitalize.CorrectedExamples |
| src/components/Search/DatesSection.tsx:71-72 | nights are the ceiling of the elapsed days | the default stay, Friday 00:00 to Sunday 23:59:59, is labelled `(3 nights)` | count calendar nights: `(2 nights)` | medium, not executed | DatesSection.DefaultStayLabel | DatesSection.StayLabelDefault |
