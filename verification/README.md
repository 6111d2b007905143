# Voting-location filter: a Dafny model

The front end of the voting-location finder (`frontend_app/script.js`)
loads every voting location from Airtable. It then narrows the list with
the filter controls on the page: borough, site type, a date window for
community events, the nearest zip codes, and the nearest locations to a
typed address. Each record's opening hours are shown grouped by day. This
project models the logic behind that, as Dafny functions, methods and lemmas:

- **`filterAndDisplayLocations`** (module `LocationFilter`, on top of the
  generic `Ranking`).
  - The three selection stages (`Array.prototype.filter`) are modelled as a
    method with the same conditionals. It is proved equal to one filter by
    the conjunction of the active tests.
  - The two proximity stages are modelled as a stable sort by distance
    followed by `slice(0, 10)`. The zip stage ranks by the absolute
    difference of zip codes. The address stage ranks by the haversine
    distance from the geocoded input, with `Infinity` for a record whose
    geocode cache does not decode.
- **`decodeGeocodeCache`** (module `GeocodeCache`): trim, strip a leading
  marker, base64-decode with `atob` (module `Base64`), `JSON.parse`, and
  read `o.lat`/`o.lng`. Each failure becomes `null`.
- **`normalizeHours`, `formatDaysOfWeekHours` and `isConsecutiveArray`**
  (module `OpeningHours`): the label each comma-separated entry of the week
  is normalized to, the grouping of day indices under each label in
  first-seen key order, and the collapsing of a run of three or more days
  into "First - Last".
- **JavaScript built-ins** (module `JsText`): the string built-ins the code
  relies on are modelled as functions on `seq<char>`. These are `trim`,
  `\s`, `toLowerCase`, `split`, `join` and `parseInt`.

The model stands in for the side effects and browser services as follows:

- `JSON.parse` is a parameter `parse: string -> Option<Json>`, where None
  stands for a thrown `SyntaxError`.
- `haversineFunction` is a parameter
  `dist: (real, real, real, real) -> real`. It is called with the source's
  argument order `(input.lng, record.lng, input.lat, record.lat)`.
- What `geocodeAddress` resolves to is a parameter
  `geocoded: Option<Coord>`. None stands for `null`. The proxy in
  `api_functions/GeocodeAddress/index.js` answers `{ lat, lng }`.
- The DOM control values are a `Criteria` value.
- The result that `renderLocations` would receive is returned instead of
  rendered.

Integers are unbounded. Dates are their time values in milliseconds
(`Instant`), with NaN as `InvalidDate`. The `Date` range limit (TimeClip) is
written out.

## Model

| member | source | states |
|---|---|---|
| JsText.Trim | frontend_app/script.js:54 | `trim()` never lengthens the string, and what it keeps neither starts nor ends with whitespace |
| JsText.TrimStart | frontend_app/script.js:54 | the leading whitespace run is removed: the result is a suffix starting at a non-blank, and every dropped character is whitespace |
| JsText.TrimEnd | frontend_app/script.js:54 | the trailing whitespace run is removed: the result is a prefix ending at a non-blank, and every dropped character is whitespace |
| JsText.TrimIsSlice | frontend_app/script.js:54 | `trim()` returns the slice between the leading and the trailing whitespace runs |
| JsText.TrimOfTrimmed | frontend_app/script.js:54 | a string that neither starts nor ends with whitespace is unchanged by `trim()` |
| JsText.TrimStartOfWhitespace | frontend_app/script.js:54 | whitespace in front of a non-blank is all removed by `trimStart` |
| JsText.TrimStartAppend | frontend_app/script.js:54 | `trimStart` of `a + b`, with `b` not starting with whitespace, trims only `a` |
| JsText.TrimAppendNonBlank | frontend_app/script.js:54 | `trim` of `a + b`, with `b` non-blank at both ends, is `a`'s trimmed front followed by `b` |
| JsText.TrimEndAppendNonBlank | frontend_app/script.js:54 | `trimEnd` of `a + b`, with `b` not ending in whitespace, changes nothing |
| JsText.TrimEndOfNonBlank | frontend_app/script.js:54 | a string ending in a non-blank is unchanged by `trimEnd` |
| JsText.Lower | frontend_app/script.js:93 | `toLowerCase` maps each character by itself and leaves no upper-case ASCII letter |
| JsText.LowerOfLower | frontend_app/script.js:93 | lower-casing an already lower-case string changes nothing |
| JsText.LowerAppend | frontend_app/script.js:93 | `toLowerCase` distributes over concatenation |
| JsText.LowerJoin | frontend_app/script.js:93 | a join of lower-case pieces with a lower-case separator is unchanged by `toLowerCase` |
| JsText.JoinIsLower | frontend_app/script.js:93-103 | lower-case pieces joined with a lower-case separator are lower case |
| JsText.RemoveWhitespace | frontend_app/script.js:94 | `replace(/\s*/g, '')` removes every whitespace character and keeps every other one: the result has no whitespace, is a subsequence of the input, holds each non-whitespace character exactly as often as the input does, and is the input itself when there is no whitespace |
| JsText.RemoveWhitespaceAppend | frontend_app/script.js:94 | removing whitespace distributes over concatenation |
| JsText.RemoveWhitespaceJoin | frontend_app/script.js:94 | removing whitespace from a join is joining the pieces with their whitespace removed |
| JsText.Split | frontend_app/script.js:95 | `split` on one character gives at least one piece, no piece holds the separator, and joining the pieces back gives the input |
| JsText.SplitChars | frontend_app/script.js:95 | every character of every piece comes from the split string |
| JsText.SplitPiece | frontend_app/script.js:95 | a separator-free prefix joins the first piece of the rest |
| JsText.SplitJoin | frontend_app/script.js:95 | splitting undoes joining when no piece holds the separator |
| JsText.Join | frontend_app/script.js:103 | definition: the pieces with the separator between them; `SplitJoin` shows `split` inverts it |
| JsText.DigitPrefix | frontend_app/script.js:291 | the longest run of decimal digits at the front of the text |
| JsText.DigitPrefixOf | frontend_app/script.js:291 | the digit run read from digits followed by a non-digit is those digits |
| JsText.ParseMinus | frontend_app/script.js:291 | `-` followed by digits parses to the negated value of the digit run |
| JsText.Decimal | frontend_app/script.js:291 | the decimal form of a natural number is a non-empty digit run |
| JsText.SignedDecimal | frontend_app/script.js:291 | the decimal form of an integer starts with a digit or `-` |
| JsText.ParseUnsigned | frontend_app/script.js:291 | a digit run followed by a non-digit parses to the run's value |
| JsText.ParseNegative | frontend_app/script.js:291 | `-` then a digit run parses to the negated value |
| JsText.ParseSignedDecimal | frontend_app/script.js:291 | any integer written in decimal, followed by a non-digit, parses back to itself |
| JsText.ParseIntDecimal | frontend_app/script.js:291 | `parseInt(_, 10)` reads back any integer written in decimal, whatever whitespace precedes it and whatever non-digit follows |
| JsText.DecimalValue | frontend_app/script.js:291 | the decimal digits of `n` have the value `n` |
| JsText.ParseInt | frontend_app/script.js:291 | definition: skip leading whitespace, then read a signed digit run; `ParseIntDecimal` states the round trip |
| JsText.ParseSigned | frontend_app/script.js:291 | definition: an optional sign and the longest digit run, NaN (None) when there is no digit; `ParseUnsigned`, `ParseNegative` and `ParseSignedDecimal` state its values |
| Base64.CharOf | frontend_app/script.js:55 | each 6-bit value has one character in the base64 alphabet, and decoding that character gives the value back |
| Base64.StripPadding | frontend_app/script.js:55 | only trailing `=` are dropped, at most two, and only when the length is a multiple of four: a trailing `=` is then always dropped, and both of a trailing `==`; any other length is left as it is |
| Base64.DecodeChars | frontend_app/script.js:55 | the bit-buffer decode yields three bytes per group of four characters, and one or two for a final group of two or three |
| Base64.RemoveAsciiWhitespace | frontend_app/script.js:55 | the first decode step removes every ASCII whitespace character and keeps every other one: no ASCII whitespace is left, the result is a subsequence of the input, and each other character occurs exactly as often as in the input |
| Base64.KeptAt | frontend_app/script.js:55 | a character that is not ASCII whitespace survives the first decode step |
| Base64.NoAsciiWhitespace | frontend_app/script.js:55 | an encoding has no ASCII whitespace for the first decode step to remove |
| Base64.DecodeCharsQuad | frontend_app/script.js:55 | a full group of four at the front decodes on its own, ahead of the rest |
| Base64.AtobRejects | frontend_app/script.js:55 | `atob` throws on any character outside the alphabet, `=` and ASCII whitespace, wherever it stands |
| Base64.EncodeUnpadded | frontend_app/script.js:48-55 | the encoding that `atob` inverts is all alphabet characters, with a length fixed by the byte count modulo 3, and it is empty only for no bytes |
| Base64.Encode | frontend_app/script.js:48-55 | padded base64 has a length that is a multiple of four |
| Base64.EncodedLengthMod | frontend_app/script.js:48-55 | four characters per full group of three bytes, two or three for a final short group, and padding completes a group of four |
| Base64.EncodeChars | frontend_app/script.js:48-55 | every character of an encoding is in the alphabet or is `=`, and only no bytes encode to the empty string |
| Base64.DecodeEncodeUnpadded | frontend_app/script.js:55 | decoding the unpadded encoding of any bytes gives back those bytes |
| Base64.EncodeTwo | frontend_app/script.js:48-55 | two bytes encode to three characters |
| Base64.EncodeTriple | frontend_app/script.js:48-55 | three bytes encode to four alphabet characters |
| Base64.TripleBits | frontend_app/script.js:55 | the 6-bit pieces of three bytes reassemble into those bytes |
| Base64.DecodeOne | frontend_app/script.js:55 | a final group of two characters decodes to the one byte it encodes |
| Base64.DecodeTwo | frontend_app/script.js:55 | a final group of three characters decodes to the two bytes it encodes |
| Base64.DecodeTriple | frontend_app/script.js:55 | a full group of four characters decodes to the three bytes it encodes |
| Base64.DecodeEncodeOne | frontend_app/script.js:55 | one byte survives the encode-decode round trip |
| Base64.DecodeEncodeTwo | frontend_app/script.js:55 | two bytes survive the encode-decode round trip |
| Base64.DecodeEncodeShort | frontend_app/script.js:55 | fewer than three bytes survive the encode-decode round trip |
| Base64.DecodeEncodeStep | frontend_app/script.js:55 | if the bytes after the first three survive the round trip, so do all of them |
| Base64.DecodeEncode | frontend_app/script.js:55 | forgiving-base64 decodes every padded encoding back to the bytes it came from |
| Base64.StripPad | frontend_app/script.js:55 | the padding step removes exactly the padding the encoder adds |
| Base64.AtobEncode | frontend_app/script.js:55 | `atob` returns the binary string that was encoded |
| Base64.Bytes | frontend_app/script.js:55 | the bytes of a binary string, one per character, from which `Latin1` rebuilds the same string |
| Base64.Latin1 | frontend_app/script.js:55 | `atob`'s result has one character per decoded byte, each below 256 |
| Base64.Latin1Bytes | frontend_app/script.js:55 | reading the bytes of `Latin1(b)` gives back `b`: `Latin1` and `Bytes` are inverse |
| Base64.ForgivingDecode | frontend_app/script.js:55 | definition: whitespace removal, padding removal, the length and alphabet checks, then the bit-buffer decode; its round trip is `DecodeEncode` and its rejections `AtobRejects` |
| Base64.Atob | frontend_app/script.js:55 | definition: the decoded bytes as a binary string, None for the thrown error; its round trip is `AtobEncode` |
| GeocodeCache.StripLeadingJunk | frontend_app/script.js:54 | `replace(/^[^\w\/+=]+/, '')` drops exactly the leading run of characters outside `\w`, `/`, `+` and `=` |
| GeocodeCache.Clean | frontend_app/script.js:54 | the cleaned string is a suffix of the trimmed string that starts at its first kept character |
| GeocodeCache.CleanIdempotent | frontend_app/script.js:54 | cleaning a cleaned string changes nothing |
| GeocodeCache.StripJunkPrefix | frontend_app/script.js:54 | a marker of non-kept characters before a string that starts with a kept one is removed entirely |
| GeocodeCache.CleanJunkPrefix | frontend_app/script.js:54 | any marker in front of a payload that starts with a kept character and ends with a non-blank is removed by the cleaning, whitespace included |
| GeocodeCache.CleanOfTrimmed | frontend_app/script.js:54 | a string that trims to a marker followed by a payload cleans to the payload |
| GeocodeCache.KeptNotBlank | frontend_app/script.js:54 | no character the cleaning pattern keeps is whitespace |
| GeocodeCache.Coordinates | frontend_app/script.js:57-64 | the destructuring and `typeof` tests succeed exactly when `o` is present and holds numbers at `lat` and `lng`, and give that pair; a null document or null `o` throws |
| GeocodeCache.Decode | frontend_app/script.js:52-69 | each failure is reported exactly when it happens, first failure first: `MissingInput` exactly for no input, `BadBase64` exactly when `atob` throws, `BadJson` exactly when `JSON.parse` throws; it succeeds exactly when the parsed document holds numbers at `o.lat` and `o.lng`, and then with that pair |
| GeocodeCache.DecodeGeocodeCache | frontend_app/script.js:52-69 | a coordinate is returned exactly when the cleaned string decodes, parses, and has numbers at `o.lat` and `o.lng`, and it is that pair, otherwise null |
| GeocodeCache.DecodeEncoded | frontend_app/script.js:52-69 | any marker followed by the base64 of a document with numeric `o.lat` and `o.lng` decodes to exactly that pair |
| GeocodeCache.DecodePayload | frontend_app/script.js:55-60 | a payload that parses to a document with numeric `o.lat` and `o.lng` yields that pair |
| GeocodeCache.EncodedIsClean | frontend_app/script.js:54 | cleaning a marker followed by a base64 encoding leaves the encoding |
| GeocodeCache.UnderscoreRejected | frontend_app/script.js:54-55 | the cleaning keeps a leading `_` (it is in `\w`), which `atob` then rejects, so the result is null |
| GeocodeCache.NullCases | frontend_app/script.js:57-68 | no input, a document without `o`, or a non-numeric `lat` or `lng` gives null |
| GeocodeCache.BlankCacheIsNull | frontend_app/script.js:54-56 | an empty, whitespace-only or marker-only cache cleans to `""`, which `atob` accepts and `JSON.parse` rejects (JSON has no empty text), so the result is null |
| GeocodeCache.CleanOfMarker | frontend_app/script.js:54 | a string without a kept character cleans to `""` |
| GeocodeCache.IsKept | frontend_app/script.js:54 | definition: the characters outside `[^\w\/+=]`; `KeptNotBlank` shows none is whitespace |
| GeocodeCache.Payload | frontend_app/script.js:54-55 | definition: `atob` of the cleaned string; `DecodeEncoded`, `UnderscoreRejected` and `BlankCacheIsNull` state what it gives |
| GeocodeCache.Property | frontend_app/script.js:57 | definition: a property read, `undefined` (None) on anything but an object; `Coordinates` states the destructuring built on it |
| OpeningHours.MatchSound | frontend_app/script.js:97 | every match of the time pattern has valid groups and spans the whole token |
| OpeningHours.MatchTime | frontend_app/script.js:97 | every match has one or two hour digits, two minute digits if any, and `am` or `pm` |
| OpeningHours.MatchSpans | frontend_app/script.js:97 | the groups of a match spell out the whole token |
| OpeningHours.MatchComplete | frontend_app/script.js:97 | every token in the pattern's language matches, with exactly its groups |
| OpeningHours.NormalizeTokenIdempotent | frontend_app/script.js:96-102 | a normalized time is its own normalization and keeps the hour and the period |
| OpeningHours.NormalizeTokenCases | frontend_app/script.js:97-101 | a time without minutes gets `:00`, a time with minutes is unchanged, and a non-matching token passes through |
| OpeningHours.NormalizeTokenOfMatch | frontend_app/script.js:99-101 | a matched token is rebuilt as hour, `:`, minutes or `00`, and period |
| OpeningHours.NormalizeTokenPadsMinutes | frontend_app/script.js:100-101 | a matched time without minutes is rebuilt with `:00` |
| OpeningHours.NormalizeTokenKeepsMinutes | frontend_app/script.js:99-101 | a matched time with minutes is rebuilt unchanged |
| OpeningHours.NormalizeTokens | frontend_app/script.js:96-102 | definition: the `map` over the pieces; `NormalizeTokensIdempotent` and `NormalizeJoined` state its properties |
| OpeningHours.NormalizeToken | frontend_app/script.js:96-102 | definition: the `map` callback; `NormalizeTokenCases` and `NormalizeTokenIdempotent` state what it does |
| OpeningHours.NormalizeTokensIdempotent | frontend_app/script.js:96-102 | normalizing the normalized pieces again changes none of them |
| OpeningHours.NormalizeTokensExample | frontend_app/script.js:96-102 | the pieces `9am` and `5pm` become `9:00am` and `5:00pm` |
| OpeningHours.RemoveWhitespaceKeepsLower | frontend_app/script.js:93-94 | removing whitespace keeps a lower-case string lower-case |
| OpeningHours.TimeTokenPlain | frontend_app/script.js:101 | a rebuilt time has no upper-case letter, no whitespace and no `-` |
| OpeningHours.NormalizeTokenPlain | frontend_app/script.js:96-102 | normalizing a plain piece gives a plain piece |
| OpeningHours.LabelPiecesPlain | frontend_app/script.js:92-102 | every normalized piece of any text is lower case, with no whitespace and no `-` |
| OpeningHours.NormalizeJoined | frontend_app/script.js:91-104 | a label joined from plain pieces splits back into the same pieces, each normalized |
| OpeningHours.SqueezeJoined | frontend_app/script.js:92-95 | lower-casing and removing whitespace from a `" - "` join of plain pieces gives their `-` join |
| OpeningHours.Separator | frontend_app/script.js:103 | the separator `" - "` is lower case and squeezes to `-` |
| OpeningHours.PlainPiecesUnchanged | frontend_app/script.js:94 | removing whitespace piecewise leaves plain pieces as they are |
| OpeningHours.NormalizeHours | frontend_app/script.js:91-104 | the label is lower case; `NormalizeHoursIdempotent` and `NormalizeHoursIgnoresCaseAndSpacing` state the rest |
| OpeningHours.NormalizeHoursIdempotent | frontend_app/script.js:91-104 | normalizing a label again gives the same label |
| OpeningHours.NormalizeHoursIgnoresCaseAndSpacing | frontend_app/script.js:92-94 | the label of a text is the label of its lower-cased, whitespace-free form |
| OpeningHours.IncreasingGap | frontend_app/script.js:140-145 | in a strictly increasing sequence of indices, entries `j - i` apart differ by at least `j - i` |
| OpeningHours.IsConsecutiveArray | frontend_app/script.js:140-145 | true only for three or more entries, and true for every gap-free run of three or more; `ConsecutiveIsGapFreeRun` gives the converse on increasing input |
| OpeningHours.ConsecutiveIsGapFreeRun | frontend_app/script.js:140-145 | on strictly increasing day indices, `isConsecutiveArray` holds exactly for a run of three or more days without a gap (both directions) |
| OpeningHours.DayName | frontend_app/script.js:127 | definition: `dayNames[i]`, `undefined` (None) outside 0..6 |
| OpeningHours.DayText | frontend_app/script.js:125 | definition: `dayNames[i]` inside a template literal, the text `undefined` outside 0..6 |
| OpeningHours.GroupDays | frontend_app/script.js:124-129 | definition: one "First - Last" entry for a consecutive list, else each day's name; `RunCollapses` and `ShortRunListed` state both cases |
| OpeningHours.Labels | frontend_app/script.js:114-115 | definition: `normalizeHours` of each comma-separated entry, in order |
| OpeningHours.LabelsOf | frontend_app/script.js:114-115 | definition: each entry's label, in order; `FirstSeenKeys` and `IndexByLabel` state what is built from it |
| OpeningHours.FirstSeen | frontend_app/script.js:116-117 | definition: the distinct labels in first-seen order; `FirstSeenKeys` states that |
| OpeningHours.IndicesOf | frontend_app/script.js:116-117 | definition: the ascending indices carrying a label; `IndicesOfExact` states that |
| OpeningHours.FirstSeenKeys | frontend_app/script.js:117-123 | the dictionary's keys are the labels, each once, in first-seen order |
| OpeningHours.IndicesOfExact | frontend_app/script.js:117-121 | a label's day list holds exactly the indices of the entries carrying it, in ascending order |
| OpeningHours.EachDayInOneGroup | frontend_app/script.js:117-121 | every entry's index is in its own label's list and in no other |
| OpeningHours.FirstSeenStep | frontend_app/script.js:119 | one more entry adds its label to the key order exactly when the label is new |
| OpeningHours.IndicesOfStep | frontend_app/script.js:120 | one more entry appends its index to its own label's list only |
| OpeningHours.IndicesOfAbsent | frontend_app/script.js:119 | a label not yet seen has an empty list |
| OpeningHours.IndexStep | frontend_app/script.js:117-121 | one pass of the first loop keeps the dictionary equal to the grouping of the entries seen so far |
| OpeningHours.IndexByLabel | frontend_app/script.js:116-121 | the first loop builds, for every label, the ascending list of indices carrying it, with keys in first-seen order |
| OpeningHours.CollapseGroups | frontend_app/script.js:123-130 | the second loop replaces every key's index list by its day names, as a range when consecutive, and adds or loses no key |
| OpeningHours.FormatDaysOfWeekHours | frontend_app/script.js:114-132 | the result maps each distinct label, in first-seen order, to the day names of exactly the entries carrying it, collapsed to "First - Last" when they are a run of three or more |
| OpeningHours.RunOf | frontend_app/script.js:117-121 | a run of equal labels forms one group holding every index |
| OpeningHours.TwoRuns | frontend_app/script.js:117-121 | two runs of different labels form two groups, in run order, each holding its run's indices |
| OpeningHours.TwoRunsOrder | frontend_app/script.js:117-123 | the key order of two runs is the order of the runs |
| OpeningHours.TwoRunsDays | frontend_app/script.js:117-121 | each of two runs' labels holds exactly its run's indices |
| OpeningHours.TwoRunsInit | frontend_app/script.js:117 | two runs less their last entry are the runs with the second one shorter |
| OpeningHours.RunCollapses | frontend_app/script.js:125-126 | a gap-free run of three or more days of the week becomes the single entry "First - Last" |
| OpeningHours.ShortRunListed | frontend_app/script.js:127-128 | a run of fewer than three days is listed day by day |
| OpeningHours.WholeWeekCollapses | frontend_app/script.js:114-132 | a week with one label gives one key holding "Sunday - Saturday" |
| OpeningHours.TwoDayRunListed | frontend_app/script.js:114-132 | two days with one label and five with another give "Sunday", "Monday" and "Tuesday - Saturday" |
| OpeningHours.WeekRange | frontend_app/script.js:125-126 | the days Sunday to Saturday collapse to "Sunday - Saturday" |
| OpeningHours.WeekendStartListed | frontend_app/script.js:127-128 | Sunday and Monday alone are listed by name |
| OpeningHours.WeekdaysRange | frontend_app/script.js:125-126 | Tuesday to Saturday collapse to "Tuesday - Saturday" |
| Ranking.Filter | frontend_app/script.js:262 | `filter` keeps only elements of the input that pass the test, and never lengthens the list |
| Ranking.FilterIsSubsequence | frontend_app/script.js:262 | `filter` keeps the elements it keeps in their original order |
| Ranking.FilterCount | frontend_app/script.js:262 | every copy of an element that passes survives, and no copy of one that fails |
| Ranking.FilterSubMultiset | frontend_app/script.js:262 | `filter` never adds elements or copies |
| Ranking.FilterContains | frontend_app/script.js:262 | an element is kept exactly when it is in the input and passes the test |
| Ranking.FilterPartition | frontend_app/script.js:266-270 | a test and its negation split a list between them |
| Ranking.FilterKeepsAll | frontend_app/script.js:257 | a filter that every element passes changes nothing |
| Ranking.FilterSame | frontend_app/script.js:261-288 | filters by tests that agree everywhere agree |
| Ranking.FilterFilter | frontend_app/script.js:261-288 | two filters in a row are one filter by the conjunction of the tests |
| Sequences.SkipHead | frontend_app/script.js:262 | a subsequence of the tail is a subsequence of the list |
| Sequences.SubsequenceOfTail | frontend_app/script.js:262 | dropping the first element of a subsequence keeps it a subsequence |
| Ranking.Compare | frontend_app/script.js:297 | the sign of `a.distance - b.distance`: for two finite distances it is negative exactly when `a` is closer and positive exactly when `a` is farther; a finite distance against `Infinity` gives -1 and `Infinity` against a finite one gives 1; it is zero exactly for equal distances, `Infinity - Infinity` (NaN) included |
| Ranking.CompareConsistent | frontend_app/script.js:318 | the comparator is antisymmetric, and the order it gives is total and transitive, with every finite distance ahead of `Infinity` |
| Ranking.WithKey | frontend_app/script.js:297 | the records at one distance, in list order |
| Ranking.Insert | frontend_app/script.js:297 | inserting adds exactly the one record |
| Ranking.SortBy | frontend_app/script.js:297 | the sort is a permutation of the list |
| Ranking.InsertSorted | frontend_app/script.js:297 | inserting into a sorted list keeps it sorted |
| Ranking.SortBySorted | frontend_app/script.js:297 | the sort's result is non-decreasing in distance |
| Ranking.InsertWithKey | frontend_app/script.js:297 | inserting a record adds it at the front of its own distance group only |
| Ranking.SortByStable | frontend_app/script.js:297 | the sort is stable: the records at each distance keep their order |
| Ranking.SortBySortedInput | frontend_app/script.js:297 | sorting an already sorted list changes nothing |
| Ranking.SortByUnique | frontend_app/script.js:297 | any sorted list with the same records per distance, in the same order, is the sort's result, so a stable sort is unique |
| Ranking.SortedSameGroups | frontend_app/script.js:297 | two sorted lists that agree on every distance group are equal |
| Ranking.HasKeyLater | frontend_app/script.js:297 | in a sorted list, every distance that occurs ranks no earlier than the first one |
| Ranking.SortedTail | frontend_app/script.js:297 | the tail of a sorted list is sorted |
| Ranking.WithKeyIndex | frontend_app/script.js:297 | a non-empty distance group has a record in the list at that distance |
| Ranking.FirstHasKey | frontend_app/script.js:297 | the first record's distance group is not empty |
| Ranking.Nearest | frontend_app/script.js:297-299 | sort then slice keeps min(10, n) records, all from the list |
| Ranking.NearestKeepsClosest | frontend_app/script.js:297-299 | the kept records are sorted, and no dropped record is strictly closer than a kept one |
| Ranking.NearestFiniteFirst | frontend_app/script.js:314-320 | records with a finite distance come before those at `Infinity`, and one at `Infinity` is kept only if every record with a distance is kept |
| Ranking.NearestStable | frontend_app/script.js:317-320 | the records kept at a given distance are the first ones at that distance in the input |
| Ranking.WithKeyOfPrefix | frontend_app/script.js:298 | a prefix's distance group is a prefix of the list's distance group |
| Ranking.Top | frontend_app/script.js:298 | definition: `slice(0, 10)`, the first ten or all when fewer; `Nearest` and `NearestKeepsClosest` state what the stage keeps |
| Ranking.NearestReorders | frontend_app/script.js:297-299 | with ten records or fewer, the stage only reorders |
| LocationFilter.TypeChoicesPartition | frontend_app/script.js:265-270 | `dedicated` and any other type choice split every list between them |
| LocationFilter.InBorough | frontend_app/script.js:262 | definition: the record's `Borough` equals the control |
| LocationFilter.KeepsType | frontend_app/script.js:266-270 | definition: `dedicated` keeps non-events, any other choice keeps community events; `TypeChoicesPartition` states they split the list |
| LocationFilter.TimeClip | frontend_app/script.js:274-278 | definition: a time value beyond the `Date` range becomes NaN; `StartOfDay` and `EndOfDay` state its effect |
| LocationFilter.StartOfDay | frontend_app/script.js:274-275 | `setUTCHours(0, 0, 0, 0)` moves a valid time to the first millisecond of its UTC day |
| LocationFilter.EndOfDay | frontend_app/script.js:277-278 | `setUTCHours(23, 59, 59, 999)` moves every valid time below the last one to the last millisecond of its UTC day; at the last valid time value the day's end is past the `Date` range and the result is NaN |
| LocationFilter.EventKeptByDay | frontend_app/script.js:280-287 | for any valid start and any valid end below the last time value, a dated community event is kept exactly when its UTC day lies between the start and end days, both included |
| LocationFilter.EndAtMaxTimeDropsEvents | frontend_app/script.js:277-287 | an end date at the last valid time value makes the day's end NaN, so every community event is dropped, dated or not |
| LocationFilter.DateFilterCases | frontend_app/script.js:280-287 | a record that is not a community event always passes; an undated event, or any event when a bound is an invalid date, never does |
| LocationFilter.KeepsDate | frontend_app/script.js:280-287 | definition: the date filter's callback; `EventKeptByDay` and `DateFilterCases` state when it keeps a record |
| LocationFilter.ZipDistance | frontend_app/script.js:295 | the zip distance is finite and non-negative, and zero exactly when the zip code (0 when missing) is the target |
| LocationFilter.AddressDistance | frontend_app/script.js:308-315 | definition: `haversineFunction` with the source's argument order when the cache decodes, `Infinity` otherwise; `AddressStageRanks` states how it ranks |
| LocationFilter.ZipTarget | frontend_app/script.js:291-292 | definition: `parseInt(zipcodeFilter, 10)`, None for NaN |
| LocationFilter.ZipStageRanks | frontend_app/script.js:290-301 | the zip stage keeps min(10, n) records, sorted by zip distance, and none dropped is closer than one kept |
| LocationFilter.AddressStageRanks | frontend_app/script.js:303-320 | records whose coordinates decode are ranked ahead of those without, and one without is kept only when all with coordinates are |
| LocationFilter.Selected | frontend_app/script.js:261-288 | after the selection stages, a record is kept exactly when it is in the list and passes every active control, in list order, with no copies added |
| LocationFilter.Passes | frontend_app/script.js:261-288 | definition: the conjunction of the active selection tests; `SelectLocations` shows the three stages apply it |
| LocationFilter.Ranks | frontend_app/script.js:290-305 | definition: a zip code that parses, or an address that geocodes; `Proximity` states what happens in either case |
| LocationFilter.Proximity | frontend_app/script.js:290-327 | the proximity stages keep min(10, n) records when one of them applies, and otherwise leave the list unchanged |
| LocationFilter.ProximityOfSelected | frontend_app/script.js:290-329 | the proximity stages only keep selected records: every rendered record is from the input and passes every active control |
| LocationFilter.SelectLocations | frontend_app/script.js:261-288 | the three conditional filters in sequence give the records that pass every active control |
| LocationFilter.Stage | frontend_app/script.js:261-288 | one more active stage filters the output of the stages before it; an inactive one changes nothing |
| LocationFilter.BoroughStage | frontend_app/script.js:261-263 | the borough stage applies its test only when the control is set |
| LocationFilter.TypeStage | frontend_app/script.js:265-271 | the type stage applies its test only when the control is set |
| LocationFilter.DateStage | frontend_app/script.js:273-288 | the date stage applies its test only when both dates are set |
| LocationFilter.RankLocations | frontend_app/script.js:290-327 | the zip stage runs for a parseable zip code, and the address stage for a successful geocode; otherwise the list is left as it is |
| LocationFilter.FilterAndDisplayLocations | frontend_app/script.js:257-329 | the rendered list holds only records from the input that pass every active control, at most ten when a proximity stage applies, and exactly the selected records, in their order, when none applies |

## Left out

- Rendering (`renderLocations`), the screen-reader announcement, the
  translation widget and the map markers are DOM work with no logic the
  filters depend on.
- Loading the records (`fetchAllLocations`) and the two Azure functions in
  `api_functions/` are not part of this model. The records and the
  geocoding answer are inputs.
- `geocodeAddress` (the `fetch` call) is left out, and so is the
  `await`/`Promise.all` interleaving. If the controls change while a
  request is pending, an older call may render after a newer one. The model
  is one call run to completion.
- The console logging (`console.warn`, `console.error`, `console.log`) is
  left out. `Decode` keeps the reason for a null as a `DecodeError` instead.
- `haversineFunction` is left out because its trigonometry is floating
  point. It is the parameter `dist`. It takes degrees where it means
  radians, and it returns the central angle without multiplying by its
  radius `r`. The missing radius only scales every value, so it changes no
  order. Reading degrees as radians does change the order: from an input at
  latitude 40.70, longitude -74.00, a record at (40.80, -74.00) gets 0.1000
  and one at (40.70, -73.88) gets about 0.1188, so the first ranks closer,
  although the true distances are about 11.1 km and 10.1 km. The model
  ranks by whatever `dist` returns and does not fix this.
- `JSON.parse` is the parameter `parse`. Its grammar is not modelled.
- Parsing of date strings by `new Date(...)` is left out. Dates reach the
  model as time values (`Instant`), with NaN as `InvalidDate`.
- Numbers are `int`/`real`, not IEEE doubles. For zip codes and time
  values the exact-integer range covers every value the page handles, but
  `parseInt` of more than 15 digits would round in JavaScript and does not
  here. Distances are treated as reals and are never NaN.
- `toLowerCase` is modelled on ASCII letters only. Non-ASCII case mappings
  are left out.
- Strings are sequences of code points, not UTF-16 code units. The `\s`
  class is taken to be the ECMAScript WhiteSpace and LineTerminator set.
- JavaScript's loose `==` coercions are left out. The borough field and the
  control are compared as strings, and the `Zip Code` field is taken to be
  a number, with `|| 0` read as "0 when missing or 0".
- `OpeningHours.FormatDaysOfWeekHours` returns the object's keys as a
  sequence in first-seen order. JavaScript objects list integer-like keys
  first; a label that is a canonical integer (for example `"5"`) would be
  listed first by `for...in`. That ordering, and inherited
  `Object.prototype` keys such as `constructor`, are left out.
- `OpeningHours.IndexByLabel` takes the label function as a parameter
  (`normalizeHours` at its one call site). It states its result for any
  label function.
- `Ranking.SortBy` is an insertion sort, where the engine's `sort` is
  unspecified but stable. `Ranking.SortByUnique` shows that any stable
  sort under this comparator gives the same result.
- `Base64.Encode` has no counterpart on the page, which only decodes. It
  is the partner the decode round trip is proved against. The decoder
  follows the forgiving-base64 decode of the WHATWG Infra standard:
  whitespace removal, padding removal, the length and alphabet checks, and
  the bit-buffer loop.
