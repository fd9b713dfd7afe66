# Vehicle-specification field extractors

`linear_utils.py` turns the free-text engine and trim description of a used-car
listing into ten columns. Each extractor runs a single `re.search` over the
text:

- Seven of them return the matched text, or a fixed default when nothing
  matches. They are fuel type, cylinder layout, fuel injection, forced
  induction, transmission type, color and color finish.
- Three of them return a number, or `pd.NA` when nothing matches. They are
  horsepower, displacement and transmission speed count.

This project models each extractor as a Dafny function on `string`. It proves
that each function returns what Python's leftmost-first, backtracking regular
expression search returns. It also proves properties that the patterns imply.

How the model is built:

- **`Search`** is the search discipline. Start positions are tried from left
  to right, up to and including the empty suffix. At each position the
  alternatives of the alternation are tried in the order they are written
  (`FirstChoice`, `Leftmost`).
- **`Keywords`** covers the seven case-insensitive searches over a list of
  literal terms.
  - `OccursAt` says a term matches at a position.
  - `LeftmostFirst` says a match starts at some position and no term matches
    earlier.
  - At that position, no term listed before it matches.
  - `KeywordMatch` returns exactly the input's own text of that match.
  - `KeywordOr` adds the default.
- **`Numerals`** covers `\d+(?:\.\d+)?`, shared by horsepower and
  displacement.
  - `IsNumeral` is every way the fragment can match.
  - `NumeralAt` is the way Python's greedy matcher takes, and the longest.
  - `NumeralDetermined` shows that backtracking can never pick a different
    numeral, because of what follows the numeral.
- **`Cylinders`** covers the six-alternative cylinder pattern.
  - `Way` relates every way each alternative can match.
  - `FormAt` is the greedy way, proved to be the longest.
- **`Pieces`** and **`TransReadings`** cover the transmission pattern, which
  writes `a/?t` and `m/?t` with an optional slash. The extractor uses the
  literal list `TransTerms`, where each of these is written as its two
  readings, slash first. `TransReadingsAgree` proves that the pattern as
  written and that list give the same match at every position, and
  `TransmissionTypeAsWritten` that the search with the pattern as written
  gives the same result.
- **`LinearUtils`** holds the ten extractors. **`ExtractorProperties`** holds
  consequences of them: precedence between overlapping terms, round trips for
  numbers, case sensitivity, and concrete listings.

Numbers are exact: `real` values built from the digit strings. Python's
`float()` would round them (see below).

## Behaviour worth knowing

The model follows what the code does. In three places this differs from how
the extractors are usually described:

- `get_speed` returns the first run of digits anywhere in the text, not the
  number in front of "Speed".
  - "2.0L 6-Speed" gives 2 (`SpeedOfListing`).
  - "402HP, Single-Speed" gives 402 (`SpeedOfElectricListing`).
  - The general statement is `SpeedOfFirstNumber`.
  - The `-?\s?(?:speed)?` tail is optional, so it never affects the result.
- `a/?t` and `m/?t` are not anchored to words. The "at" inside "Heated" is a
  transmission type, so `get_trans_type("Heated")` returns "at"
  (`HeatedIsAutomatic`).
- A "straight"/"flat" prefix belongs to the cylinder match, so
  "straight 6 Cylinder" is returned whole (`CylinderKeepsPrefix`).

## Model

| member | source | states |
|---|---|---|
| LinearUtils.FuelType | linear_utils.py:5-7 | the leftmost-first fuel term in the input's own casing; "NA" exactly when no term occurs anywhere |
| LinearUtils.NotAFuelTerm | linear_utils.py:6-7 | the default "NA" is not a spelling of any fuel term, so it cannot be confused with a match |
| LinearUtils.Horsepower | linear_utils.py:9-11 | nothing exactly when no numeral is followed by an upper-case "HP"; otherwise the exact value of the leftmost such numeral |
| LinearUtils.HpAt | linear_utils.py:10 | Python's match at one position exists exactly when some way of matching there does, and is the only such way |
| LinearUtils.HpWaysDetermined | linear_utils.py:10 | backtracking never gives another numeral: any way to match at i uses the greedy numeral |
| LinearUtils.SearchMeetsHp | linear_utils.py:10-11 | the position scan finds the leftmost horsepower match, or none when no position has one |
| LinearUtils.Engine | linear_utils.py:13-15 | nothing exactly when no numeral is followed by at most one whitespace and an upper-case "L"; otherwise the exact value of the leftmost such numeral |
| LinearUtils.EngineAt | linear_utils.py:14 | Python's match at one position exists exactly when some way does; every way has the same numeral |
| LinearUtils.EngineWaysDetermined | linear_utils.py:14 | the optional whitespace and the "L" after it force the greedy numeral |
| LinearUtils.SearchMeetsEngine | linear_utils.py:14-15 | the position scan finds the leftmost displacement match, or none when there is none |
| LinearUtils.Cylinder | linear_utils.py:17-19 | "NA" exactly when no alternative matches anywhere; otherwise the text of the leftmost, first-listed, greedy match |
| LinearUtils.FuelInjection | linear_utils.py:21-23 | the leftmost-first injection term verbatim; "NA" exactly when none occurs |
| LinearUtils.NotAnInjectionTerm | linear_utils.py:22-23 | "NA" is not a spelling of any injection term |
| LinearUtils.Turbo | linear_utils.py:25-27 | the leftmost-first induction term verbatim; "NA" exactly when none occurs |
| LinearUtils.NotATurboTerm | linear_utils.py:26-27 | "NA" is not a spelling of any induction term |
| LinearUtils.TransmissionType | linear_utils.py:29-31 | the leftmost-first transmission term verbatim, or "M/T" when none occurs |
| LinearUtils.Speed | linear_utils.py:33-35 | nothing exactly when the text has no digit; otherwise the integer value of the first maximal run of digits |
| LinearUtils.SearchMeetsSpeed | linear_utils.py:34-35 | the scan stops at the first digit of the text and reports the whole run of digits there |
| LinearUtils.Color | linear_utils.py:37-39 | the leftmost-first color verbatim; "Miscellaneous" exactly when none occurs |
| LinearUtils.NotAColor | linear_utils.py:38-39 | "Miscellaneous" is not a spelling of any color |
| LinearUtils.ColorType | linear_utils.py:41-43 | the leftmost-first finish verbatim; "Gloss" exactly when none occurs |
| LinearUtils.NotAFinish | linear_utils.py:42-43 | "Gloss" is not a spelling of any finish |
| Search.FirstChoice | linear_utils.py:38 | an alternation takes the first alternative that matches; none exactly when no alternative matches |
| Search.FirstFrom | linear_utils.py:34 | the scan from a start position finds the first position with a match, with none before it |
| Search.Leftmost | linear_utils.py:34 | `re.search` reports the first position, from 0 to the length inclusive, where the pattern matches, and nothing exactly when no position matches |
| Search.LeftmostIsUnique | linear_utils.py:34 | any matching position with no match before it is the one the search reports |
| Search.FirstChoiceSame | linear_utils.py:30 | two alternations whose next alternatives and remaining alternatives agree give the same match |
| Search.FirstChoiceSplit | linear_utils.py:30 | one alternative that behaves as two consecutive ones can stand in for them |
| Search.LeftmostSameValues | linear_utils.py:30 | two position tests that end at the same place at every position give the same search result |
| Keywords.TermsAt | linear_utils.py:38 | at one position the alternation takes the first term that occurs there, and the match ends after that term |
| Keywords.KeywordSearch | linear_utils.py:38 | the search reports the leftmost-first term and where its match ends; nothing exactly when no term occurs |
| Keywords.SearchMeetsAlternation | linear_utils.py:38 | the position scan over the alternation meets the leftmost-first description |
| Keywords.KeywordMatch | linear_utils.py:38-39 | `group(0)`: nothing exactly when no term occurs; every leftmost-first match gives this exact text |
| Keywords.MatchedText | linear_utils.py:39 | the text of a leftmost-first match lies in the input and spells its term up to case |
| Keywords.LeftmostFirstUnique | linear_utils.py:38 | at most one position and term are the leftmost-first match |
| Keywords.SearchFindsLeftmostFirst | linear_utils.py:38 | every leftmost-first match is the one the search reports |
| Keywords.SearchFinds | linear_utils.py:38 | the leftmost-first match at i with term k is what the search reports |
| Keywords.FirstTermIsChosen | linear_utils.py:38 | the alternation at i takes the first-listed term that occurs there |
| Keywords.NothingBefore | linear_utils.py:38 | where no term occurs the alternation reports nothing |
| Keywords.TermMeansMatch | linear_utils.py:38-39 | a term occurring anywhere rules out the no-match branch |
| Keywords.LeftmostFirstWins | linear_utils.py:38-39 | the leftmost-first match is exactly what the search returns |
| Keywords.KeywordOr | linear_utils.py:39 | `value.group(0) if value else default`: the default when no term occurs, otherwise the leftmost-first text |
| Keywords.DefaultMeansNoTerm | linear_utils.py:39 | when the default spells no term, the result is the default exactly when no term occurs |
| Keywords.SearchIgnoresCase | linear_utils.py:38 | under `(?i)` inputs that differ only in letter case are matched at the same place with the same term |
| Keywords.KeywordOrWins | linear_utils.py:39 | the leftmost-first match is the extractor's result, whatever the default |
| Keywords.KeywordOrIgnoresCase | linear_utils.py:38-39 | changing letter case never switches between the default and a match |
| Keywords.KeywordOrKeepsCase | linear_utils.py:38-39 | under a change of case, each input's result is its own text at the same place, equal up to case |
| Keywords.SamePlaceResults | linear_utils.py:38-39 | under a change of case, both results are their own input's text over one same span |
| Keywords.SameMatchPlace | linear_utils.py:38 | under a change of case, the same term is the leftmost-first match at the same position of both inputs |
| Keywords.KeywordOrOfSearch | linear_utils.py:38-39 | the search over the alternation finds nothing exactly when no term occurs, and the result is then the default; otherwise the result is the text from where it starts to where its match ends |
| Keywords.KeywordOrBySearch | linear_utils.py:30-31 | any position test that ends where the alternation ends gives a search with the same outcome and the same extractor result |
| Text.RunEnd | linear_utils.py:34 | a greedy `\d+` stops at the first character that is not a digit, or at the end |
| Text.RunEndUnique | linear_utils.py:34 | a run of digits followed by a non-digit ends where the greedy run ends |
| Text.NatStringValue | linear_utils.py:35 | `int()` of the decimal spelling of n gives n back |
| Text.Lower | linear_utils.py:6 | `(?i)` folding of one character: never upper case; the character itself exactly when it is not upper case; a lower-case letter exactly when it is a letter |
| Text.RunEndLongest | linear_utils.py:34 | no run of characters of a class starting at i extends past where the greedy run ends |
| Text.DigitsAt | linear_utils.py:34 | a greedy `\d+` at i is the longest nonempty digit run there, and exists exactly when some run does; the cylinder pattern uses the same fragment |
| Numerals.NumeralAt | linear_utils.py:10 | the greedy numeral exists exactly when a digit is at i; it is a numeral, is not followed by a digit, and is the longest: no numeral at i has a longer whole part or ends later |
| Numerals.NumeralLongest | linear_utils.py:10 | the greedy whole part and optional fraction reach at least as far as those of every numeral at i |
| Numerals.NumeralDetermined | linear_utils.py:10 | a numeral followed by a character that is neither a digit nor a point is the greedy one |
| Cylinders.PrefixEnd | linear_utils.py:18 | the greedy optional "straight"/"flat" prefix with its whitespace is one of the ways that prefix can match, and the longest of them |
| Cylinders.PrefixLongest | linear_utils.py:18 | no way of matching the optional prefix ends after the greedy one |
| Cylinders.PrefixDetermined | linear_utils.py:18 | a prefix followed by a digit is the greedy one |
| Cylinders.CountedAt | linear_utils.py:18 | the first alternative matches exactly when some way of it does, and then in only one way |
| Cylinders.CountedWaysDetermined | linear_utils.py:18 | every way of the first alternative uses the greedy prefix and the greedy digits |
| Cylinders.FormAt | linear_utils.py:18 | each alternative matches exactly when some way of it does, and its match is the longest way |
| Cylinders.CylinderAt | linear_utils.py:18 | at one position the first alternative that matches is taken, with its greedy end |
| Cylinders.CylinderAtMeets | linear_utils.py:18 | the ordered alternation at i reports nothing exactly when no alternative has a way there; otherwise the first alternative that has one, with its longest end |
| Cylinders.CylinderMatch | linear_utils.py:18-19 | `group(1)`: nothing exactly when no alternative matches anywhere; otherwise the leftmost-first greedy match text |
| Cylinders.SearchMeetsCylinder | linear_utils.py:18 | the position scan meets the leftmost-first description of the cylinder alternation |
| Cylinders.CountedAtStart | linear_utils.py:18-19 | when the first alternative matches from the start of the text, the result is the text up to where that way ends |
| Cylinders.MatchIsNotNA | linear_utils.py:18-19 | no match of any alternative is the text "NA" |
| Cylinders.MatchedTextIsNotNA | linear_utils.py:18-19 | the search never returns "NA", so "NA" as a result means no match |
| Pieces.WordAt | linear_utils.py:30 | a fragment of literal characters matches exactly where the word occurs up to case, and ends after it |
| Pieces.OptionalSlashReadings | linear_utils.py:30 | `x/?y` behaves as the alternation of "x/y" then "xy": the slash reading first, the other only when that fails |
| Pieces.OccursThree | linear_utils.py:30 | a three-letter term occurs at i exactly when the three characters there match its letters up to case |
| Pieces.OccursTwo | linear_utils.py:30 | a two-letter term occurs at i exactly when the two characters there match its letters up to case |
| TransReadings.WordFragment | linear_utils.py:30 | a literal alternative of the pattern agrees with the same word as a term |
| TransReadings.SlashFragment | linear_utils.py:30 | `a/?t` and `m/?t` each agree with their two readings tried in order |
| TransReadings.WordsAgreeFrom | linear_utils.py:30 | where every remaining alternative of the pattern spells a word of the term list, the two match alike from there to the end |
| TransReadings.AgreeOverWord | linear_utils.py:30 | a literal alternative in front of agreeing tails keeps pattern and list agreeing |
| TransReadings.AgreeOverSlash | linear_utils.py:30 | `x/?t` in front of agreeing tails agrees with its two readings, slash first, in front of them |
| TransReadings.LayoutAgrees | linear_utils.py:30 | a pattern and a term list laid out like the transmission ones match alike from the first alternative |
| TransReadings.TransReadingsAgree | linear_utils.py:30 | at every position the transmission pattern as written and the term list the extractor uses give the same match |
| TransReadings.TransmissionTypeAsWritten | linear_utils.py:29-31 | `re.search` with the transmission pattern as written finds nothing exactly when no term occurs, and the result is then "M/T"; otherwise the result is the text of that search's match |
| ExtractorProperties.MetallicBeforeMetal | linear_utils.py:42 | where "Metallic" is the first finish, the result is the eight letters, not "Metal" |
| ExtractorProperties.MetalWhenNotMetallic | linear_utils.py:42 | "Metal" is the result only where "Metallic" does not start |
| ExtractorProperties.AutomaticCvtBeforeAutomatic | linear_utils.py:30 | where "Automatic cvt" is the first term, the whole phrase is returned, not "Automatic" |
| ExtractorProperties.TwinTurboWins | linear_utils.py:26 | "Twin Turbo" is returned when it starts first; "Turbo", listed first, cannot start at the same place |
| ExtractorProperties.HorsepowerAtStart | linear_utils.py:10-11 | a numeral followed by "HP" at the start of the text is the horsepower read |
| ExtractorProperties.HorsepowerOfWholeNumber | linear_utils.py:10-11 | writing n followed by "HP" and reading it back gives n |
| ExtractorProperties.WholeAtStart | linear_utils.py:10 | a digit run followed by something other than a digit or a point is a whole numeral worth its digits |
| ExtractorProperties.HorsepowerOfDecimal | linear_utils.py:10-11 | writing w.f followed by "HP" and reading it back gives the decimal w.f exactly |
| ExtractorProperties.WholeAndFraction | linear_utils.py:11 | the decimal w.f is w plus f over ten to the number of fraction digits |
| ExtractorProperties.DecimalBeforeHp | linear_utils.py:10 | the numeral in "ds.f" followed by "HP" is read whole, fraction included |
| ExtractorProperties.HorsepowerNeedsUpperCaseH | linear_utils.py:10 | the pattern has no `(?i)`: without an upper-case "H" there is no horsepower |
| ExtractorProperties.EngineAtStart | linear_utils.py:14-15 | a numeral followed by at most one whitespace and "L" at the start is the displacement read |
| ExtractorProperties.EngineOfWholeNumber | linear_utils.py:14-15 | n written before "L" or before a whitespace and "L" reads back as n, whatever follows |
| ExtractorProperties.EngineNeedsUpperCaseL | linear_utils.py:14 | without an upper-case "L" there is no displacement |
| ExtractorProperties.SpeedOfFirstNumber | linear_utils.py:34-35 | a number after digit-free text reads back as itself, whatever follows it |
| ExtractorProperties.SpeedOfFirstRun | linear_utils.py:34-35 | the first maximal run of digits is what the speed is |
| ExtractorProperties.FirstDigitRunUnique | linear_utils.py:34 | a text has one first maximal run of digits |
| ExtractorProperties.NumberPlaced | linear_utils.py:34 | a number written after digit-free text and before a non-digit is the first maximal run |
| ExtractorProperties.CylinderKeepsPrefix | linear_utils.py:18-19 | a "straight"/"flat" prefix and its whitespace are part of the returned text |
| ExtractorProperties.CountedSpelled | linear_utils.py:18 | "straight" or "flat" in any case, whitespace, digits and " Cylinder" form one way of the first alternative over the whole text |
| ExtractorProperties.SpeedOfListing | linear_utils.py:34-35 | "2.0L 6-Speed" gives speed 2: the displacement's digits come first |
| ExtractorProperties.SpeedOfElectricListing | linear_utils.py:34-35 | "402HP, Single-Speed" gives speed 402 |
| ExtractorProperties.HeatedIsAutomatic | linear_utils.py:30-31 | "Heated" gives transmission type "at": the pattern is not anchored to words |

## Left out

- Unicode: `\d`, `\s` and `(?i)` are modelled on ASCII only. Python's `str` patterns also accept non-ASCII digits, whitespace and case pairs.
- Floating point: horsepower and displacement are exact rationals. `float()` rounding to the nearest double is not modelled, nor its overflow to `inf` for numerals too large for a double (a 400-digit numeral, say).
- `pd.NA` is modelled as `None` of an `Option`. Pandas and NumPy are not modelled.
- The optional `(iter)` suffix of the displacement pattern lengthens the match but never changes group 1 or whether a match exists. The model does not track the span of the whole match.
- Likewise, the speed pattern's `-?\s?(?:speed)?` tail is left out: at one position the pattern is `Text.DigitsAt`. The tail is optional and cannot change group 1.
- LinearUtils.Speed: returns the value of any digit run, however long. Python's `int()` refuses strings of more than 4300 digits by default and raises `ValueError`; that limit is not modelled.
- Inputs are `str` only. A pandas column can also hold NaN or `None`, on which `re.search` raises `TypeError`; those inputs are not modelled.
- LinearUtils.TransmissionType: states only the general keyword result. It has no "default exactly when no term occurs" clause, because "M/T" is itself a spelling of the term "m/t".
- ExtractorProperties.HorsepowerOfDecimal: states the value as `DecimalValue` of the two digit strings. `WholeAndFraction` separately spells out that value as w plus f over a power of ten.
- The repeated alternatives ("Electric" and "Battery" in the fuel pattern, "Brown" in the color pattern) are kept as written. They can never be the first to match, and no lemma singles them out.
- The dataframe plumbing that applies these functions to columns is not part of this model.
