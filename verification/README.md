# Meteorite catalog — a verified Dafny model

The catalog loads records of meteorite landings from a CSV file. Each record
has a name, an id, and optionally a mass, a year and a location. Records are
kept in a `MeteoriteList`, an `ArrayList` in insertion order. Three queries
(by mass, by year, by location) select from it. The results of the mass and
year queries are sorted, duplicate-free singly linked lists
(`MeteoriteLinkedList`), ordered by name ignoring case, then by the id's
decimal text.

This project models the core of the catalog in Dafny and proves what the code
promises:

- `CsvLine` — `FallenStars.splitCSVLine`, the one-pass CSV tokenizer. It is a
  loop over the characters, proved to compute `Tokenize`, a fold of a
  one-character `Step`. Independent characterisations of the state are proved
  about it: quote parity, the entry count, which characters survive, and
  trimming. It also holds worked example lines.
- `Locations` — `Location`, a validated immutable coordinate pair. The distance
  is a `Metric` parameter. The equality is modelled as written, with its
  defect, next to a corrected equality.
- `Meteorites` — the `Meteorite` class:
  - a fixed identity;
  - setters that refuse invalid values and keep the old one;
  - `compareTo` and `equals`;
  - the six columns of `toString`.
- `SortedList` — `MeteoriteLinkedList` over `Node` objects. It has ghost
  `Nodes`/`Contents`/`Repr` and a `Valid()` invariant (a chain from `head` to
  `tail`, strictly increasing). `add`, `remove` and `toString` are imperative
  methods, proved against the functions `Insert`, `Removed`/`Remaining` and
  `Join`/`Lines`.
- `Catalog` — the `MeteoriteList` class and its three queries. It also holds the
  linked-list constructor that copies a catalog, which sits here because it
  needs both classes.
- `JavaText` — the parts of the Java library the code relies on:
  - `compareToIgnoreCase` and `equalsIgnoreCase`;
  - `Integer.toString`;
  - `Character.isWhitespace` and `String.trim`;
  - `%Ns`/`%-Ns` padding and `%.5f`.
- `Results` — `Option`, `Result` and `Outcome`. Each
  `IllegalArgumentException` becomes an `Error` value, and a Java `null`
  result becomes `None`.

## Model

| member | source | states |
|---|---|---|
| CsvLine.SplitCSVLine | FallenStars.java:242-303 | A `null` line gives `null`; otherwise the entries are exactly `Tokenize(line)`: the character loop agrees with the one-character state machine at every prefix |
| CsvLine.ScanState | FallenStars.java:254-293 | After any prefix: inside quotes iff an odd number of quote characters was seen; inside quotes implies inside an entry; one finished entry per comma outside quotes; the buffer is non-empty iff content followed the last separator |
| CsvLine.ScanHasNoQuotes | FallenStars.java:258-269 | Quote characters (`"`, U+201C, U+201D) only toggle the flags; neither the buffer nor any finished entry ever holds one |
| CsvLine.TokenizeHasNoQuotes | FallenStars.java:256-302 | No returned entry contains a quote character |
| CsvLine.EntryCount | FallenStars.java:279-300 | The number of entries is the number of commas outside quotes, plus one exactly when content followed the last of them: a trailing comma adds no empty entry, `a,,b` keeps an empty middle one |
| CsvLine.OnlyLastEntryTrimmed | FallenStars.java:283-300 | Entries ended by a comma are returned as accumulated; only the last entry is trimmed |
| CsvLine.StepKeepsEssential | FallenStars.java:258-293 | One character adds itself to the non-whitespace text exactly when it is not a quote, not whitespace and not a comma outside quotes |
| CsvLine.ScanKeepsEssential | FallenStars.java:254-293 | Before the last entry is trimmed, and apart from whitespace, the entries hold exactly the characters that are not quotes, whitespace or commas outside quotes, in input order; so a comma appears in an entry only if it was inside quotes |
| CsvLine.EntryStartAfterSeparator | FallenStars.java:279-287 | At the start of the line and after a comma outside quotes, the tokenizer is outside quotes, outside an entry, with an empty buffer |
| CsvLine.WhitespaceIsIdle | FallenStars.java:270-277 | Whitespace at the start of an entry, outside quotes, leaves the state unchanged |
| CsvLine.LeadingWhitespaceDropped | FallenStars.java:270-277 | Inserting whitespace at the start of an entry outside quotes does not change the result |
| CsvLine.EntryFlag | FallenStars.java:258-293 | After any prefix, the tokenizer is inside an entry exactly when the prefix is inside quotes or content followed the last quote character and the last separator |
| CsvLine.WhitespaceKeptExactly | FallenStars.java:270-277 | For every prefix, a whitespace character is appended to the current entry exactly when the prefix is inside quotes or content followed the last quote and the last separator, and dropped otherwise; the finished entries do not change |
| CsvLine.SpaceAfterClosingQuoteDropped | FallenStars.java:258-277 | Right after a closing quote the entry flag is cleared, so whitespace there is dropped and leaves the state unchanged |
| CsvLine.ExampleQuotedComma | FallenStars.java:242-303 | `a,"b,c",d` gives `["a", "b,c", "d"]` |
| CsvLine.ExampleEmptyMiddle | FallenStars.java:242-303 | `a,,b` gives `["a", "", "b"]` |
| CsvLine.ExampleTrailingSeparator | FallenStars.java:242-303 | `a,b,` gives `["a", "b"]` |
| CsvLine.ExampleWhitespace | FallenStars.java:242-303 | ` x ,y ` gives `["x ", "y"]`: the leading blank is dropped, the blank inside the first entry is kept, and only the last entry is trimmed |
| CsvLine.ExampleSmartQuote | FallenStars.java:242-303 | A line quoted with `"` and U+201D gives one entry without the quotes |
| CsvLine.ExampleSpaceAfterClosingQuote | FallenStars.java:242-303 | `"a" b` gives `["ab"]`: the blank after the closing quote is dropped |
| JavaText.Trim | FallenStars.java:299 | `String.trim` removes exactly the leading and trailing characters up to U+0020, and the result neither starts nor ends with one |
| JavaText.TrimIdempotent | FallenStars.java:299 | Trimming twice is trimming once |
| JavaText.CompareIgnoreCaseZero | Meteorite.java:158 | `compareToIgnoreCase` is zero exactly when `equalsIgnoreCase` holds |
| JavaText.CompareIgnoreCaseAntisymmetric | Meteorite.java:158 | Swapping the arguments negates the result |
| JavaText.CompareIgnoreCaseTransitive | Meteorite.java:158 | "Sorts before" ignoring case is transitive |
| JavaText.CompareIgnoreCaseCongruent | Meteorite.java:158 | Strings equal ignoring case compare identically against any third |
| JavaText.IntToString | Meteorite.java:160 | `Integer.toString` is non-empty, ends in a digit, and is the decimal digits of a non-negative value |
| JavaText.DigitsInjective | Meteorite.java:160 | Distinct ids have distinct decimal strings |
| JavaText.DigitsEqualIgnoringCase | Meteorite.java:160 | Two ids' strings are equal ignoring case exactly when the ids are equal |
| JavaText.PadLeftKeepsText | Meteorite.java:203-261 | `%Nd`/`%Ns` keep the text at the end of the field and fill the front with blanks |
| JavaText.PadRightKeepsText | Meteorite.java:203-261 | `%-20s` keeps the name at the front and fills the rest with blanks |
| JavaText.Fixed5 | Meteorite.java:210-212 | Under a locale with a '.' decimal separator, `%.5f` has a point followed by exactly five digits, and a leading minus sign exactly for a negative value |
| Locations.NewLocation | Location.java:24-39 | Succeeds iff -90 ≤ latitude ≤ 90 and -180 ≤ longitude ≤ 180; the latitude is checked first; the getters return the arguments |
| Locations.GetDistance | Location.java:88-91 | Refused with `UndefinedLocation` exactly for a `null` argument; otherwise the metric's value, non-negative for a non-negative metric |
| Locations.EqualsAsWrittenIgnoresLongitude | Location.java:126-138 | `equals` as written holds exactly when the latitudes differ by less than 0.00001, whatever the longitudes |
| Locations.EqualsAsWrittenCounterexample | Location.java:133-134 | (0, 0) and (0, 180) are equal as written but not under the corrected equality |
| Locations.EqualsProperties | Location.java:126-138 | The corrected equality is reflexive and symmetric, and bounds both coordinate differences by the tolerance; on a common parallel, longitudes at least the tolerance apart are equal as written but not under the corrected equality |
| Meteorites.NewMeteorite | Meteorite.java:27-38 | Refused exactly for an empty name or a non-positive id; a new record has that name and id, mass -1, year 0 and no location |
| Meteorites.Meteorite.constructor | Meteorite.java:14-31 | A record built from a valid identity holds it, with every attribute unset |
| Meteorites.BuiltEmptyNameAccepted | Meteorite.java:28 | The reference comparison `name != ""` lets an empty name built at run time through |
| Meteorites.Meteorite.SetMass | Meteorite.java:81-89 | Stores a positive mass; otherwise refuses and keeps the old mass; keeps the attribute invariant |
| Meteorites.Meteorite.SetYear | Meteorite.java:107-115 | Stores a year in 1..2019; otherwise refuses and keeps the old year; keeps the attribute invariant |
| Meteorites.Meteorite.SetLocation | Meteorite.java:132-134 | Stores the given location, `null` included, changing no other field; a location given to it is one its constructor accepted, so the record invariant (every attribute unset or valid, the location in range) is kept |
| Meteorites.CompareKeysZero | Meteorite.java:157-163 | `compareTo` is zero exactly for names equal ignoring case and equal ids |
| Meteorites.CompareKeysAntisymmetric | Meteorite.java:157-163 | `compareTo` from the other side has the opposite value |
| Meteorites.CompareKeysTransitive | Meteorite.java:157-163 | `compareTo` is a transitive order |
| Meteorites.CompareKeysCongruent | Meteorite.java:157-163 | Records comparing equal compare identically against any third |
| Meteorites.IdsCompareAsText | Meteorite.java:157-163 | Ids break ties as text: id 10 sorts before id 9 |
| Meteorites.CompareToAgreesWithEquals | Meteorite.java:157-187 | `compareTo` is zero exactly when `equals` holds; `equals` reads only the identity, not the mutable attributes |
| Meteorites.Meteorite.Columns | Meteorite.java:203-261 | Six columns of at least 20, 4, 4, 6, 10 and 10 characters |
| Meteorites.IdColumnShown | Meteorite.java:203-261 | The id column is never blank |
| Meteorites.YearColumnBlank | Meteorite.java:203-261 | The year column is blank exactly when the year is 0 |
| Meteorites.MassColumnBlank | Meteorite.java:203-261 | The mass column is blank exactly when the mass is -1 |
| Meteorites.ValidColumnsUnsigned | Meteorite.java:203-261 | For a record whose attributes are unset or valid, as the constructor and setters keep them, the year and mass columns hold only blanks and digits (no minus sign), and a set year or mass is shown |
| Meteorites.LocationColumnsBlank | Meteorite.java:203-261 | Both coordinate columns are blank exactly when the location is `null` |
| SortedList.InsertPresent | MeteoriteLinkedList.java:66-85 | On a sorted list holding a record with the same identity, `add` changes nothing |
| SortedList.InsertAbsent | MeteoriteLinkedList.java:58-97 | Otherwise the record goes in at its unique sorted position: after every smaller record, before every greater one |
| SortedList.InsertLength | MeteoriteLinkedList.java:52-99 | `add` grows the list by one exactly when the identity was absent |
| SortedList.InsertSorted | MeteoriteLinkedList.java:52-99 | `add` keeps the list strictly increasing |
| SortedList.InsertElements | MeteoriteLinkedList.java:52-99 | `add` loses no record and adds only the argument; afterwards its identity is present |
| SortedList.MeteoriteLinkedList.constructor | MeteoriteLinkedList.java:19-20 | A new list is valid and empty |
| SortedList.MeteoriteLinkedList.Add | MeteoriteLinkedList.java:52-99 | Refuses `null`; otherwise returns true exactly when no record with the same identity was present, and the contents become `Insert(old contents, meteor)`; the list stays a valid sorted chain |
| SortedList.MeteoriteLinkedList.LinkOnly | MeteoriteLinkedList.java:58-61 | An empty list gets the node as head and tail |
| SortedList.MeteoriteLinkedList.InsertFirst | MeteoriteLinkedList.java:70-75 | A record sorting before the head becomes the new head |
| SortedList.MeteoriteLinkedList.Seek | MeteoriteLinkedList.java:78-96 | The walk moves `current` past the records after the head that sort before the key, and stops at the tail or at the first one that does not |
| SortedList.MeteoriteLinkedList.InsertAfterCurrent | MeteoriteLinkedList.java:86-91 | A record between `current` and its successor is linked in between |
| SortedList.MeteoriteLinkedList.InsertLast | MeteoriteLinkedList.java:93-97 | A record sorting after every record is linked after the tail and becomes the tail |
| SortedList.MeteoriteLinkedList.AddAfterHead | MeteoriteLinkedList.java:76-98 | Past the head, `add` returns false for an equal record and otherwise links the record in at its sorted position |
| SortedList.Lookup | MeteoriteLinkedList.java:137-156 | The record found after the head is in the list and compares equal to the key |
| SortedList.RemovalIndex | MeteoriteLinkedList.java:110-158 | `remove` takes out exactly one position and returns the record there, or takes out nothing and returns no record |
| SortedList.RemoveProperties | MeteoriteLinkedList.java:110-158 | After `remove` the list is still sorted; a returned record was in the list and the contents lose exactly it; with no record returned, the contents are unchanged |
| SortedList.RemoveAfterInsert | MeteoriteLinkedList.java:52-158 | Adding an absent record with a valid identity and then removing it by its name and id gives back the record and the old contents |
| SortedList.RemoveFound | MeteoriteLinkedList.java:144-153 | When the walk stops on a record comparing equal to the key, that record is the one removed |
| SortedList.RemoveMissing | MeteoriteLinkedList.java:139-157 | When the walk stops at the tail or at a greater record, a sorted list holds no record with the key, so stopping early is correct |
| SortedList.MeteoriteLinkedList.Remove | MeteoriteLinkedList.java:110-158 | Returns `Removed(old contents, name, id)` and leaves `Remaining(...)`: nothing on an empty list; the head when its name matches case-sensitively and its id is equal; otherwise an invalid identity is refused, and a later record is matched with `compareTo` ignoring case. The identity is checked by value, as in the corrected `NewMeteorite`, not by the reference comparison `name != ""` (see Findings) |
| SortedList.MeteoriteLinkedList.UnlinkHead | MeteoriteLinkedList.java:119-133 | Removing the head drops the first record, and `current` follows the new head (`null` when the list empties) |
| SortedList.MeteoriteLinkedList.UnlinkAfterCurrent | MeteoriteLinkedList.java:146-153 | Removing after `current` drops that position; `tail` moves back when the tail is removed |
| SortedList.MeteoriteLinkedList.RemoveAfterHead | MeteoriteLinkedList.java:137-157 | Past the head, `remove` returns and unlinks the first later record comparing equal to the key, if the walk stops on one |
| SortedList.JoinAppend | MeteoriteLinkedList.java:166-179 | Joining two non-empty parts puts exactly one line break between them |
| SortedList.JoinBreaks | MeteoriteLinkedList.java:166-179 | The text of an empty list is `""`; when no record's line contains a line break, a non-empty list's text has one line break fewer than it has records |
| SortedList.MeteoriteLinkedList.RenderChain | MeteoriteLinkedList.java:170-177 | The walk from the head yields the records' lines joined by `"\n"`, and stops on the last node |
| SortedList.MeteoriteLinkedList.ToString | MeteoriteLinkedList.java:166-179 | `""` for an empty list; otherwise the records' lines from head to tail joined by `"\n"`; `current` is left on the tail |
| SortedList.NodeCompareToAgreesWithEquals | MeteoriteLinkedList.java:188-240 | Node order is zero exactly when node equality holds |
| SortedList.BuildSorted | MeteoriteLinkedList.java:29-36 | Adding records one after another to an empty list gives a sorted list, empty only when no record was added |
| SortedList.BuildFromInput | MeteoriteLinkedList.java:29-36 | That list holds only records that were added, no more of them than were added |
| SortedList.BuildCoversInput | MeteoriteLinkedList.java:29-36 | Every added record's identity is present in that list |
| Catalog.LinkedListOf | MeteoriteLinkedList.java:29-36 | Refuses a `null` catalog; otherwise a fresh valid list whose contents are the catalog's records added in order |
| Catalog.MeteoriteList.constructor | MeteoriteList.java:22-23 | A new catalog is empty |
| Catalog.MeteoriteList.Add | MeteoriteList.java:13 | The inherited `add` appends the record and reports a change |
| Catalog.Wrap | MeteoriteList.java:46-48 | Java `int` addition: the result is a 32-bit value congruent to the exact sum, and equal to it when the sum fits |
| Catalog.InMassRangeMeaning | MeteoriteList.java:46-59 | A mass matches exactly when it is non-negative and within `delta` of `mass`; so an unset mass (-1) never matches |
| Catalog.MassRangeAgreesWithoutOverflow | MeteoriteList.java:46-59 | When `mass + delta` fits in an `int`, the window as written and the corrected one agree |
| Catalog.MassRangeOverflow | MeteoriteList.java:48 | `getByMass(Integer.MAX_VALUE, 1)` as written misses a record of mass `Integer.MAX_VALUE`, which lies in the intended window |
| Catalog.MassMatchesMembers | MeteoriteList.java:56-64 | The selected records are exactly the catalog's records whose mass is in the window |
| Catalog.MassQueryResult | MeteoriteList.java:38-69 | The returned list is sorted, holds only matching records of the catalog and the identity of every matching record, and is absent exactly when nothing matches |
| Catalog.CollectByMass | MeteoriteList.java:55-64 | The loop builds a fresh valid list from the matching records added in catalog order, and `empty` stays true exactly when none matched |
| Catalog.MeteoriteList.GetByMass | MeteoriteList.java:38-69 | Refuses a negative mass or delta; otherwise returns `null` exactly when no record matches, else the list built from the matches |
| Catalog.YearMatchesMembers | MeteoriteList.java:132-141 | The selected records are exactly those with a set year equal to `year` |
| Catalog.YearZeroMatchesNothing | MeteoriteList.java:133-136 | Year 0 matches no record, so `getByYear(0)` returns `null` |
| Catalog.YearQueryResult | MeteoriteList.java:122-146 | The returned list is sorted, holds only records of that year and the identity of each of them, and is absent exactly when none landed that year |
| Catalog.CollectByYear | MeteoriteList.java:131-141 | The loop skips unset years, builds a fresh valid list from the records of that year in catalog order, and `empty` stays true exactly when there were none |
| Catalog.MeteoriteList.GetByYear | MeteoriteList.java:122-146 | Refuses a negative year; otherwise returns `null` exactly when no record has that year, else the list built from them |
| Catalog.MeteoriteList.GetByLocation | MeteoriteList.java:80-112 | Refuses a `null` location; otherwise returns the record the left-to-right scan settles on (`null` for an empty catalog) |
| Catalog.NearestScanFindsNearest | MeteoriteList.java:89-111 | For a non-negative metric, the scan returns `null` exactly when no record has a location; otherwise a located record of the catalog at its distance, no located record is nearer, and every located record before it is strictly farther: the earliest of the nearest wins |

## Left out

- `FallenStars.main` is not modelled. It covers argument and file checks, `Scanner`, the per-line field extraction with `Integer.parseInt`/`Double.parseDouble`, the query loop on standard input and the console output. All of it is I/O.
- The haversine formula in `Location.getDistance` is not modelled. The distance is a `Metric` parameter.
- Catalog.NearestScanFindsNearest: requires the metric to be non-negative. The haversine distance is, but the model does not compute it. The `-1.0` sentinel of `getByLocation` relies on that.
- Floating point is modelled as exact `real`s. Rounding, NaN and infinities are not modelled. The same holds for the tolerance comparisons of `Location.equals` and for the decimal rounding of `%.5f` (`JavaText.Fixed5`).
- Case folding is ASCII only (`JavaText.Fold`). The full Unicode folding of `compareToIgnoreCase` and `equalsIgnoreCase` is not modelled.
- Strings are sequences of Unicode code points, whereas Java strings are sequences of UTF-16 code units. Two consequences are not modelled. First, `%-20s` and the other widths count code units in Java, so a name holding a supplementary character gets one blank fewer than `JavaText.PadRight` gives. Second, before JDK 16, `compareToIgnoreCase` ordered by code units, so a character in U+E000–U+FFFF sorted after a supplementary character, while `JavaText.CompareIgnoreCase` sorts it before.
- `Character.isWhitespace` is stated as its Unicode table. `String.trim` strips code points up to U+0020. It therefore also strips control characters that are not whitespace (U+0000–U+0008, U+000E–U+001B) from the ends of the last entry, which `CsvLine.ScanKeepsEssential` does not account for, since it describes the entries before that trim.
- JavaText.Fixed5: `String.format` in `Meteorite.toString` uses the default locale. The model assumes one whose decimal separator is '.' and whose digits are ASCII. Under a locale such as de_DE the latitude and longitude columns (`%10.5f`) would have a decimal comma. The ASCII-digit assumption also covers the `%4d`/`%6d` id, year and mass columns, which the model renders with `JavaText.IntToString`; `Formatter` would use the locale's zero digit there too.
- Integers are unbounded. The only arithmetic the core does on its `int` values is the mass window of `getByMass`, and the model writes its wrap-around out (see Findings). Ids, masses and years are otherwise not bounded to 32 bits.
- Catalog.MeteoriteList.GetByMass: uses the corrected window without overflow, not the wrapping one as written (see Findings).
- SortedList.MeteoriteLinkedList.Remove: checks the identity of the record to remove by value (`name == ""`), as the corrected `Meteorites.NewMeteorite` does, not by the reference comparison of the source (see Findings). A distinct empty-string name with a positive id is therefore refused here, where Java would go on to the walk.
- Catalog.CollectByMass: tests the corrected window `InMassRange`, not the `int` `lowRange`/`highRange` of the source, which can wrap (see Findings).
- Java strings and records are never `null` in the model, so the following Java behaviours on `null` inputs are not modelled:
  - A `null` element of the catalog reaches `add` in the linked-list constructor, which throws `IllegalArgumentException` ("null cannot be added to list").
  - `remove(null, id)` returns `null` on an empty list at the `head == null` test, before any comparison.
  - On a non-empty list the head's `getName().equals(null)` is false, so it goes on to `new Meteorite(null, id)`. The remaining cases follow.
  - With `id <= 0`, it throws `IllegalArgumentException` from `new Meteorite(null, id)`.
  - With `id > 0` on a one-node list, it returns `null` without entering the loop.
  - Only with `id > 0` and at least two nodes does `compareTo` dereference the `null` name and throw a `NullPointerException`.
- Of `MeteoriteList`'s inherited `ArrayList` API, only append and in-order iteration are modelled. The catalog's records are the field `items`.
- The `Meteorite` getters are plain field reads of the class, and `Location`'s private setters are its datatype constructor.
- The Java `Meteorite` constructor both checks and throws. In the model, `NewMeteorite` performs the check and returns the error, and the Dafny constructor requires a valid identity.
- `MeteoriteLinkedList(MeteoriteList)` is documented as refusing an empty list, but the code refuses only `null`. The model follows the code: an empty catalog gives an empty list.
- `Meteorites.Meteorite.CompareTo` (`compareTo`, Meteorite.java:157-163), `Meteorites.Meteorite.Equals` (`equals`, 174-187), `Meteorites.Meteorite.ToString` (`toString`, 203-261) and `Locations.EqualsAsWritten` (`Location.equals`, Location.java:126-138) are modelled as functions with no contract of their own. Their properties are stated by lemmas that have rows: `Meteorites.CompareKeysZero`, `CompareKeysAntisymmetric`, `CompareKeysTransitive`, `CompareKeysCongruent`, `IdsCompareAsText` and `CompareToAgreesWithEquals` for the first two; `Meteorite.Columns` and the `IdColumnShown`/`YearColumnBlank`/`MassColumnBlank`/`LocationColumnsBlank`/`ValidColumnsUnsigned` lemmas for `toString`; `EqualsAsWrittenIgnoresLongitude` and `EqualsAsWrittenCounterexample` for `Location.equals`.
- The node-level methods `Node.toString` and `Node.equals` are modelled as functions. They have no separate contracts. Their agreement with node order is `SortedList.NodeCompareToAgreesWithEquals`.
- The queries' loops are helper methods (`Catalog.CollectByMass`, `Catalog.CollectByYear`) called by the query methods.

## Findings

| source | as written | input that shows it | evidently intended | confidence | as-written member | corrected member |
|---|---|---|---|---|---|---|
| Location.java:133-134 | The longitude term is `Math.abs(l2.longitude-l2.longitude)`, which is always 0, so `equals` compares the latitudes alone | `new Location(0, 0).equals(new Location(0, 180))` is true | Both coordinates within 0.00001 | not executed | Locations.EqualsAsWrittenCounterexample | Locations.EqualsProperties |
| Meteorite.java:28 | `name != ""` compares references, so only the interned literal `""` is rejected | `new Meteorite(new String(""), 1)` is accepted with an empty name, since `new String("")` is a distinct object. Whether an empty first CSV field, built by `StringBuffer.toString()`, also gets through depends on the JDK: recent JDKs return the interned `""` for an empty buffer | Reject every empty name | not executed | Meteorites.BuiltEmptyNameAccepted | Meteorites.NewMeteorite |
| MeteoriteList.java:48 | `int highRange = mass + delta` overflows | `getByMass(Integer.MAX_VALUE, 1)` on a catalog holding a record of mass `Integer.MAX_VALUE` returns `null` | Every record with a mass in [max(0, mass - delta), mass + delta] | not executed | Catalog.MassRangeOverflow | Catalog.InMassRangeMeaning |
