# Grafeo in Dafny

A model of the parts of Grafeo where correctness is hardest to see from the code, with the laws those
parts are there for proved for every input and every run. `dafny verify dfyconfig.toml` checks all of it.

- **The transaction manager** (`Transactions`, `TransactionLaws`, `TransactionTheorems`,
  `TransactionClaims`, `TransactionOutcomes`, `ReadPins`). The manager of grafeo-engine as a state machine: begin, claims on
  entities and unique keys, recorded reads, savepoints, commits that are admitted, written, taken back,
  given the turn, published in order or dropped, epochs barred, aborts, collection, read pins, horizons and
  closing, in any interleaving. An invariant is kept by every step; snapshot isolation, serializability of
  what was written and of recorded reads, whole snapshots, protection of readers and progress of publication
  follow for every run, and for every operation what it answers and leaves behind, by the commits ever
  decided and the claims held. The deque of counted epochs is a class proved to be the multiset of readers.
- **The Go value codec** (`Int64`, `Text`, `Durations`, `DurationLaws`, `DurationPrinter`, `DurationForm`,
  `Times`, `TimesLaws`, `Dates`, `Codec`, `CodecTags`, `CodecLaws`, `Walker`, `WalkerLaws`). 64-bit arithmetic
  that refuses to wrap; the ISO 8601 duration reader (section 4.4.3.2 of ISO 8601:2004), which accepts a text
  as a duration exactly when the text spells it; the printer it undoes; times of day and dates, read exactly
  when they are spelled; the tags parameters are written as, and `decodeTags` against what each tag stands
  for; and the walker over Go values that may share parts or hold themselves.
- **The spec-test build script** (`Numbers`, `SpecJson`, `SpecJsonLaws`, `SpecJsonCursor`, `JsonTables`,
  `Gtest`, `GtestLaws`, `GtestExact`, `RustLiteral`). The number recognisers against the regular expressions above them; the JSON
  reader (sections 6 and 7 of RFC 8259, to a tree) against every way of writing a value; the query field of
  a .gtest file, what it is in any file and against the Python generator that writes it; the escapes of Rust
  string literals.
- **Graph searches of the tooling** (`Graphs`, `Hops`, `Boundary`, `Selection`). Breadth-first search with
  its shortest walks, the hop count of a benchmark, the crate boundary check with its chains, and the
  packages a commit can break.
- **The Go transaction handle** (`TransactionHandle`) over every sequence of calls.
- **The release gate of difftest** (`ResultText`, `DiffGate`): canonical texts, and the exit code.

What the code takes from a library (`strings.ToLower`, base64, float formatting, the calendar, RFC 3339 texts,
`char::is_alphanumeric`, which number texts fit a float, a digest) is a parameter with the few laws used stated as
a predicate. `int` in the Go files is 64 bits wide. Where loops go through a map or a set the model picks the
next key arbitrarily, so the laws hold for every order.

Seven places where the code differs from what a reader might expect, kept as the code has them:

- `ParseDuration` takes designators in any order and more than once, and drops whatever follows the ninth
  digit of a fraction; `DurationLaws.Spells` says exactly what is accepted.
- `ParseTime` takes any number of digits for hours, minutes and seconds as long as the values are in range, and
  a fraction also without seconds; `TimesLaws.SpellsTime` says exactly what is accepted.
- A map that reads as a tag is sent as it is and comes back as what the tag stands for, except one whose only
  entry is a float under `$timestamp_us`: the float gets a fraction on the way, and the map comes back as a map.
  `CodecLaws.DecodeEncoded` counts it so.
- `hops` gives -1 when start and end are the same person; `Hops.CountHops` states it.
- A commit that is taken back (`CommitGuard::abort`) makes its transaction active again, but while it was
  committing its start epoch did not hold `gc` back. If it then claims more and commits, a conflict with a
  collected commit is missed: `TransactionTheorems.TakenBackLosesUpdate` is a run that loses an update. Such a
  transaction is called strayed. The engine's own callers roll a taken-back transaction back
  (crates/grafeo-engine/src/session/mod.rs:5514-5516, 5537-5539). The theorems are about all runs, with or without
  strayed transactions; the three about conflicts hold for every transaction that has not strayed, and for one
  that has, `CommitOutcome` says which conflicts are still found.
- The walker tells containers apart by kind, address and length, not by type. A pointer to an array and one to
  its first element have the same key, so for `arr[1] = &arr[0]` the parameter `&arr` is refused as holding
  itself although it stands for a list of two equal items: `WalkerLaws.FalseMarker`. The marker appears exactly
  when a path meets a key twice (`WalkExact`), that is when the value holds itself or a path from it meets
  two different containers of one key (`MarkerExact`).
- `Publish::complete_with` checks that its epoch is not barred, runs the commit's ordered steps and publishes,
  while `incomplete_from` bars epochs without waiting for the turn. A commit in its turn when the manager is
  poisoned is therefore published above the bar: `TransactionTheorems.PublishedPastBar`. It is the only one:
  `BarredExactly` says that a barred epoch can still be published if and only if its commit holds the turn, and
  `DroppedNeverPublished` that a dropped commit never is.

## Model

| member | source | states |
|---|---|---|
| Int64.CheckedAdd | crates/bindings/go/temporal.go:408-412 | on wrapping int64, reports a fit exactly when the true sum fits, and then returns it |
| Int64.CheckedMul | crates/bindings/go/temporal.go:414-422 | on wrapping int64, reports a fit exactly when the true product fits, and then returns it; -1 and the least int64 included |
| Int64.DivisionTest | crates/bindings/go/temporal.go:414-422 | dividing the wrapped product back finds every overflow except the two by -1 that are named |
| Durations.AddProduct | crates/bindings/go/temporal.go:434-441 | reports a fit exactly when both the product and the running total fit |
| Durations.ParseDuration | crates/bindings/go/temporal.go:340-406 | the parser with its early returns computes the specification `Parse` that the laws are about |
| Durations.ParseComponents | crates/bindings/go/temporal.go:349-398 | the single pass with cursor, start mark and flags computes the component-by-component scan |
| DurationLaws.ParseExact | crates/bindings/go/temporal.go:340-441 | a text is accepted as d if and only if it is a sign and components whose unbounded sums are d, every component and running total within int64 |
| DurationLaws.SecondsExact | crates/bindings/go/temporal.go:452-491 | the seconds reader accepts exactly the numbers whose nanoseconds, by the decimal value of whole part and fraction, fit, and returns them |
| DurationLaws.FractionExact | crates/bindings/go/temporal.go:460-483 | the fraction's reader gives the nanoseconds of the decimal fraction, cut off; after a minus, hundred-millionths for up to eight digits with a zero first |
| DurationLaws.UnitsFloor | crates/bindings/go/temporal.go:460-483 | those are the largest number of units that does not exceed the fraction |
| DurationLaws.AddPartExact | crates/bindings/go/temporal.go:362-394 | a component is added exactly when its unbounded contribution and the new total are in range |
| DurationLaws.Designators | crates/bindings/go/temporal.go:362-394 | the months, days or nanoseconds one of each designator stands for, before and after the T, and which are none |
| DurationLaws.NegationFits | crates/bindings/go/temporal.go:399-406 | a duration can be negated exactly when no component is the least int64, and then the components are the negatives |
| DurationPrinter.RoundTrip | crates/bindings/go/temporal.go:494-543 | for all int64 triples, reading the printed text gives the triple back, or an error exactly when nothing is positive and a component is the least int64 |
| DurationForm.PrintedForm | crates/bindings/go/temporal.go:494-543 | the printed text is the one form of the duration: a minus exactly when nothing is positive, years, months, days, hours, minutes and seconds each as large as they can be and of the sign of their field, those that are zero left out, a fraction without trailing zeros, PT0S for nothing |
| DurationPrinter.Format | crates/bindings/go/temporal.go:494-543 | the builder writes the sign, the P and the rendered components of the printed value |
| DurationPrinter.FormatTime | crates/bindings/go/temporal.go:514-538 | the text after the T is the rendered hours, minutes and seconds |
| DurationPrinter.FormatSeconds | crates/bindings/go/temporal.go:526-536 | the seconds' text with sign, whole part and trimmed fraction |
| DurationPrinter.ItemsSum | crates/bindings/go/temporal.go:494-543 | the printed components add up to the duration again, never leaving int64 on the way |
| DurationPrinter.TimeParts | crates/bindings/go/temporal.go:514-517 | hours, minutes and seconds rebuild the nanoseconds, each with their sign |
| DurationPrinter.SecondsTextMeans | crates/bindings/go/temporal.go:526-536 | the printed seconds mean the nanoseconds below the minute, also a negative fraction under zero seconds |
| DurationPrinter.LegacyReads | crates/bindings/go/temporal.go:443-491 | text 0.6.0 wrote for a negative fraction reads back exactly below 0.01 s and from 0.1 s on; in between it reads as ten times the fraction, which 0.6.0 wrote alike |
| Times.NewLocalTime | crates/bindings/go/temporal.go:170-181 | a time exactly for clock fields in range, with those fields |
| Times.NewZonedTime | crates/bindings/go/temporal.go:183-198 | a time exactly for a valid clock and an offset of whole minutes within a day |
| Times.ParseTime | crates/bindings/go/temporal.go:219-268 | the parser with its field loop computes the specification `ReadTime`, of which TimesLaws.TimeExact says what it accepts |
| TimesLaws.TimeExact | crates/bindings/go/temporal.go:219-268 | a text is accepted as t if and only if it is two or three fields of digits, an optional dot and digits, and nothing, a Z, or a sign, two digits, a colon and two digits, all in range, and t has those fields, zero seconds without a third, the nanoseconds of the fraction cut off at nine digits, and that offset or none |
| TimesLaws.TimeWritten | crates/bindings/go/temporal.go:288-310 | a time is written with two digits a field, a fraction exactly when it has one and without trailing zeros, no zone when local and Z for no offset, and the text spells it |
| Times.TimeRoundTrip | crates/bindings/go/temporal.go:219-310 | every time, local or zoned, reads back from its text |
| Times.OffsetReads | crates/bindings/go/temporal.go:299-310 | every whole-minute offset within a day reads back from its text behind any clock text |
| Times.PartsBuild | crates/bindings/go/temporal.go:270-280 | hour, minute, second and nanosecond are in range and rebuild the time |
| Times.TimeOf | crates/bindings/go/temporal.go:200-215 | the same instant modulo a day, the offset cut to whole minutes, or UTC where that is not within a day, after one step at most |
| Dates.ParseDate | crates/bindings/go/temporal.go:98-121 | the parser with its loop over three parts computes the specification `ReadDate`, of which Dates.DateExact says what it accepts |
| Dates.DateExact | crates/bindings/go/temporal.go:98-138 | a text is accepted as a date if and only if it is an optional minus and digits for year, month and day with dashes between, and the date they name is one of the calendar |
| Dates.DateWritten | crates/bindings/go/temporal.go:145-151 | a date of the calendar is written with four digits or more for the year and two for month and day, a minus before year 0, and the text spells it |
| Dates.DateRoundTrip | crates/bindings/go/temporal.go:98-151 | a date reads back from its text if and only if it is one of the calendar and its year is not the least int64 |
| Codec.TermEqualIsRdf | crates/bindings/go/rdf_term.go:72-114 | Equal is equality of kind, value and, for literals, language without case and datatype; normalizing is idempotent and keeps the datatype |
| Codec.DecodeTags | crates/bindings/go/decimal.go:73-117 | the decoder with its loops computes the specification `Decode`, of which CodecTags.DecodeExact says what it gives |
| CodecTags.DecodeExact | crates/bindings/go/decimal.go:67-117 | decoding gives r if and only if the value means r: a map of one entry that stands for something as a tag means that, any other map and any list mean what their members mean, and the rest is itself |
| CodecTags.EntryExact | crates/bindings/go/decimal.go:73-104 | for each tag, what its content stands for and nothing else: decimals of their expression, canonical base64, the three floats, terms, dates, times, durations, zoned datetimes, and a timestamp for a token that names it or the float equal to it |
| CodecTags.TermExact | crates/bindings/go/rdf_term.go:132-174 | fields are read as a term if and only if they are its type and value and, for a literal, at most one of language and datatype, all texts, and the term is their normal form |
| CodecTags.NormalFormExact | crates/bindings/go/rdf_term.go:72-114 | the normal form is the one term that says the same, with nothing but a literal having a language in lower case, alone, or a datatype other than xsd:string; the datatype of a literal is rdf:langString, xsd:string or the one named |
| CodecTags.DecimalExact | crates/bindings/go/decimal.go:21-29 | accepts exactly the language of its expression |
| CodecTags.StampExact | crates/bindings/go/temporal.go:62-80 | a token of an integer in range, or a whole float up to 2^53 |
| Codec.DecodeEntries | crates/bindings/go/decimal.go:56-71 | every value of a map decoded, the map itself kept, in any order of keys |
| CodecLaws.DecodeTwice | crates/bindings/go/decimal.go:73-117 | decoding is idempotent on every tree, decoded values inside it or not |
| CodecLaws.EntryStays | crates/bindings/go/temporal.go:552-581 | decoding the content of a map never turns the map into a tag it was not |
| CodecLaws.DecodeKind | crates/bindings/go/decimal.go:73-117 | decoding makes no text, number token, map or finite float out of anything else |
| CodecLaws.DecodeEncoded | crates/bindings/go/floats.go:82-235 | decoding the encoded form gives the value back (finite floats as the library's text, with .0 when it has no point or exponent, the zero Decimal as 0, terms in normal form, zoned times to the microsecond and minute) if and only if no map in it reads as a tag, a float timestamp aside, its terms are of a known kind, its durations can be negated, its dates are not of the least year and its zoned times are of a year with four digits |
| CodecLaws.EncodedForm | crates/bindings/go/floats.go:82-235 | every value is sent in its one form: its tag alone in a map, with the content in the form just said, timestamps as JSON integers, terms with exactly the fields they have |
| CodecLaws.TagSent | crates/bindings/go/floats.go:82-235 | a map reads as a tag once sent exactly when it did before, a float timestamp aside |
| CodecLaws.TermReads | crates/bindings/go/rdf_term.go:116-174 | a term read from the fields it is written as is the term in normal form, or refused exactly for an unknown kind |
| Walker.PathWalker.constructor | crates/bindings/go/floats.go:30-33 | a walk starts with an empty path |
| Walker.PathWalker.Enter | crates/bindings/go/floats.go:58-75 | enters unless the container's key (kind, address, length) is on the path; empty maps and slices are never on it |
| Walker.PathWalker.Leave | crates/bindings/go/floats.go:77-79 | takes the container's key off the path |
| Walker.PathWalker.Value | crates/bindings/go/floats.go:81-208 | terminates on every finite heap, leaves the path as found on every exit and computes the specification `Walk` |
| Walker.PathWalker.ListValues | crates/bindings/go/floats.go:210-217 | the items walked in order, the path unchanged |
| Walker.PathWalker.MapValues | crates/bindings/go/floats.go:88-98 | the entries walked in any order, the path unchanged |
| WalkerLaws.WalkExact | crates/bindings/go/floats.go:58-217 | the cycle marker is in the output if and only if a path from the value meets a key twice; otherwise the output is the encoding of the whole tree, shared parts in full |
| WalkerLaws.MarkerExact | crates/bindings/go/floats.go:35-75 | the marker is there if and only if the value holds itself or a path from it meets two different containers of one key, so it tells values that hold themselves exactly when the latter do |
| WalkerLaws.OneKeyEach | crates/bindings/go/floats.go:35-75 | where no two containers share a key, marked is the same as holding itself and as having no finite unfolding |
| WalkerLaws.FalseMarker | crates/bindings/go/floats.go:60-75 | a pointer to an array that holds a pointer to its own first element is marked, though it does not hold itself and unfolds to a list of two items |
| WalkerLaws.KeyExact | crates/bindings/go/floats.go:35-75 | containers are one to the walker exactly when they are of one kind at one place and, for maps and slices, of one length; exactly the empty ones of these are not tracked |
| WalkerLaws.TreeExact | crates/bindings/go/floats.go:43-47 | a value has a finite unfolding if and only if it does not hold itself, and then within as many levels as there are containers |
| WalkerLaws.MarkedChain | crates/bindings/go/floats.go:58-208 | a marker comes from a chain of containers whose last key stands in the chain or on the path before |
| WalkerLaws.ParameterComesBack | crates/bindings/go/floats.go:30-217 | a parameter that neither holds itself nor meets two containers of one key, however shared, decodes to its tree in normal form if and only if the tags can carry the tree |
| Numbers.DecimalIntegerExact | crates/grafeo-spec-tests/build.rs:1193-1197 | accepts exactly the language of the expression above it |
| Numbers.DecimalNumberExact | crates/grafeo-spec-tests/build.rs:1199-1217 | accepts exactly the language of the expression above it |
| Numbers.JsonNumberExact | crates/grafeo-spec-tests/build.rs:1342-1360 | accepts exactly the language of the expression above it |
| Numbers.JsonNumberIsDecimal | crates/grafeo-spec-tests/build.rs:1342-1360 | every JSON number is a decimal number |
| SpecJson.PairCode | crates/grafeo-spec-tests/build.rs:1404-1430 | a high and a low surrogate give a code above the basic plane and within Unicode |
| SpecJsonLaws.CodesAreChars | crates/grafeo-spec-tests/build.rs:1404-1430 | `char::from_u32` never fails on what the reader gives it: an accepted pair, from whose character the two surrogates can be told again, or a code that is no surrogate |
| SpecJsonLaws.CharIsPair | crates/grafeo-spec-tests/build.rs:1404-1430 | every character above U+FFFF is the one of its surrogate pair |
| SpecJsonLaws.WrittenReads | crates/grafeo-spec-tests/build.rs:1223-1440 | every written form of a value, with any spaces between tokens and any legal choice of escapes, parses to that value |
| SpecJsonLaws.ReadExactly | crates/grafeo-spec-tests/build.rs:1223-1440 | a text is accepted as a value if and only if it is a written form of it |
| SpecJsonLaws.FormReads | crates/grafeo-spec-tests/build.rs:1241-1340 | the parser reads one written form and stops exactly behind it |
| SpecJsonLaws.StringReads | crates/grafeo-spec-tests/build.rs:1363-1398 | raw characters, short escapes, \u escapes and surrogate pairs read as the characters they stand for |
| SpecJsonLaws.UnicodeExact | crates/grafeo-spec-tests/build.rs:1404-1440 | a \u escape is accepted exactly for four hex digits that are no low surrogate, and a high one only before an escaped low one |
| JsonTables.WordExact | crates/grafeo-spec-tests/build.rs:1306-1360 | a bare word is true, false, null, or a JSON number that is an integer or that f64 holds, and nothing else |
| JsonTables.ShortExact | crates/grafeo-spec-tests/build.rs:1363-1398 | the eight one-letter escapes and the characters they stand for |
| JsonTables.HexDigitExact | crates/grafeo-spec-tests/build.rs:1433-1440 | a hex digit of either case is worth its place among the sixteen |
| JsonTables.SpacesExact | crates/grafeo-spec-tests/build.rs:1235-1239 | white space is the 25 characters Unicode calls so |
| SpecJsonCursor.ReadParam | crates/grafeo-spec-tests/build.rs:1223-1233 | the whole reader on a cursor computes `ReadJson`, the end of the text included |
| SpecJsonCursor.Cursor.SkipWhitespace | crates/grafeo-spec-tests/build.rs:1235-1239 | the cursor stands behind the white space |
| SpecJsonCursor.Cursor.Value | crates/grafeo-spec-tests/build.rs:1241-1340 | the value at the cursor, the cursor behind it, or an error exactly when the specification has none |
| SpecJsonCursor.Cursor.Items | crates/grafeo-spec-tests/build.rs:1245-1269 | the loop over list items reads the specified items and their bracket |
| SpecJsonCursor.Cursor.Entries | crates/grafeo-spec-tests/build.rs:1270-1305 | the loop over map entries reads the specified entries and their brace |
| SpecJsonCursor.Cursor.String | crates/grafeo-spec-tests/build.rs:1363-1398 | the string at the cursor, the cursor behind its quote |
| SpecJsonCursor.Cursor.UnicodeEscape | crates/grafeo-spec-tests/build.rs:1404-1430 | the character of a \u escape or pair, or an error exactly when the specification has none |
| SpecJsonCursor.Cursor.Hex4 | crates/grafeo-spec-tests/build.rs:1433-1440 | the value of four hex digits at the cursor |
| Gtest.ParseKv | crates/grafeo-spec-tests/build.rs:578-597 | cuts at the first colon outside quotes that has a key before it: computes `KeyValue`, of which GtestExact.KeyValueExact says what it finds |
| GtestExact.KeyValueExact | crates/grafeo-spec-tests/build.rs:578-597 | a key and a value are found if and only if they stand around the first colon that follows only plain characters and closed quotes and something other than white space |
| GtestExact.QuotingExact | crates/grafeo-spec-tests/build.rs:578-597 | no quotes are open at a place exactly when what stands before it is plain characters and quotes closed by their own kind |
| GtestExact.TrimExact | crates/grafeo-spec-tests/build.rs:578-621 | what is left begins and ends with no white space, and only white space was taken |
| Gtest.ParseBlockScalar | crates/grafeo-spec-tests/build.rs:687-728 | the lines up to the first one indented less, put together without the indent, and that line's index |
| GtestExact.BlockExact | crates/grafeo-spec-tests/build.rs:687-728 | for every file, the block under a line is read exactly: the lines down to the first that is not blank and is indented less than the first, without that indent, joined, white space off the end |
| Gtest.ReadQuery | crates/grafeo-spec-tests/build.rs:291-300 | a query field from its line, or from the block under it after a bar |
| GtestExact.QueryExact | crates/grafeo-spec-tests/build.rs:291-300 | for every file, a line is read as a query if and only if its key is query, and the query is its value unquoted, or after a bar the block under it |
| GtestExact.UnquoteExact | crates/grafeo-spec-tests/build.rs:600-621 | a value in quotes of one kind, single or double, is what is between them, unescaped; any other is itself |
| GtestExact.UnescapeExact | crates/grafeo-spec-tests/build.rs:606-621 | the four replacements undo the escapes from left to right, and turn a NUL into a backslash |
| GtestExact.LinesExact | crates/grafeo-spec-tests/build.rs:131-134 | the lines of any text are its pieces between line feeds, those a line feed ends without a carriage return before it, the last one only when it is not empty |
| Gtest.AppendQuery | scripts/convert_w3c_sparql.py:180-188 | appends the line, or the block of indented lines, of a query |
| GtestLaws.UnescapeEscaped | scripts/convert_w3c_sparql.py:223-228 | unquoting the quoted text turns each NUL into a backslash and is the text itself exactly without NULs |
| GtestExact.QuotedExactly | scripts/convert_w3c_sparql.py:223-228 | a text is left as it is exactly when it has none of eight characters, and otherwise put in double quotes with backslashes and double quotes escaped |
| GtestLaws.SingleReads | crates/grafeo-spec-tests/build.rs:600-621 | a one-line query other than a bar reads back, save for NULs where it needs quotes |
| GtestLaws.BlockReads | crates/grafeo-spec-tests/build.rs:687-728 | an indented block reads back joined, its blank lines empty, and reading stops at the expectation |
| GtestLaws.LinesJoined | crates/grafeo-spec-tests/build.rs:131-134 | the lines of a joined file are the lines, less a carriage return at the end of each |
| GtestLaws.QueryReadsBack | scripts/convert_w3c_sparql.py:180-200 | for every stripped query and whatever surrounds it in the file, the build script reads it back and stops at the expectation if and only if: on one line, it is not a bar and holds no NUL where quoted; on several, no line is only white space or ends in a carriage return |
| RustLiteral.LiteralReads | crates/grafeo-spec-tests/build.rs:780-786 | every text, escaped and put in quotes, is read back by the literal's own rules and ends at the closing quote |
| RustLiteral.EscapeOne | crates/grafeo-spec-tests/build.rs:780-786 | how each character is written after all five replacements; with EscapeApart, how every text is |
| Graphs.NoShorter | scripts/check_policy.py:324-338 | in a breadth-first search no walk is shorter than the depth found, and none leads outside once all is expanded |
| Hops.CountHops | scripts/bench/deriva_selectors.py:263-278 | the length of a shortest path over links in both directions, -1 exactly when there is none or start is end |
| Hops.Neighbours | scripts/bench/deriva_selectors.py:265-268 | neighbours are exactly the people linked in either direction |
| Hops.Search | scripts/bench/deriva_selectors.py:269-278 | the search over a queue that grows while it is gone through ends with a shortest walk or -1 |
| Boundary.EdgesExact | scripts/check_policy.py:276-282 | an edge goes exactly from a resolved package to a dependency among whose kinds normal or build is |
| Boundary.Explore | scripts/check_policy.py:327-338 | every reachable package gets a parent one step nearer, and every reached forbidden name a nearest package |
| Boundary.ChainTo | scripts/check_policy.py:339-343 | going up the parents ends, and gives the names of a walk from the crate of the length found |
| Boundary.Findings | scripts/check_policy.py:324-350 | a forbidden name is reported if and only if a package of that name is reachable; its chain names a walk from the crate that is shortest among packages of that name |
| Selection.Owner | scripts/precommit_clippy.py:37-45 | a package whose directory holds the path most closely, none exactly when none holds it, in any order |
| Selection.Grow | scripts/precommit_clippy.py:63-75 | terminates with exactly the packages that lead by dependencies to a changed one, the least closed set holding the changed ones |
| Selection.Select | scripts/precommit_clippy.py:48-75 | the whole workspace exactly for no Rust file or one outside every package, otherwise exactly the packages from which a chain of declared dependencies on workspace packages leads to an owner of a file |
| TransactionHandle.Transaction.constructor | crates/bindings/go/transaction.go:42-55 | an open transaction with a handle and the finalizer set |
| TransactionHandle.Transaction.Execute | crates/bindings/go/transaction.go:72-90 | asks the C layer only while the handle is there |
| TransactionHandle.Transaction.Commit | crates/bindings/go/transaction.go:143-165 | frees and records the end whether the commit succeeds or fails; an ended transaction gives its own error |
| TransactionHandle.Transaction.Rollback | crates/bindings/go/transaction.go:167-189 | frees and records the end when the rollback succeeds; nothing after a failed commit |
| TransactionHandle.Transaction.Finish | crates/bindings/go/transaction.go:191-197 | clears the finalizer, frees and records how the transaction ended |
| TransactionHandle.Transaction.Free | crates/bindings/go/transaction.go:199-206 | frees the handle once |
| TransactionHandle.RunExact | crates/bindings/go/transaction.go:72-206 | over every sequence of calls and answers, the C layer sees the calls up to the first that ends the transaction, then one free and nothing more, and the end recorded is the one that call decides |
| TransactionHandle.FreedOnce | crates/bindings/go/transaction.go:191-206 | never used after being freed, freed at most once, and exactly once when collected |
| TransactionHandle.EndStays | crates/bindings/go/transaction.go:143-189 | once an end is recorded nothing changes any more |
| TransactionHandle.AnswersExact | crates/bindings/go/transaction.go:72-189 | after every sequence of calls, what the next one is answered: as the C layer answers while none has ended the transaction, and afterwards as the call that ended it says |
| TransactionHandle.RollbackAfterFailedCommit | crates/bindings/go/transaction.go:167-179 | succeeds without a foreign call |
| ResultText.ListExact | scripts/difftest/difftest.py:197-200 | the JSON texts of two lists are equal exactly when their items' texts are, one by one |
| ResultText.SkipWrite | scripts/difftest/difftest.py:197-200 | where the text of a value ends can be told from what follows it |
| ResultText.DumpsLawful | scripts/difftest/difftest.py:193-200 | the escapes `json.dumps` writes, surrogate pairs for characters above U+FFFF included, meet what the laws of texts ask of a writer |
| JsonTables.DumpedReads | scripts/difftest/difftest.py:197-200 | every string as `json.dumps` writes it is read by the rules of JSON as that string |
| DiffGate.SortTexts | scripts/difftest/difftest.py:191-194 | sorting by text keeps the rows and puts their texts in order |
| DiffGate.LeExact | scripts/difftest/difftest.py:191-194 | texts are compared as in a dictionary: a prefix first, otherwise the first difference decides |
| DiffGate.CanonicalExact | scripts/difftest/difftest.py:183-200 | canonical texts are equal exactly for results of the same kind with equal error, equal boolean, or equal columns and canonical rows |
| DiffGate.CanonicalForm | scripts/difftest/difftest.py:183-200 | the canonical text is the JSON list of the kind and what counts of a result of that kind |
| DiffGate.RowsExact | scripts/difftest/difftest.py:183-200 | results count as equal exactly when columns are equal and, both ordered, rows are equal one by one, otherwise the multisets of row texts are equal and an ordered one among them is already in text order |
| DiffGate.Compare | scripts/difftest/difftest.py:255-300 | exits 0 exactly without a file of reviewed differences, or when every case whose canonical texts differ is listed with the fingerprint of the new one, plain or after a tilde, and every other listed case is there and listed as a tilde and its fingerprint |
| DiffGate.Unreviewed | scripts/difftest/difftest.py:261-279 | no failures exactly when every difference is listed with its fingerprint |
| DiffGate.Stale | scripts/difftest/difftest.py:288-298 | no failures exactly when every listed case that does not differ is marked, present and matching |
| DiffGate.PassesAlike | scripts/difftest/difftest.py:183-300 | the gate decides the same for results that count as equal |
| ReadPins.Pins.constructor | crates/grafeo-engine/src/transaction/manager.rs:428-431 | counts no reader |
| ReadPins.Pins.Find | crates/grafeo-engine/src/transaction/manager.rs:455-460 | the place of an epoch among ascending ones, and whether it is there |
| ReadPins.Pins.HoldPublished | crates/grafeo-engine/src/transaction/manager.rs:433-451 | one reader more at the published epoch, ascending kept |
| ReadPins.NoneBeyondPublished | crates/grafeo-engine/src/transaction/manager.rs:419-427 | in every run no counted epoch is past the published one, as the method above asks |
| ReadPins.Pins.HoldAt | crates/grafeo-engine/src/transaction/manager.rs:453-460 | one reader more at the epoch, ascending kept |
| ReadPins.Pins.Release | crates/grafeo-engine/src/transaction/manager.rs:462-472 | one reader less at the epoch, nothing where none is counted |
| ReadPins.Pins.Oldest | crates/grafeo-engine/src/transaction/manager.rs:474-477 | the least epoch with a reader, none exactly without readers |
| ReadPins.Pins.Horizon | crates/grafeo-engine/src/transaction/manager.rs:1889-1893 | the read horizon of the manager whose readers are counted |
| TransactionLaws.KeepsStep | crates/grafeo-engine/src/transaction/manager.rs:834-2107 | every step keeps the invariant: epochs in order, tables consistent, handles, commit lock and publish turn guarded, every commit an active transaction may conflict with still remembered, decided commits compatible unless the later strayed, readers counted |
| TransactionTheorems.Reachable | crates/grafeo-engine/src/transaction/manager.rs:834-2107 | the invariant holds after every run |
| TransactionTheorems.SnapshotIsolated | crates/grafeo-engine/src/transaction/manager.rs:1367-1535 | in every run, concurrent commits of which the later has not strayed write nothing in common, none links to a node the other deletes, and they share no unique key |
| TransactionTheorems.SerialView | crates/grafeo-engine/src/transaction/manager.rs:1367-1535 | in every run, what a commit that has not strayed wrote, and what a serializable one read, it saw as if commits ran one after the other by epoch |
| TransactionOutcomes.CommitOutcome | crates/grafeo-engine/src/transaction/manager.rs:1349-1535 | in every run with the commit lock free, the answer to a commit and the state after it: refused as poisoned, closed, unknown or not active; as a conflict if and only if its claims overlap those of a commit decided since it began, whatever was collected (if it strayed, of one still in the tables); as a serialization failure if and only if it is serializable and read what such a commit wrote; otherwise admitted with the next epoch, in progress, holding the lock |
| TransactionOutcomes.TakeBackUndoes | crates/grafeo-engine/src/transaction/manager.rs:601-620 | in every run, a commit that is started and taken back leaves the manager as it was |
| TransactionTheorems.SnapshotsAreWhole | crates/grafeo-engine/src/transaction/manager.rs:713-772 | in every run, commits at or below a transaction's snapshot are complete |
| TransactionTheorems.ReadersProtected | crates/grafeo-engine/src/transaction/manager.rs:1889-1952 | in every run, neither the read horizon nor the history floor passes an open snapshot or a pinned read |
| TransactionTheorems.PublishedInOrder | crates/grafeo-engine/src/transaction/manager.rs:713-788 | every step of every run moves the published epoch by at most one, only for the holder of the turn, whose epoch was not barred when it took the turn; bars only go down |
| TransactionTheorems.BarredExactly | crates/grafeo-engine/src/transaction/manager.rs:713-772 | in every run, a barred epoch that is not published can still be published if and only if its commit holds the turn |
| TransactionTheorems.DroppedNeverPublished | crates/grafeo-engine/src/transaction/manager.rs:775-788 | in every run, a commit whose handle was dropped is never published, nor any later one, whether or not it is barred yet |
| TransactionTheorems.PublishedPastBar | crates/grafeo-engine/src/transaction/manager.rs:1016-1036 | a run in which the manager is poisoned and every epoch barred during a commit's turn, and the commit is published above the bar |
| TransactionTheorems.SomeCommitCanPublish | crates/grafeo-engine/src/transaction/manager.rs:713-772 | in every run that is not poisoned, while a commit is unpublished some commit can take the turn or publish |
| TransactionTheorems.TakenBackLosesUpdate | crates/grafeo-engine/src/transaction/manager.rs:601-620 | for every entity, a run in which a taken-back transaction claims again and two concurrent commits both write that entity |
| TransactionClaims.FirstWriterWins | crates/grafeo-engine/src/transaction/manager.rs:1130-1265 | in every run, the claims of two open transactions never clash |
| TransactionClaims.ClaimRefusedExactly | crates/grafeo-engine/src/transaction/manager.rs:1130-1212 | in every run, a claim is refused as a conflict if and only if another open transaction's claims refuse it, the skipped scan for a lone transaction included |
| TransactionOutcomes.SavepointRestored | crates/grafeo-engine/src/transaction/manager.rs:1725-1787 | in every run, after a savepoint is set, whatever its transaction claims, marks and rolls back to marks no lower and whatever others do, rolling back to it while the transaction is active restores exactly the claims held at it |
| TransactionOutcomes.SavepointOutcomes | crates/grafeo-engine/src/transaction/manager.rs:1725-1787 | a savepoint is set exactly in an active transaction; a rollback is refused exactly outside one or past the log, and then changes nothing |
| TransactionOutcomes.ClaimOutcome | crates/grafeo-engine/src/transaction/manager.rs:1130-1212 | in every run, the answer to a claim and the state after it: a conflict if and only if an open transaction's claims are in the way, otherwise all the entities claimed in their role and nothing else changed |
| TransactionOutcomes.KeyOutcome | crates/grafeo-engine/src/transaction/manager.rs:1226-1265 | in every run, the answer to a key claim and the state after it: a conflict if and only if another open transaction holds the key |
| TransactionOutcomes.ReadOutcome | crates/grafeo-engine/src/transaction/manager.rs:1272-1294 | a read is added to an active transaction's read set and nothing else changes, or it is refused |
| TransactionOutcomes.BeginOutcome | crates/grafeo-engine/src/transaction/manager.rs:834-916 | in every run, a new transaction at the level asked for, without claims, reading at an epoch at or below which exactly the complete commits lie; refused exactly for a private one when closed |
| TransactionOutcomes.AbortOutcome | crates/grafeo-engine/src/transaction/manager.rs:1670-1724 | in every run, an abort goes through exactly for an active transaction; it is then no longer open and no longer a reader, a private one is forgotten, and every other transaction is as it was |
| TransactionOutcomes.TurnOutcome | crates/grafeo-engine/src/transaction/manager.rs:713-726 | in every run, the next commit in order gets the turn exactly when its epoch is not barred, and is told so and gone otherwise |
| TransactionOutcomes.PublishOutcome | crates/grafeo-engine/src/transaction/manager.rs:727-772 | in every run, the holder of the turn publishes the next epoch; its claims stay for later checks unless it was private and alone; every other transaction is as it was |
| TransactionOutcomes.HandleOutcome | crates/grafeo-engine/src/transaction/manager.rs:622-788 | a written commit only gives up the lock; a dropped one holds neither lock nor turn and poisons the manager |
| TransactionOutcomes.BarOutcome | crates/grafeo-engine/src/transaction/manager.rs:1031-1040 | the epoch and every later one are barred besides those barred before |
| TransactionOutcomes.GcOutcome | crates/grafeo-engine/src/transaction/manager.rs:2059-2107 | in every run, collection takes exactly the aborted transactions and the commits every active transaction began after |
| TransactionOutcomes.PinOutcome | crates/grafeo-engine/src/transaction/manager.rs:1851-1940 | a time-travel read is refused exactly below the history floor, and otherwise pinned at the lesser of the epoch and the published one; unpinning undoes pinning |
| TransactionOutcomes.CollectOutcome | crates/grafeo-engine/src/transaction/manager.rs:1941-1957 | the floor rises to the horizon or the start of the retention window, whichever is lower, and never falls |
| TransactionOutcomes.NextCanPublish | crates/grafeo-engine/src/transaction/manager.rs:713-772 | in every run that is not poisoned, while a commit is unpublished, the next epoch can be published in at most two steps |

## Left out

- SnapshotIsolated: asks that the later commit has not strayed, as SerialView does of its commit; TakenBackLosesUpdate shows why. A strayed commit need not clash, so the condition is not necessary for each single run.
- DecodeEncoded: dates outside the calendar, which are refused when they are sent, are not covered; RFC 3339 texts, and for which years they read back, are a parameter.
- DateExact: which days the calendar has is a parameter, as Go's time package decides it.
- DecodeTags: maps and lists are values, so that the source overwrites them in place, and aliasing between them, is not captured.
- DecodeEntries: the map is a value, as for DecodeTags.
- ParseBlockScalar: indentation is counted in characters where the source counts bytes; the two agree when it is ASCII, as in everything the generator writes.
- Select: the files are given as path parts, already filtered to Rust files and manifests; the order of the result is not stated.
- Findings: the order and the wording of findings, and the direct-dependency rules of the same function.
- Compare: the printed report, and the reading of the file of reviewed differences.
- Horizon: locks and atomics of the read pins; each method is one atomic step.
- The manager's locks and condition variables are steps of the state machine with the commit lock as a field; recycling of change sets, direct writes and epoch synchronisation at recovery, aborting all at once, commit times and the time index of the history are not modelled.
- Execution with parameters or in another language has the same shape as Execute on the Go handle and adds nothing.
- Error messages everywhere: an error is an absent result or an outcome without its text.
- Map entries in spec-test JSON stay a list in order of writing; that the generated map keeps the last of equal keys is not modelled.
- Rust source emission and file walking in the build script, setup, expectation and list fields of .gtest files.
- Storage, write-ahead log, query planners and parsers, all C call wrappers of the Go binding, the other policy rules, the parity and timing scripts.
