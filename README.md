# utils: a verified model in Dafny

This project models the core of `@friendsoftheweb/utils`, a TypeScript
library of small helpers. It states the library's promises as contracts
and proves them. The parts modelled are:

- **CSV.** `serializeCSVCell` and `serializeCSVRow` turn cells into CSV text.
  `createCSVStream` pulls rows from a generator into a stream that starts
  with a byte order mark (BOM). Quoting is checked against a record reader
  that follows RFC 4180: every non-empty row that serialises reads back as
  the texts of its cells, and the empty row reads back as one empty field.
- **Async.** `Semaphore` is a counter with a first-in first-out queue of
  waiters and one `released` flag per admitted waiter.
  `limitConcurrency` wraps a function so that at most `maxConcurrency`
  calls run at once. Both are classes whose methods update fields. The
  awaits become explicit steps.
- **Transformation and validation.** The model covers:
  - `parseDelimitedString`;
  - `parseNullableInt`, which uses `parseInt` with radix 10 as in
    section 19.2.5 of ECMA-262;
  - `parseNullableDate` with its month-length table;
  - `deepTransformKeys`;
  - `presence`, `isPresent`, `isPresentString` and `isPresentNumber`.
- **Strings and HTTP.**
  - `slugify` has its transliteration step as a parameter.
  - `buildContentDispositionHeader` is modelled with its
    `encodeURIComponent` (section 19.2.6.5 of ECMA-262). Percent-decoding
    and UTF-8 decoding are proved to invert that encoding.
- **Formatting.**
  - `formatDuration`;
  - the two `formatFileSize` functions, the current one and the legacy
    one under `transformation/`;
  - `formatValue` and `createFormatValue`.
  - `Intl.NumberFormat` rendering is a function parameter throughout.
- **Time and environment.**
  - `seconds`, `minutes`, `hours` and `days`;
  - `getEnvBoolean`, `getEnvInteger` and `getEnvString`, where the
    environment is a `map<string, string>`.

Numbers are `Num`: `NaN`, the two infinities, or a finite `real`. White
space is the ECMAScript white space and line terminator set. A thrown
`Error` is `Err(message)` of a `Result`, with the source's message.

Where the documentation and the code disagree, the model follows the code:

- `src/formatting/formatFileSize.ts` documents the units "Kb", "Mb" and
  "Gb", but writes "KB", "MB" and "GB". The model uses "KB", "MB" and "GB".
  The legacy `src/transformation/formatFileSize.ts` does write "Kb", "Mb"
  and "Gb".
- The legacy `formatFileSize` documents an error for negative sizes only.
  Its guard is `size < 0`, so NaN and +Infinity go past it and come out in
  "Gb" (`LegacyFileSize.NotFiniteIsGb`).
- `presence` is documented to return `undefined` for an absent value, but
  it returns `null`. `isPresent` is documented as "not `null` or
  `undefined`", but it goes through `presence`. So `" "`, `NaN`, `[]`, `{}`
  and empty sets and maps are not present (`Present.IsPresentStricterThanDefined`).
- `getEnvNumber` (`src/environment/getEnvNumber.ts`) is `getEnvInteger`
  under another name and is modelled by `Environment.GetEnvInteger`.
  `src/env/getEnvString.ts` is the same function as
  `src/environment/getEnvString.ts` and is modelled once.

Where the tests and the code disagree, the model also follows the code:

- `src/transformation/__tests__/parseNullableInt.test.ts:66-152` expects
  `undefined` for `null`, `undefined` and text without a number. The code
  returns `null` (`NullableInt.ParseNullableInt`).
- `src/transformation/__tests__/parseDelimitedString.test.ts:14-20`
  expects white space at the ends of the input to be trimmed. The pattern
  only takes the white space around each delimiter, so the first and last
  pieces keep theirs (`DelimitedString.EdgeWhitespaceKept`).
- `src/transformation/__tests__/parseDelimitedString.test.ts:178-184`
  expects a `.` delimiter to be escaped. The code puts the delimiter into
  a regular expression unescaped, where `.` matches any character, so
  `a.b.c` gives `[]`. The model covers only delimiters without
  regular-expression syntax (see "## Left out").

## Model

| member | source | states |
|---|---|---|
| CsvCell.DoubleQuotes | src/csv/serializeCSVCell.ts:59 | Doubling quotes changes nothing in text without `"`, and keeps emptiness, whether quoting is needed, and a first character that is not a quote |
| CsvCell.DoubleQuotesReplacesAll | src/csv/serializeCSVCell.ts:59 | Doubling the quotes is `replaceAll` of `"` by `""` |
| CsvCell.Escape | src/csv/serializeCSVCell.ts:58-66 | Text without `"`, `,` or newline is left as it is; other text comes out wrapped in quotes |
| CsvCell.SerializeCell | src/csv/serializeCSVCell.ts:27-56 | A cell is the escaped form of its text; `null`, `undefined` and NaN give the empty string; a `Date` whose time is NaN fails with the `RangeError` "Invalid time value" that `Intl.DateTimeFormat.format` throws, and no other cell fails |
| CsvCell.SuppliedFormatsWin | src/csv/serializeCSVCell.ts:3-7 | A supplied number, date or boolean format decides that kind of cell; without one, booleans are `true` and `false` |
| CsvCell.UndoubleDoubled | src/csv/serializeCSVCell.ts:59 | Undoubling quotes inverts doubling them |
| CsvCell.UnescapeEscape | src/csv/serializeCSVCell.ts:58-66 | Unescaping inverts escaping, for every string |
| CsvCell.ReadQuoted | src/csv/serializeCSVCell.ts:61-63 | Reading a quoted field always consumes input, so records are read in finitely many steps |
| CsvCell.ReadPlain | src/csv/serializeCSVCell.ts:61 | An unquoted field is the longest prefix without a comma or newline, and the rest starts at a separator |
| CsvCell.ReadField | src/csv/serializeCSVCell.ts:58-66 | Reading a field never makes the input longer |
| CsvCell.ReadQuotedDoubled | src/csv/serializeCSVCell.ts:59-63 | Doubled quotes followed by a closing quote read back as the original text and leave the rest untouched |
| CsvCell.ReadPlainOf | src/csv/serializeCSVCell.ts:61 | Text without separators, followed by a separator, reads back exactly |
| CsvCell.ReadFieldQuoted | src/csv/serializeCSVCell.ts:61-63 | A quoted cell reads back as its original text |
| CsvCell.ReadFieldUnquoted | src/csv/serializeCSVCell.ts:61 | A cell that needed no quotes reads back as itself |
| CsvCell.ReadFieldEscape | src/csv/serializeCSVCell.ts:58-66 | Every escaped text, followed by a comma, a newline or nothing, reads back as the original text |
| CsvRow.SerializeCells | src/csv/serializeCSVRow.ts:9 | Gives one serialised text per cell exactly when every cell can be formatted, and otherwise the `RangeError` of the first invalid date |
| CsvRow.CellTexts | src/csv/serializeCSVCell.ts:27-56 | Gives one unescaped text per cell |
| CsvRow.SerializeRow | src/csv/serializeCSVRow.ts:5-10 | A row serialises exactly when every cell can be formatted, and then ends in a newline; a row of no cells is just the newline; otherwise it fails with "Invalid time value" |
| CsvRow.ReadRecord | src/csv/serializeCSVRow.ts:9 | A record has at least one field, and reading one consumes input |
| CsvRow.SerializeRowCons | src/csv/serializeCSVRow.ts:9 | The first cell is followed by a comma and the rest of the row; a failing first cell fails the row first, and a failing later cell fails it too |
| CsvRow.ReadRecordSerializeRow | src/csv/serializeCSVRow.ts:5-10 | A serialised non-empty row reads back as the texts of its cells, whatever follows it |
| CsvRow.EmptyRowReadsAsOneField | src/csv/serializeCSVRow.ts:9 | The empty row and a row of one `null` give the same text, which reads back as one empty field |
| CsvRow.InvalidDateFails | src/csv/serializeCSVCell.ts:51-53 | A row holding a `Date` whose time is NaN, anywhere, fails with "Invalid time value" |
| CsvStream.LeadingRows | src/csv/createCSVStream.ts:34-48 | Counts the rows enqueued before the generator finishes or throws, or yields a row that cannot be serialised |
| CsvStream.RowChunks | src/csv/createCSVStream.ts:41 | Gives one chunk per yielded row |
| CsvStream.Stream.constructor | src/csv/createCSVStream.ts:29-32 | A new stream has enqueued only the BOM and has not called `next` |
| CsvStream.Stream.Pull | src/csv/createCSVStream.ts:34-48 | One `next()` call: a row enqueues its serialised form; done closes the stream; a throw from the generator, or the `RangeError` of serialising the row, is reported once and errors the stream |
| CsvStream.PullStep | src/csv/createCSVStream.ts:36-47 | The k-th pull enqueues a row exactly while rows remain to be enqueued, appending its serialised form; otherwise the stream takes its final phase, and a row not enqueued failed with "Invalid time value" |
| CsvStream.Stream.Read | src/csv/createCSVStream.ts:17-50 | A read hands over the next chunk in order, ends after the last chunk, or rejects with the stream's error (the generator's throw or a serialisation `RangeError`); it pulls only when the queue is empty |
| CsvStream.Stream.ReadAll | src/csv/createCSVStream.ts:17-50 | Reading to the end gives the BOM and then every enqueued row in order; the last read ends when the generator is done, rejects with its throw, or rejects with "Invalid time value" at the first row holding an invalid date |
| CsvStream.Stream.Finished | src/csv/createCSVStream.ts:38-47 | Once the stream stops, it has enqueued exactly the BOM and the rows before the first one that ended it, and its phase is closed or errored by the outcome that ended it |
| AsyncSemaphore.Semaphore.constructor | src/async/Semaphore.ts:23-27 | A new semaphore has nobody admitted or queued |
| AsyncSemaphore.Semaphore.Acquire | src/async/Semaphore.ts:29-51 | Without a limit the grant is immediate and nothing changes; otherwise a new ticket joins the end of the queue |
| AsyncSemaphore.Semaphore.Next | src/async/Semaphore.ts:53-62 | Below the limit, the head of the queue is admitted with a fresh flag; otherwise nothing changes; the count never passes the limit |
| AsyncSemaphore.Semaphore.Release | src/async/Semaphore.ts:38-44 | The first release of a ticket frees its slot and admits the next waiter; every later release, and any release of an immediate grant, changes nothing |
| ConcurrencyLimit.Limiter.constructor | src/async/limitConcurrency.ts:52-56 | Each wrapper owns one new semaphore with the given limit |
| ConcurrencyLimit.Limiter.Call | src/async/limitConcurrency.ts:58-59 | A call waits for its permit: with a limit its ticket joins the queue in call order |
| ConcurrencyLimit.Limiter.Tick | src/async/Semaphore.ts:47-48 | When there is room, the oldest waiting call is given its permit |
| ConcurrencyLimit.Limiter.Start | src/async/limitConcurrency.ts:59-62 | Only a call holding its permit starts running `fn` |
| ConcurrencyLimit.Limiter.Finish | src/async/limitConcurrency.ts:61-65 | The caller gets `fn`'s own outcome, resolved or rejected, and the permit is released exactly once; the release admits the oldest waiting call at once, keeping the slot in use, or gives the slot back when nobody waits; a call without a limit leaves the semaphore as it was |
| ConcurrencyLimit.Limiter.RunningBound | src/async/limitConcurrency.ts:52-67 | No more than `maxConcurrency` calls run `fn` at the same time |
| DelimitedString.Split | src/transformation/parseDelimitedString.ts:16-20 | Splitting at the delimiter and the white space around it always gives at least one piece |
| DelimitedString.FilterMap | src/transformation/parseDelimitedString.ts:20-26 | Keeps at most one value per piece |
| DelimitedString.DefaultTransformValue | src/transformation/parseDelimitedString.ts:31-37 | A piece is kept, unchanged, exactly when it has a character that is not white space |
| DelimitedString.ParseDelimitedString | src/transformation/parseDelimitedString.ts:10-29 | The loop gives the transforms of the pieces, in order, leaving out `null` and `undefined` |
| DelimitedString.FilterMapConcat | src/transformation/parseDelimitedString.ts:20-26 | Filtering two lists of pieces one after the other is the same as filtering them joined |
| DelimitedString.FilterMapOne | src/transformation/parseDelimitedString.ts:21-25 | One piece gives its value, or nothing when the transform returns `null` or `undefined` |
| DelimitedString.SplitWithoutDelimiter | src/transformation/parseDelimitedString.ts:16 | Input with no delimiter is one piece |
| DelimitedString.SplitAtDelimiter | src/transformation/parseDelimitedString.ts:16 | The white space on both sides of a delimiter is cut away with it |
| DelimitedString.SplitBlank | src/transformation/parseDelimitedString.ts:16 | Input that is only white space is one piece |
| DelimitedString.SplitOfGaps | src/transformation/parseDelimitedString.ts:16 | Input made only of delimiters and white space splits into pieces that are only white space |
| DelimitedString.BlankPiecesVanish | src/transformation/parseDelimitedString.ts:31-37 | The default transform drops every piece that is only white space |
| DelimitedString.OnlyDelimitersGiveNothing | src/transformation/parseDelimitedString.ts:10-37 | The empty string, or any input of delimiters and white space, gives no values |
| DelimitedString.EdgeWhitespaceKept | src/transformation/parseDelimitedString.ts:16 | White space at the ends of the whole input stays on the first and last pieces |
| DelimitedString.SplitAtBare | src/transformation/parseDelimitedString.ts:16 | A delimiter with no white space around it cuts the input there |
| DelimitedString.SplitThreeWords | src/transformation/parseDelimitedString.ts:16 | Three words joined by the delimiter split back into those three words |
| DelimitedString.MultiCharacterDelimiter | src/transformation/parseDelimitedString.ts:16 | A delimiter of several characters is matched as a whole |
| IntParsing.LeadingDigits | src/transformation/parseNullableInt.ts:14 | `parseInt` reads the longest run of digits at the start |
| IntParsing.ParseIntDefined | src/transformation/parseNullableInt.ts:14-18 | `parseInt` gives a number exactly when some digit has only white space and at most one `+` or `-` before it, and NaN otherwise |
| IntParsing.ParseIntOfParts | src/transformation/parseNullableInt.ts:14 | White space, an optional sign, digits and anything else parse to the signed value of the digits |
| IntParsing.ParseIntNoDigits | src/transformation/parseNullableInt.ts:14-18 | Without a digit after the white space and the sign, the result is NaN |
| IntParsing.ParseIntOfDigits | src/transformation/parseNullableInt.ts:14 | A string of digits parses to its decimal value |
| IntParsing.ParseIntOfNumeral | src/transformation/parseNullableInt.ts:14 | Every integer written in decimal parses back to itself |
| NullableInt.ParseNullableInt | src/transformation/parseNullableInt.ts:8-22 | `null` and `undefined` give `null` |
| NullableInt.ParseNullableIntOfParts | src/transformation/parseNullableInt.ts:8-22 | A string with leading digits gives their signed value, ignoring the rest |
| NullableInt.ParseNullableIntNoDigits | src/transformation/parseNullableInt.ts:16-18 | A string with no leading digits gives `null`, not NaN |
| NullableInt.ParseNullableIntOfNumeral | src/transformation/parseNullableInt.ts:8-22 | Every integer written in decimal gives itself back |
| DateParsing.MaxDaysInMonth | src/transformation/parseNullableDate.ts:119-130 | February has 29 days exactly in leap years; April, June, September and November have 30; the other months have 31 |
| DateParsing.LeapYearByRemainders | src/transformation/parseNullableDate.ts:121-123 | The leap-year test is the Gregorian rule |
| DateParsing.ParseNullableDate | src/transformation/parseNullableDate.ts:34-111 | A `TZDate` is returned as it is; `null` and `undefined` give `null`; a string gives a date only in one of the two shapes, in the given time zone |
| DateParsing.CreateParseNullableDate | src/transformation/parseNullableDate.ts:113-117 | The returned function is `parseNullableDate` with the time zone fixed |
| DateParsing.GroupParses | src/transformation/parseNullableDate.ts:50-56 | Every digit group parses, so the NaN checks never fire |
| DateParsing.ParseDateOnly | src/transformation/parseNullableDate.ts:47-67 | An accepted date has a month 0-11 (counted from zero) and a day within that month, at midnight |
| DateParsing.ParseDateTime | src/transformation/parseNullableDate.ts:69-107 | An accepted date-time has a month 0-11, a day within that month, an hour 0-23 and a minute 0-59 |
| DateParsing.ParseDateOnlyValue | src/transformation/parseNullableDate.ts:46-67 | A `YYYY-MM-DD` string gives the calendar fields exactly when its month and day are in range |
| DateParsing.ParseDateTimeValue | src/transformation/parseNullableDate.ts:69-107 | A `YYYY-MM-DDTHH:MM` string gives the fields exactly when the date is valid, the hour is 0-23 and the minute is 0-59 |
| DateParsing.ParseDateOnlyIff | src/transformation/parseNullableDate.ts:46-67 | A date string is accepted exactly when valid, with the month counted from zero, at midnight in the given time zone |
| DateParsing.ParseDateTimeIff | src/transformation/parseNullableDate.ts:69-107 | A date-time string is accepted exactly when valid, at that hour and minute in the given time zone |
| DateParsing.BlankIsNull | src/transformation/parseNullableDate.ts:46 | Empty and white-space-only strings give `null` |
| DeepTransformKeys.Put | src/transformation/deepTransformKeys.ts:43-48 | Setting a key makes later lookups of that key give the new value, leaves every other key as it was, and adds the key |
| DeepTransformKeys.FromEntries | src/transformation/deepTransformKeys.ts:43 | Building an object never gives more entries than it was given |
| DeepTransformKeys.DeepTransformKeys | src/transformation/deepTransformKeys.ts:22-49 | Leaves come back unchanged; arrays keep their length and are transformed item by item; an object is rebuilt from its renamed, transformed entries |
| DeepTransformKeys.TransformEntries | src/transformation/deepTransformKeys.ts:44-47 | Every entry gets the transformed key and the deeply transformed value, in order |
| DeepTransformKeys.DeepTransformKeysWith | src/transformation/deepTransformKeys.ts:26-28 | The one-argument form gives the function that applies the full form |
| DeepTransformKeys.PutNew | src/transformation/deepTransformKeys.ts:43-48 | A new key is appended at the end |
| DeepTransformKeys.PutDistinct | src/transformation/deepTransformKeys.ts:43-48 | Setting a key keeps the keys distinct |
| DeepTransformKeys.FromEntriesDistinct | src/transformation/deepTransformKeys.ts:43-48 | The object built has distinct keys, and exactly the keys it was given |
| DeepTransformKeys.FromEntriesLaterWins | src/transformation/deepTransformKeys.ts:43-48 | For a repeated key, the object holds the value of its last entry |
| DeepTransformKeys.FromEntriesOfDistinct | src/transformation/deepTransformKeys.ts:43-48 | Entries with distinct keys come back in the same order |
| DeepTransformKeys.InjectiveRenames | src/transformation/deepTransformKeys.ts:22-49 | With a key function that never maps two keys to one, every object keeps all its entries, in order, under the new names |
| DeepTransformKeys.RenameIdentity | src/transformation/deepTransformKeys.ts:22-49 | Renaming with the identity changes nothing |
| DeepTransformKeys.IdentityKeepsValue | src/transformation/deepTransformKeys.ts:22-49 | With the identity key function, a valid value comes back equal |
| DeepTransformKeys.CollidingKeysLaterWins | src/transformation/deepTransformKeys.ts:43-48 | When two keys become one, the value of the last of them is kept |
| Present.Presence | src/transformation/presence.ts:18-47 | Gives the value itself or `null`: `null` for null-ish values, blank strings, NaN, empty arrays, empty plain objects, and empty sets and maps; anything else unchanged |
| Present.IsPresentString | src/validation/isPresentString.ts:1-3 | A value is a present string exactly when it is a string that trimming does not empty |
| Present.IsPresentNumber | src/validation/isPresentNumber.ts:1-3 | A value is a present number exactly when it is a finite number or one of the two infinities |
| Present.IsPresent | src/validation/isPresent.ts:9-11 | Case by case: `null` and `undefined` are absent; a string is present when it has a non-white-space character, a number when it is not NaN, an array, object or collection when it is not empty; every other value is present |
| Present.PresenceIdempotent | src/transformation/presence.ts:18-47 | Applying `presence` twice is the same as once; a value is present exactly when `presence` gives it back |
| Present.IsPresentStricterThanDefined | src/validation/isPresent.ts:9-11 | `" "`, NaN and `[]` are not present, while `false` and `0` are |
| Present.NonBlankTrim | src/validation/isPresentString.ts:2 | A string has a character outside `\s` exactly when trimming leaves something |
| Slugs.ReplaceSymbols | src/language/slugify.ts:7-11 | No `&`, `+`, `=`, `/` or `%` is left |
| Slugs.CollapseRuns | src/language/slugify.ts:13 | Gives only lower-case letters, digits and single hyphens, keeps the letters and digits in order, and starts with one when the input did |
| Slugs.CollapseRunsWords | src/language/slugify.ts:13 | Collapsing gives the words of the text joined by single hyphens, with one more hyphen in front when the text starts with another character and one behind when it ends with one after a word |
| Slugs.TrimHyphens | src/language/slugify.ts:14 | Removing the edge hyphens never makes the text longer |
| Slugs.TrimEdges | src/language/slugify.ts:14 | Trimming removes exactly the optional edge hyphens around text that neither starts nor ends with one |
| Slugs.SlugOfWords | src/language/slugify.ts:13-14 | Collapsing the runs and trimming the edge hyphens joins the words of the text with single hyphens |
| Slugs.Words | src/language/slugify.ts:13 | The words of a text: its maximal runs of `a-z0-9`, each non-empty and made of letters and digits only |
| Slugs.Slugify | src/language/slugify.ts:3-15 | The slug is the words of the prepared text joined by single hyphens; it is a slug (letters, digits and single inner hyphens) and keeps the letters and digits of the prepared text in order |
| Slugs.HyphenBetweenWords | src/language/slugify.ts:13-14 | Two words with any run of other characters between them, such as `hello world`, become the two words joined by one hyphen |
| Slugs.TrimHyphensSlug | src/language/slugify.ts:14 | After collapsing, removing one hyphen at each end leaves a slug |
| Slugs.TrimHyphensAlnums | src/language/slugify.ts:14 | Removing the edge hyphens keeps every letter and digit |
| Slugs.SlugifyBlank | src/language/slugify.ts:3-15 | Text that transliterates to white space gives the empty slug |
| Slugs.ReplaceSymbolsByChar | src/language/slugify.ts:7-11 | The five replacements act one character at a time |
| Slugs.SymbolWordOfChar | src/language/slugify.ts:7-11 | Each symbol becomes its own word, and no later replacement touches the words put in |
| Slugs.DotWords | src/language/slugify.ts:12 | Replacing dots between word characters never shortens the text, changes nothing in text without a dot, and adds no character but a space, `d`, `o` or `t` |
| Slugs.DotBetweenWords | src/language/slugify.ts:12 | A dot between two word characters becomes ` dot ` |
| Slugs.DotsDoNotOverlap | src/language/slugify.ts:12 | In `a.b.c` only the first dot is replaced, because matches do not overlap |
| Slugs.SlugIsUriSafe | src/language/slugify.ts:13-14 | Slug characters pass through `encodeURIComponent` unchanged |
| Slugs.SlugifyUriSafe | src/language/slugify.ts:3-15 | Every slug is its own URI encoding |
| ContentDisposition.SanitizeFilename | src/http/buildContentDispositionHeader.ts:26-28 | Each of `"`, `\`, CR, LF and `;` becomes `_`; every other character is kept, and the length is unchanged |
| ContentDisposition.EncodeFilename | src/http/buildContentDispositionHeader.ts:17 | The encoded name has only unreserved characters, `%` and hex digits, and no `'` |
| ContentDisposition.DispositionType | src/http/buildContentDispositionHeader.ts:12-14 | The type is `inline` only when `inline` is `true`; otherwise it is `attachment` |
| ContentDisposition.SplitAtChar | src/http/buildContentDispositionHeader.ts:19 | Splitting at the first occurrence of a character gives the text before it and the rest |
| ContentDisposition.SplitAtCharOf | src/http/buildContentDispositionHeader.ts:19 | Splitting finds the first separator |
| ContentDisposition.ReadHeaderOf | src/http/buildContentDispositionHeader.ts:19 | The header template reads back as its three parts |
| ContentDisposition.BuildContentDispositionHeader | src/http/buildContentDispositionHeader.ts:8-20 | Every built header reads back as the disposition type, the sanitised name and the encoded name |
| ContentDisposition.HeaderNoLineBreak | src/http/buildContentDispositionHeader.ts:16-19 | No carriage return or line feed of the file name reaches the header |
| ContentDisposition.EncodeExtChar | src/http/buildContentDispositionHeader.ts:17 | A `'` is written `%27`; every other character is encoded as `encodeURIComponent` encodes it |
| ContentDisposition.EncodeFilenameCons | src/http/buildContentDispositionHeader.ts:17 | The name is encoded one character at a time |
| ContentDisposition.PercentDecodeFilename | src/http/buildContentDispositionHeader.ts:17 | Percent-decoding the encoded name gives its UTF-8 bytes |
| ContentDisposition.DecodeFilename | src/http/buildContentDispositionHeader.ts:17 | Decoding the encoded name gives back the original name |
| ContentDisposition.NonAsciiEscaped | src/http/buildContentDispositionHeader.ts:17 | A character outside ASCII becomes three characters per UTF-8 byte |
| UriEncoding.Utf8 | src/http/buildContentDispositionHeader.ts:17 | A code point takes one to four bytes, and exactly one when it is ASCII |
| UriEncoding.PercentEncode | src/http/buildContentDispositionHeader.ts:17 | Each byte becomes `%` and two upper-case hex digits |
| UriEncoding.EncodeChar | src/http/buildContentDispositionHeader.ts:17 | Unreserved characters stay; every other character becomes its percent-encoded UTF-8 bytes |
| UriEncoding.EncodeURIComponent | src/http/buildContentDispositionHeader.ts:17 | The result has only unreserved characters, `%` and hex digits |
| UriEncoding.PercentDecodeEncoded | src/http/buildContentDispositionHeader.ts:17 | Percent-decoding inverts percent-encoding, whatever follows |
| UriEncoding.PercentDecodeURIComponent | src/http/buildContentDispositionHeader.ts:17 | Percent-decoding an encoded string gives its UTF-8 bytes |
| UriEncoding.Utf8DecodeChar | src/http/buildContentDispositionHeader.ts:17 | UTF-8 decoding reads back one code point from its encoding, whatever follows |
| UriEncoding.Utf8RoundTrip | src/http/buildContentDispositionHeader.ts:17 | UTF-8 decoding inverts UTF-8 encoding |
| UriEncoding.DecodeURIComponent | src/http/buildContentDispositionHeader.ts:17 | Decoding inverts `encodeURIComponent` for every string |
| Duration.FloorDiv60 | src/formatting/formatDuration.ts:13-15 | Whole minutes of a duration are its whole seconds divided by 60 |
| Duration.FloorDiv3600 | src/formatting/formatDuration.ts:13-15 | Whole hours of a duration are its whole seconds divided by 3600 |
| Duration.ClockOf | src/formatting/formatDuration.ts:13-15 | Minutes and seconds are under 60, and the three fields add up to the whole seconds |
| Duration.FormatDuration | src/formatting/formatDuration.ts:8-29 | NaN, the infinities and negative durations are an error with the source's message; every other duration formats |
| Duration.Pad2Value | src/formatting/formatDuration.ts:19-27 | Padding keeps the value, gives at least two digits, and exactly two below 100 |
| Duration.SplitClock | src/formatting/formatDuration.ts:17-28 | The digit fields split back apart at the colons |
| Duration.ReadFormatDuration | src/formatting/formatDuration.ts:8-29 | Reading the formatted text back gives the duration's whole seconds |
| Duration.FormatDurationFields | src/formatting/formatDuration.ts:17-28 | An hour or more gives three fields; less gives two |
| FileSize.Power | src/formatting/formatFileSize.ts:18-30 | Each unit's divisor is at least one |
| FileSize.UnitIndex | src/formatting/formatFileSize.ts:18-30 | Chooses the largest unit whose divisor the size reaches, and GB for any larger size |
| FileSize.UnitIndexUnique | src/formatting/formatFileSize.ts:18-30 | Exactly one unit satisfies that rule |
| FileSize.FormatFileSize | src/formatting/formatFileSize.ts:13-31 | Non-finite and negative sizes are an error; any other size is divided by its unit's divisor and followed by the unit |
| FileSize.UnitFromUnroundedSize | src/formatting/formatFileSize.ts:22-24 | 999 999 bytes are written in KB, because the unit is chosen before rounding |
| FileSize.LargestUnitIsGB | src/formatting/formatFileSize.ts:30 | A size of 10^9 bytes or more is always written in GB |
| LegacyFileSize.LegacyUnitIndex | src/transformation/formatFileSize.ts:18-30 | A finite size gets the same unit as in the current version; NaN and +Infinity get `Gb` |
| LegacyFileSize.FormatFileSize | src/transformation/formatFileSize.ts:13-31 | Only sizes below zero are an error, with the legacy message |
| LegacyFileSize.NotFiniteIsGb | src/transformation/formatFileSize.ts:14-30 | NaN and +Infinity get past the guard and are written in `Gb` |
| LegacyFileSize.AgreesWithFormatting | src/transformation/formatFileSize.ts:13-31 | For a finite size that is not negative, the two versions differ only in the case of the unit letters |
| ValueFormat.FindMagnitude | src/formatting/formatValue.ts:82-84 | Finds the first magnitude, largest first, that the value reaches, or none |
| ValueFormat.WithUnit | src/formatting/formatValue.ts:99-107 | No unit adds nothing; a unit starting with `%` follows directly; any other unit follows one space |
| ValueFormat.FormatValue | src/formatting/formatValue.ts:50-108 | `null` gives `null` whatever the options the formatter accepts; NaN is an error; every other number gives a string |
| ValueFormat.PlainValue | src/formatting/formatValue.ts:95-107 | Without `abbreviate` and without a `%` unit, a finite value is written in the decimal format with `maximumFractionDigits`, followed by one space and the unit when there is one |
| ValueFormat.AbsDivAtLeastOne | src/formatting/formatValue.ts:83 | The value reaches a magnitude exactly when its absolute value is at least that multiple |
| ValueFormat.FindMagnitudeIsScale | src/formatting/formatValue.ts:6-23 | The search picks the largest multiple of a thousand, up to 10^12, that the value reaches |
| ValueFormat.AbbreviatedValue | src/formatting/formatValue.ts:81-92 | With `abbreviate`, a finite value is divided by that multiple and followed by its letter, whatever the unit |
| ValueFormat.MagnitudeFromUnroundedValue | src/formatting/formatValue.ts:82-90 | 999 999.99 is abbreviated with `K`: the letter is chosen before rounding |
| ValueFormat.InfinityUsesIntegerFormat | src/formatting/formatValue.ts:79-80 | The infinities are written in the integer format and never abbreviated |
| ValueFormat.PercentUnitIgnoresFractionDigits | src/formatting/formatValue.ts:93-94 | A `%` unit forces the integer format, so `maximumFractionDigits` has no effect |
| ValueFormat.DefaultOptions | src/formatting/formatValue.ts:54-59 | With no options, a number is written in en-US with at most one fraction digit and no unit |
| ValueFormat.Merge | src/formatting/formatValue.ts:110-113 | The option in effect is the call's value; a call's `undefined` gives the built-in default; a key the call leaves out gives the creator's option |
| ValueFormat.MergeLaws | src/formatting/formatValue.ts:110-113 | Merging options has no options as its identity and is associative |
| ValueFormat.UndefinedHidesDefault | src/formatting/formatValue.ts:110-113 | An explicit `undefined` in the call's options hides the creator's `abbreviate` default |
| ValueFormat.CreateFormatValue | src/formatting/formatValue.ts:110-113 | The returned function formats with the call's options over the creator's defaults |
| TimeUnits.Seconds | src/time/index.ts:7-9 | Seconds become milliseconds |
| TimeUnits.Minutes | src/time/index.ts:17-19 | Minutes become milliseconds |
| TimeUnits.Hours | src/time/index.ts:27-29 | Hours become milliseconds |
| TimeUnits.Days | src/time/index.ts:37-39 | Days become milliseconds |
| TimeUnits.UnitsNest | src/time/index.ts:17-39 | A minute is 60 seconds, an hour 60 minutes and a day 24 hours |
| TimeUnits.DaysAdd | src/time/index.ts:37-39 | Durations add |
| Environment.GetEnvBoolean | src/environment/getEnvBoolean.ts:24-39 | A set variable gives its truth value and the default is ignored; an unset one gives the default, or an error naming the variable when there is none |
| Environment.GetEnvInteger | src/environment/getEnvInteger.ts:24-49 | A set variable gives its `parseInt` value, or an error when that is NaN; an unset one gives the default, or an error when there is none |
| Environment.GetEnvString | src/environment/getEnvString.ts:19-30 | A set variable gives its text, even when empty; an unset one gives the default, or an error when there is none |
| Environment.IsTruthyIff | src/environment/getEnvBoolean.ts:28-38 | A value is true exactly when, trimmed, it is `1` or `true` in any letter case |
| Environment.TruthyIgnoresSpace | src/environment/getEnvBoolean.ts:28 | White space around a value does not change its truth |
| Environment.BlankIsFalse | src/environment/getEnvBoolean.ts:28-38 | An empty or blank value is false, not the default |
| Environment.SetVariableIgnoresDefault | src/environment/getEnvInteger.ts:32-42 | When the variable is set, none of the three getters depends on the default |
| Environment.GetEnvIntegerOfNumeral | src/environment/getEnvInteger.ts:32-39 | A variable holding a decimal integer gives that integer |
| Environment.GetEnvIntegerIgnoresRest | src/environment/getEnvInteger.ts:33 | Characters after the leading digits are ignored |
| Environment.GetEnvIntegerNotANumber | src/environment/getEnvInteger.ts:35-38 | A variable with no leading digits is an error, not the default |
| Environment.EmptyStringIsKept | src/environment/getEnvString.ts:23 | An empty variable is returned as the empty string, not replaced by the default |
| JsText.TrimStart | src/environment/getEnvBoolean.ts:28 | Removes exactly the leading white space |
| JsText.TrimEnd | src/environment/getEnvBoolean.ts:28 | Removes exactly the trailing white space |
| JsText.NatToStringValue | src/transformation/parseNullableInt.ts:14 | A natural number's decimal numeral has that value and no leading zero |
| JsText.LowerCase | src/language/slugify.ts:5 | Lower-cases each character and keeps the length |
| JsText.ReplaceAll | src/csv/serializeCSVCell.ts:59 | Replacing a character leaves only characters of the replacement or other characters of the input, and changes nothing when the character is absent |
| JsText.ReplaceAllConcat | src/language/slugify.ts:7-11 | Replacing in two strings joined is replacing in each |
| JsText.SplitOnJoin | src/formatting/formatDuration.ts:18-28 | Splitting at a character inverts joining with it, for parts without that character |

## Left out

- Rendering by `Intl.NumberFormat` and `Intl.DateTimeFormat` is a function
  parameter in `CsvCell`, `FileSize`, `LegacyFileSize` and `ValueFormat`:
  its digits, grouping, rounding and locale data are not modelled.
  The `RangeError` that `Intl.DateTimeFormat.format` throws for an
  invalid `Date` is modelled (`CsvCell.SerializeCell`); a `RangeError`
  from bad `Intl` constructor options is not.
- `transliterate` (from the `transliteration` package) is a function
  parameter of `Slugs.Slugify`.
- The lodash key functions behind `camelCase`, `snakeCase` and `pascalCase`
  are not modelled. `DeepTransformKeys.DeepTransformKeys` takes the key
  function as a parameter.
- Numbers are exact reals, not IEEE doubles: rounding and `-0` are not
  modelled. `TimeUnits.Seconds`, `TimeUnits.Minutes`, `TimeUnits.Hours`
  and `TimeUnits.Days` are exact products.
- The internals of `TZDate` and `Date` are not modelled. A parsed date is
  its calendar fields and time zone, and a `Date` given to
  `parseNullableDate` becomes an opaque instant in the zone.
- The reader-side queue of `ReadableStream` is not modelled. This covers
  the discarding of unread chunks when the stream errors, and
  back-pressure beyond one chunk.
- CsvStream.Stream.Pull: `reportError` is a record of the reported
  errors. The default `console.error` and a `reportError` that itself
  throws are not modelled.
- JavaScript promises, microtasks and concurrent interleavings are
  explicit method calls in `AsyncSemaphore` and `ConcurrencyLimit`. A
  fractional, NaN or infinite `maxConcurrency` is not modelled, because
  the limit is an integer.
- UriEncoding.EncodeURIComponent: a lone surrogate, which makes
  `encodeURIComponent` throw `URIError`, cannot occur, because a Dafny
  `char` is a Unicode scalar value.
- JsText.LowerCase: only ASCII letters are lower-cased. The full Unicode
  case mapping of `toLowerCase` is not modelled, so
  Environment.GetEnvBoolean and Slugs.Slugify lower-case only A-Z.
- DeepTransformKeys.FromEntries: object keys that look like array indices
  are not moved ahead of the other keys as JavaScript orders them.
  Entries keep insertion order.
- DelimitedString.ParseDelimitedString: the delimiter must be non-empty,
  without white space and without regular-expression syntax characters.
  The source puts the delimiter into a regular expression unescaped, and
  other delimiters are read as patterns, which is not modelled.
- `src/async/delay.ts` (timers), the encryption helpers (Web Crypto and
  Node crypto), `parseNullableFloat`, and the `formatDateForDateInput` and
  `formatDateForDateTimeInput` helpers are not part of this model.
- The `console.warn` of the deprecated `getEnvNumber` is output only and
  is not modelled.
