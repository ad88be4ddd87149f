# A verified model of the GoDateTimeFormatTranslator decoder

The Go package `format` translates a date-format pattern written in another
convention (`"YYYY-MM-dd HH:mm:ss"`) into a layout for Go's `time` package
(`"2006-01-02 15:04:05"`). A `Decoder` reads the pattern byte by byte from a
`bufio.Reader` and cuts it into tokens. A pluggable adjacency predicate
`CheckValidFunc(current, next)` decides whether the next byte continues the
current token. `Translate` looks each token up in a dictionary, keeps the
tokens it finds no entry for, concatenates the results and trims the white
space around them.

The project models this in Dafny, in modules that follow the source:

- `GoStrings` (go_strings.dfy): bytes, Go's `string(b)`, `len`,
  `strings.TrimSuffix(s, "\x00")` and `strings.TrimSpace`. A Go string is
  modelled by the runes it encodes.
- `Predicates` (predicates.dfy): the two shipped predicates, and the
  condition `SentinelSafe` under which the NUL the scanner reads at the end
  of the input acts as a sentinel.
- `Scanner` (scanner.dfy): the tokenizer and translator as functions of the
  input. `ScanFrom` is the loop of `Token` with its local `tok`. `ReadAll`
  is `ReadTokens`. `Translation` is `Translate`.
- `Format` (decoder.dfy): the `Decoder` class. Its reader position is a
  field that `Token`, `ReadTokens` and `Translate` advance. Each method is
  proved to compute the `Scanner` function that describes it.
- `Chains` (runs.dfy): the maximal runs of a chain relation. This is an
  independent description of what the tokenizer should find, with a proof
  that the runs of a sequence are its only split into maximal runs.
- `TokenizerProperties` (tokenizer_properties.dfy): what the tokenizer
  promises, proved against `Chains`. This covers the partition of the
  input, the lengths, termination, and the error and panic paths.
- `Dictionaries` and `DictionaryFacts` (dictionaries.dfy,
  dictionary_facts.dfy): `StrictTokens` and `StandardTokens`, and facts
  about their keys.
- `TranslationExamples` (examples.dfy): the thirteen end-to-end cases of
  the package's test.

The reader behind the `Decoder` is a `Source`: the pattern's bytes, then
either `io.EOF` on every further read or a persistent error other than
`io.EOF`. The outcome of a call is `Returns(value, err)`, `Panics` (the
`p[0]` on the empty slice a failed `Peek` returns) or `Hangs` (the
`ReadTokens` loop never ends).

### Behaviour of the code that the model keeps

- **The NUL sentinel.** At the end of the input the loop reads a 0 byte.
  One trailing NUL is trimmed from the closed token, and `Length` is taken
  before that trim. So a final token of two or more bytes has
  `Length == len(Type) + 1` (`TokenLengths`). The peek at the last byte
  fails with `io.EOF` and leaves the stale `nextByte`, which equals the
  last byte itself (`ScanLastByte`).
- **The final token.** It is returned with a nil error. The next call
  returns a junk token with `io.EOF`, and `ReadTokens` drops that token
  (`TokenAtEnd`). The final token is not returned together with
  end-of-input.
- **The partition.** It holds at the level of runes. Each byte becomes the
  rune with that code point, so bytes of 0x80 and above are re-encoded. It
  holds only for patterns without a NUL byte. A run of NULs inside the
  pattern is one token, and only one NUL is trimmed from it. So a single
  NUL becomes an empty token (`NulInsideInputGivesEmptyToken`), and two
  NULs become a token whose text is one NUL (`NulRunIsOneToken`). A NUL
  at the end continues into the NUL read after it, so its call reports
  io.EOF and the token is dropped (`TrailingNulDropped`).
- **Termination.** It depends on the predicate. If it rejects `(0, 0)`,
  `ReadTokens` on a reader that ends in io.EOF never returns once one of
  its calls starts at the end of the input: on empty input, or after a
  final token returned with a nil error (`TokenAtEndWithoutSentinel`). A
  reader that fails instead makes that call return its error at once
  (`FailingReaderBadFormat`). It can still return when an earlier call
  reports io.EOF (`RejectingSentinelCanReturn`). If the predicate accepts
  `(0, 0)`, `ReadTokens` always returns or panics (`ReadTokensTerminates`).
- **Dropping the final token.** Which pair decides depends on the length
  of the final token, as these examples show. A final token of one byte
  `c` still has the zero next byte, so the pair checked is `(c, 0)`. If the
  predicate accepts it and `(0, 0)`, the call that reads the NUL reports
  io.EOF and the token is dropped (`OneByteFinalTokenIntoNulDropped`). A
  final token of two or more bytes keeps its last byte `c` as the stale
  next byte, and the NUL is read only if the predicate accepts `(c, c)`.
  If it rejects `(c, c)`, the token is closed at its last byte with
  Length `len(Type)` and kept (`LongerFinalTokenStopsAtLastByte`). If it
  accepts `(c, c)`, the pair checked when the NUL is read is `(0, c)`. If
  the predicate accepts that too, the token is dropped
  (`LongerFinalTokenOutOfNulDropped`). If not, the token is kept, even when
  `(c, 0)` is accepted (`LongerFinalTokenIntoNulKept`). With a predicate
  that accepts everything, "AB" yields no token at all
  (`EverythingContinuesDropsAllTokens`). Both shipped predicates are
  sentinel-safe, so none of this happens with them.

## Model

| member | source | states |
|---|---|---|
| Predicates.CheckNextPartOfToken | decode.go:142-181 | true exactly when the bytes are equal or the pair is one of the nine exceptions Yy, Mm, Dd, Hh, Ss, Ff, Zz, Da, ay |
| Predicates.CheckNextPartOfTokenStrict | decode.go:185-190 | true exactly when the bytes are equal |
| Predicates.DefaultIsSentinelSafe | decode.go:142-181 | the default predicate lets NUL continue NUL, and lets each other byte continue itself and neither continue into nor out of NUL |
| Predicates.StrictIsSentinelSafe | decode.go:185-190 | the same for the strict predicate |
| Predicates.StrictRefinesDefault | decode.go:142-190 | every pair the strict predicate joins, the default predicate joins too |
| Predicates.DefaultCrossLetter | decode.go:147-178 | apart from equal bytes and an upper-case letter followed by its lower case, the default predicate joins only D-a and a-y |
| GoStrings.Rune | decode.go:78 | Go's `string(b)` for a byte: the rune whose code point is the byte |
| GoStrings.Runes | decode.go:78-90 | the runes of the bytes appended one at a time: one rune per byte, each that byte's rune |
| GoStrings.Utf8Len | decode.go:83 | Go's `len` of a string: between one and four bytes per rune (additive by Utf8LenAppend, exact on ASCII by Utf8LenAscii; the body is the UTF-8 width of each rune) |
| GoStrings.IsSpace | decode.go:137 | `unicode.IsSpace` as a finite set of runes; it has no contract, and TrimSpace, TrimSpaceInfix and TrimSpaceUnchanged state what trimming by it does |
| GoStrings.RunesAppend | decode.go:78-82 | appending `string(b)` byte by byte gives the runes of the concatenated bytes |
| GoStrings.Utf8LenAppend | decode.go:83 | `len` of a concatenation is the sum of the lengths |
| GoStrings.Utf8LenAscii | decode.go:83 | on ASCII text `len` is the number of runes |
| GoStrings.TrimNul | decode.go:85 | drops exactly one trailing NUL when there is one, and otherwise changes nothing |
| GoStrings.TrimSpace | decode.go:137 | the result has no white space at either end |
| GoStrings.TrimSpaceInfix | decode.go:137 | the result is an infix of the input, with only white space before and after it |
| GoStrings.TrimSpaceIdempotent | decode.go:137 | trimming a trimmed string changes nothing |
| GoStrings.TrimSpaceUnchanged | decode.go:137 | a string is left as it is exactly when it is empty or has no white space at either end |
| Scanner.Fresh | decode.go:56 | the zero value of `var tok Token` that every call of Token starts from; it has no contract, and NextToken and the Scan lemmas state what starting from it gives |
| Scanner.ScanFrom | decode.go:57-97 | the loop never moves the reader backwards or past the end, moves it when input remains and it returns, never hangs, and never reports ErrBadFormat |
| Scanner.NextToken | decode.go:55-98 | the same facts for one call of Token from a fresh token |
| Scanner.ReadAll | decode.go:101-114 | the reader stays within the input, and a returned error is nil or a read failure that comes with no tokens |
| Scanner.Close | decode.go:83-85 | Length is len of the text, taken before the trim, and Type is the text without its trailing NUL when it ends in one, and the text itself otherwise |
| Scanner.Lookup | decode.go:131-135 | the dictionary's entry for the token's text, or the text itself; it has no contract, and TranslatedPassThrough and TranslationExamples.ReplacesOutput state what it does over a whole token list |
| Scanner.Translation | decode.go:124-138 | Translate returns a value exactly when ReadTokens does, its error is nil or it returns "" with ErrBadFormat, and a nil-error result has no white space at either end |
| Scanner.Translated | decode.go:129-136 | the replacements of the tokens concatenated in order; it has no contract, and TranslatedSnoc, TranslatedPassThrough and TranslationExamples.ReplacesOutput state what it computes |
| Scanner.TranslatedSnoc | decode.go:130-136 | the translation of one more token is the old translation followed by that token's replacement |
| Format.Decoder.constructor | decode.go:25-27 | a new Decoder reads from the start of the source with the default predicate |
| Format.Decoder.SetCheckValidFunc | decode.go:30-32 | the predicate becomes the given one, and nothing else changes |
| Format.Decoder.ReadByte | decode.go:59-62 | the next byte and a nil error, or 0 with io.EOF or the reader's error at the end |
| Format.Decoder.Peek | decode.go:68-74 | the next byte without consuming it, or the reader's error at the end |
| Format.Decoder.Token | decode.go:55-98 | the outcome and the new reader position are those of NextToken at the old position |
| Format.Decoder.ReadTokens | decode.go:101-114 | the outcome and the new reader position are those of ReadAll at the old position |
| Format.Decoder.Translate | decode.go:124-138 | the result is Translation at the old position, and the reader ends where ReadAll leaves it |
| Chains.RunEnd | decode.go:77-87 | a run ends after at least one byte, the predicate holds inside it, and it fails across its end unless the input ends |
| Chains.RunEndUnique | decode.go:77-87 | those three conditions determine the end of a run |
| Chains.MaximalRunsCons | decode.go:77-87 | a chained run put in front of a split into maximal runs, with the predicate failing across the seam, is again such a split |
| Chains.RunsCharacterized | decode.go:77-87 | a list of parts is a split of the input into maximal runs exactly when it is the list of runs of the input |
| TokenizerProperties.ConcatRunTokens | decode.go:78-82 | the texts of the tokens of a list of runs, concatenated, are the runes of the concatenated runs |
| TokenizerProperties.ScanNulAtEnd | decode.go:59-86 | at the end of the input, with the NUL not continuing the stale next byte, the loop closes the token, counts the NUL and trims it |
| TokenizerProperties.ScanLastByte | decode.go:66-87 | reading the last byte of a run of two or more bytes closes the token at the end with Length one more than its bytes |
| TokenizerProperties.ScanRunBoundary | decode.go:76-87 | a byte followed by one that does not continue it closes the token there with a nil error |
| TokenizerProperties.ScanRunStep | decode.go:57-97 | an iteration inside a run appends the byte, peeks the next one and goes on |
| TokenizerProperties.ScanInsideRun | decode.go:57-97 | once inside a run, the loop returns the whole maximal run and leaves the reader at its end |
| TokenizerProperties.TokenReturnsRun | decode.go:55-98 | with input left, Token returns the maximal run at the reader with a nil error and leaves the reader at its end |
| TokenizerProperties.TokenOfLastByte | decode.go:66-87 | a one-byte final token: the zero next byte closes it, with Length len(Type) |
| TokenizerProperties.TokenAtEnd | decode.go:59-95 | at the end of the input Token returns io.EOF with a one-NUL junk token of Length 2 |
| TokenizerProperties.TokenAtEndWithoutSentinel | decode.go:81-86 | if NUL does not continue NUL, Token at the end returns an empty token with a nil error, and ReadTokens started at the end hangs |
| TokenizerProperties.ReadTokensTerminates | decode.go:103-113 | if NUL continues NUL, ReadTokens always returns or panics |
| TokenizerProperties.ReadAllRunsFrom | decode.go:101-114 | from any position, ReadTokens returns the tokens of the maximal runs of the rest of the input with a nil error |
| TokenizerProperties.ReadAllAfterRun | decode.go:101-114 | ReadTokens with input left yields the first run's token, then whatever it yields from that run's end |
| TokenizerProperties.ReadTokensGivesRuns | decode.go:101-114 | ReadTokens returns one token per maximal run of the input, in order, and reads the whole input |
| TokenizerProperties.ReadTokensPartition | decode.go:55-114 | the tokens are non-empty maximal runs of the input, and their texts concatenated give back the input |
| TokenizerProperties.TokenLengths | decode.go:83-93 | on ASCII input Length is len(Type), plus one for a final token of two or more bytes |
| TokenizerProperties.RunInInput | decode.go:101-114 | every byte of a part of a split of the input is a byte of the input |
| TokenizerProperties.EmptyInput | decode.go:101-138 | empty input yields no tokens, and Translate returns "" with a nil error |
| TokenizerProperties.ScanFailingReader | decode.go:59-74 | on a reader that fails after its bytes, Token either panics or closes a token before the last byte |
| TokenizerProperties.FailingReaderPanics | decode.go:66-74 | a reader that fails after one or more bytes makes ReadTokens panic |
| TokenizerProperties.FailingReaderBadFormat | decode.go:124-128 | a reader that fails at once makes ReadTokens return its error, and Translate returns "" with ErrBadFormat |
| TokenizerProperties.TranslatedPassThrough | decode.go:130-136 | tokens with no dictionary entry are copied unchanged and in order |
| TokenizerProperties.TranslationOfRuns | decode.go:124-138 | Translate returns the trimmed concatenation of the replacements of the maximal runs of the input |
| TokenizerProperties.TranslationPassThrough | decode.go:124-138 | with no dictionary entry for any run, Translate returns the trimmed input |
| TokenizerProperties.EverythingContinuesDropsAllTokens | decode.go:88-107 | with the predicate that is always true, "AB" is one token that reports io.EOF, so ReadTokens returns no token |
| TokenizerProperties.ReadAllOfCalls | decode.go:101-114 | ReadTokens returns, in order, the tokens of successive calls that return a nil error before the end, up to the call that reports io.EOF |
| TokenizerProperties.OneByteFinalTokenIntoNulDropped | decode.go:66-107 | with IntoNul (`a == b` or `b == 0`), "AB" gives only "A": the one-byte final token is checked against the zero next byte, continues, and its call reports io.EOF |
| TokenizerProperties.LongerFinalTokenIntoNulCalls | decode.go:66-87 | with IntoNul (`a == b` or `b == 0`) on "ABB", the calls return "A" and then "BB" of Length 3 with nil errors |
| TokenizerProperties.LongerFinalTokenIntoNulKept | decode.go:66-107 | with IntoNul (`a == b` or `b == 0`), "ABB" gives "A" and "BB": the stale next byte of "BB" is its last byte, and the NUL does not continue it |
| TokenizerProperties.LongerFinalTokenOutOfNulDropped | decode.go:66-107 | with OutOfNul (`a == b` or `a == 0`), "ABB" gives only "A": the NUL continues the stale next byte, and the call reports io.EOF |
| TokenizerProperties.NulInsideInputCalls | decode.go:77-86 | with the default predicate on "A", NUL, "B", the three calls return "A", an empty token of Length 1, and "B", with nil errors |
| TokenizerProperties.NulInsideInputGivesEmptyToken | decode.go:77-114 | with the default predicate, "A", NUL, "B" gives three tokens, the middle one with an empty text and Length 1 |
| TokenizerProperties.RejectingSentinelCanReturn | decode.go:88-107 | with NotNulPair, which rejects only two NULs, "AB" is one token, the NUL read at the end continues the stale next byte, that call reports io.EOF, and ReadTokens returns no token instead of hanging |
| TokenizerProperties.LongerFinalTokenStopsAtLastByte | decode.go:66-107 | with AThenBOrNul (`(a, b) == (A, B)` or `a == 0`), which accepts `(0, B)` but rejects `(B, B)`, "AB" gives the one token "AB" of Length 2: the stale next byte at the last byte does not continue it, so the NUL is never read |
| TokenizerProperties.NulRunCalls | decode.go:77-86 | with the default predicate on "A", NUL, NUL, "B", the three calls return "A", a token of text NUL and Length 2, and "B", with nil errors |
| TokenizerProperties.NulRunIsOneToken | decode.go:77-114 | with the default predicate, "A", NUL, NUL, "B" gives three tokens: two NULs make one token with only one NUL trimmed |
| TokenizerProperties.TrailingNulDropped | decode.go:88-107 | with the default predicate, "A" followed by NUL gives only "A": the NUL's call reports io.EOF and its token is dropped |
| Dictionaries.StrictTokens | decode.go:195-225 | the 29 entries of StrictTokens as a map constant; it has no contract, and StrictLacksNonLetters states a fact about its keys |
| Dictionaries.StandardTokens | decode.go:227-298 | the 70 entries of StandardTokens as the union of eight groups; it has no contract, and the Entry lemmas show that each group's entries survive the union |
| DictionaryFacts.YearEntry | decode.go:228-233 | each year entry is an entry of StandardTokens with the same layout |
| DictionaryFacts.MonthEntry | decode.go:234-241 | each month entry is an entry of StandardTokens with the same layout |
| DictionaryFacts.DayEntry | decode.go:242-246 | each day entry is an entry of StandardTokens with the same layout |
| DictionaryFacts.HourEntry | decode.go:247-251 | each hour entry is an entry of StandardTokens with the same layout |
| DictionaryFacts.MinuteSecondEntry | decode.go:252-258 | each minute and second entry is an entry of StandardTokens with the same layout |
| DictionaryFacts.FractionEntry | decode.go:259-267 | each f-fraction entry is an entry of StandardTokens with the same layout |
| DictionaryFacts.FractionUpperEntry | decode.go:268-284 | each F-fraction entry is an entry of StandardTokens with the same layout |
| DictionaryFacts.OtherEntry | decode.go:285-297 | each AM/PM, zone and day-name entry is an entry of StandardTokens with the same layout |
| DictionaryFacts.StandardLacksNonLetters | decode.go:227-298 | StandardTokens has no key starting with a character other than an ASCII letter, so separators pass through |
| DictionaryFacts.StrictLacksNonLetters | decode.go:195-225 | StrictTokens has no key starting with a character other than an ASCII letter |
| TranslationExamples.Bytes | decode_test.go:70 | the bytes a strings.Reader delivers for an ASCII pattern: NUL-free, one per rune, same runes |
| TranslationExamples.WellCutMaximal | decode.go:77-87 | a pattern cut into chained pieces with the predicate failing across each seam is split into maximal runs |
| TranslationExamples.ReplacesOutput | decode.go:130-136 | when the dictionary maps each piece to its expected text, the translation of the pieces' tokens is the expected text |
| TranslationExamples.TranslationOfPieces | decode.go:124-138 | Translate of a well cut pattern returns the trimmed expected text with a nil error |
| TranslationExamples.TranslationOfCase | decode_test.go:69-71 | a case read with NewDecoder and translated with StandardTokens gives its expected layout |
| TranslationExamples.DateAndTime | decode_test.go:15-18 | "YYYY-MM-dd HH:mm:ss" translates to "2006-01-02 15:04:05" with a nil error |
| TranslationExamples.IsoDate | decode_test.go:19-22 | "YYYY-MM-DD" translates to "2006-01-02" |
| TranslationExamples.SlashedDate | decode_test.go:23-26 | "YYYY/MM/DD" translates to "2006/01/02" |
| TranslationExamples.DayFirstDate | decode_test.go:27-30 | "DD-MM-YYYY" translates to "02-01-2006" |
| TranslationExamples.DayFirstSlashedDate | decode_test.go:31-34 | "DD/MM/YYYY" translates to "02/01/2006" |
| TranslationExamples.TwelveHourClock | decode_test.go:35-38 | "YYYY-MM-DD hh:mm:ss A" translates to "2006-01-02 03:04:05 PM" |
| TranslationExamples.ShortMonthName | decode_test.go:39-42 | "MMM DD,YYYY" translates to "Jan 02,2006" |
| TranslationExamples.LongMonthName | decode_test.go:43-46 | "MMMM DD,YYYY" translates to "January 02,2006" |
| TranslationExamples.TwoDigitYear | decode_test.go:47-50 | "DD/MM/YY" translates to "02/01/06" |
| TranslationExamples.Microseconds | decode_test.go:51-54 | "HH:mm:ss.ffffff" translates to "15:04:05.999999" |
| TranslationExamples.MixedCaseMonth | decode_test.go:55-58 | "YY-Mmm-dd" translates to "06-Jan-02" |
| TranslationExamples.DayName | decode_test.go:59-62 | "Day" translates to "Monday" |
| TranslationExamples.MixedCaseDate | decode_test.go:63-66 | "Yyyy-Mmm-Dd" translates to "2006-Jan-02" |

## Left out

- The `bufio.Reader` and `io.Reader` plumbing is not modelled. The reader is a `Source`: a sequence of bytes and a flag saying whether reads at the end return `io.EOF` or another error. `Decoder.ReadByte` and `Decoder.Peek` take the place of `bufio`'s methods. `NewDecoder` takes that `Source`.
- A read error is modelled as one that repeats at the end of the input and never happens before it. Errors in the middle of the input, and its exact error values, are not modelled.
- The runtime panic from indexing the empty slice a failed `Peek` returns is modelled as the outcome `Panics`. A `ReadTokens` loop that never ends is modelled as `Hangs`.
- The fields `prevByte` and `idx`, and the untrimmed copy stored in `d.tok`, are written but never read. The model drops them. `Token` keeps the rest of its local `tok` as a `Scan` value.
- A Go string is modelled by its runes. `len` is the length of their UTF-8 encoding, so invalid UTF-8 never arises.
- The partition, length and translation theorems require a sentinel-safe predicate and input without NUL bytes. Otherwise they do not hold. What happens instead is stated in general only for a predicate that rejects `(0, 0)` (`TokenAtEndWithoutSentinel`, which covers only calls that start at the end of an input read to io.EOF). The other cases are shown by examples: the five lemmas about the final token, `RejectingSentinelCanReturn`, and the three lemmas about NUL bytes in the input.
- The predicate is a total, pure `(byte, byte) -> bool`. Go's `CheckValidFunc` may be nil, which panics at its first call, or a closure with state. decode.go:77 and 81 call it twice per iteration, so such a closure could append a byte zero or two times. Neither case is modelled.
- TranslationExamples.Bytes: the bytes of a pattern are given only for ASCII patterns (the test cases are ASCII). UTF-8 encoding of other text is not modelled.
- `StandardTokens` is written as the union of eight groups, in the order and with the entries decode.go lists. The entries are the same, and the grouping is only a way to write it. The facts proved about the dictionaries are the ones the examples and the pass-through of separators need.
- The test's error reporting and printing (decode_test.go:72-82) are not modelled. What the test checks is stated by the example lemmas.
