# Student record lookup: a Dafny model

The API route `pages/api/student.js` answers `GET /api/student?nim=<id>`
from a plain-text record store. The store is a sequence of comment-like
blocks `/* ... */`. Each block holds `KEY: value` lines about one student:

- the string fields NIM, NAMA, GRADE, KELAS and RANK;
- the score lists TUGAS_TEORI, TUGAS_PRAKTIKUM and PORTOFOLIO;
- the single scores RESPONSI_PRAKTIKUM, KUIS_TEORI and UTS_PRAK;
- a PROJECT line of `;`-separated `key=value` pairs.

The handler works in two steps:

1. It cuts the store into blocks and takes the first block containing
   `NIM: <id>`. If no block does, it answers not-found.
2. It parses that block into a JSON object, one property per recognised key.

This project models both steps as pure functions and proves what they do.

Modules:

- `Whitespace`: JavaScript `trim`, with the WhiteSpace and LineTerminator
  characters of ECMA-262.
- `Strings`: `includes`, `indexOf`, `split`, `join`, and the global delete
  done by `replace(/\*\//g, '')`.
- `Numbers`: JavaScript `Number(text)`.
  - The StringNumericLiteral grammar of ECMA-262 decides exactly which texts
    are NaN.
  - Optionally signed decimal integers get their value.
  - Every other numeric literal is a number whose value is not tracked.
- `Scores`: the comma-separated score lists.
- `Project`: the PROJECT sub-record.
- `Record`: the twelve fields, and the object with one optional property per
  field.
- `BlockParser`: the per-line `switch` and the parse of a whole block.
- `BlockStore`: cutting the store into blocks, and the lookup by NIM.
- `Examples`: the block of the repository's parser test, and behaviours a
  reader of the code may not expect.

Three behaviours of the handler a reader may not expect:

- A line such as `KELAS:` with an empty value is not skipped. The handler
  only skips a line with no colon or with nothing before its first colon.
  So `KELAS:` sets `kelas` to the empty text, and `TUGAS_TEORI:` sets
  `teori` to `[0]`, because `Number('')` is 0.
- A block whose text ends in `/` does not come back whole. That `/` and the
  `*` of the block's closing `*/` form a `/*`, where the store is cut again.
  `Examples.SlashEndSplits` shows that the block `x/` reads back as the two
  blocks `x` and `/`.
- The parser test imports a `parseBlock` function that `student.js` does
  not export; the parsing is inlined in the handler. Here `ParseBlock` is
  that inlined code, lines 16-44.

## Model

| member | source | states |
|---|---|---|
| Whitespace.Trim | pages/api/student.js:11 | The result has no white space at either end, and it sits in the input with only white space before and after it |
| Whitespace.TrimUnique | pages/api/student.js:11 | Trim is determined by that property: any edge-free text surrounded only by white space is the trim |
| Whitespace.TrimPadded | pages/api/student.js:20 | White space added around a trimmed text is exactly what trim removes again |
| Strings.Split | pages/api/student.js:10 | `split` gives at least one part, and no part contains the separator |
| Strings.SplitJoinsBack | pages/api/student.js:10 | Joining the parts of `split` with the separator gives the text back |
| Strings.SplitJoin | pages/api/student.js:17 | Splitting a join of separator-free parts gives those parts back |
| Strings.SplitCount | pages/api/student.js:27 | Splitting on a character gives one more part than the number of times it occurs |
| Strings.DeleteAll | pages/api/student.js:11 | Deleting every occurrence of a pattern never lengthens the text, and leaves it as it was exactly when the pattern does not occur |
| Strings.DeleteAllIsSplitJoin | pages/api/student.js:11 | Deleting every end marker left to right is concatenating the pieces between the markers |
| Strings.Find | pages/api/student.js:18 | The first index of a character: the character is there and not before it, or None exactly when it is absent |
| Strings.SplitAtFirst | pages/api/student.js:18-20 | Splitting at the first occurrence gives the text before it, and parts that rejoin to the text after it |
| BlockStore.NonEmpty | pages/api/student.js:12 | The kept texts are all non-empty and come from the input, every non-empty input text is kept, and no more texts come out than went in |
| BlockStore.NonEmptyConcat | pages/api/student.js:12 | The filter works piece by piece: filtering a concatenation concatenates the filtered halves, so kept texts keep their order and their repeats |
| BlockStore.CleanBlock | pages/api/student.js:11 | A cleaned piece has no white space at either end, and holds no start marker when the piece held none |
| BlockStore.TrimAvoids | pages/api/student.js:11 | Trimming never creates a pattern the text did not hold |
| BlockStore.DeleteKeepsNoStart | pages/api/student.js:11 | Deleting end markers from text without a start marker never creates one |
| BlockStore.Blocks | pages/api/student.js:9-12 | Every block is non-empty, has no white space at either end, and holds no `/*` |
| BlockStore.FindFirst | pages/api/student.js:13 | The position found is the first block containing the needle, and None means no block contains it |
| BlockStore.ExtractBlock | pages/api/student.js:13 | None exactly when no block contains `NIM: <id>`; otherwise the first block that does |
| BlockStore.Lookup | pages/api/student.js:13-14 | Not-found exactly when no block contains `NIM: <id>`; otherwise the parse of the first block that does |
| BlockStore.NeedlePrefix | pages/api/student.js:13 | The match is a substring test: a block holding `NIM: <id><more>` also holds `NIM: <id>` |
| BlockStore.FirstMatchPrefix | pages/api/student.js:13 | Looking up a prefix of an id finds a block no later than the block of the longer id |
| BlockStore.PrefixIdFound | pages/api/student.js:13-14 | If the id `id+more` is found, the shorter id `id` is found too |
| BlockStore.SplitStore | pages/api/student.js:10 | Splitting a store written from storable blocks at `/*` gives an empty piece, then each block followed by its `*/` and line feed |
| BlockStore.CleanFramed | pages/api/student.js:11 | Cleaning a storable block followed by `*/` and a line feed gives the block back |
| BlockStore.BlocksOfStore | pages/api/student.js:9-12 | Round trip: the blocks of a store written from storable blocks are exactly those blocks, in order |
| BlockStore.LookupFirst | pages/api/student.js:13-14 | Whenever block `k` is the first to contain `NIM: <id>`, the answer is the parse of block `k` |
| BlockStore.LookupStore | pages/api/student.js:9-14 | Looking up an id in a store written from storable blocks answers with the parse of the first of those blocks containing `NIM: <id>` |
| BlockStore.LookupStoreMissing | pages/api/student.js:9-14 | And it answers not-found when none of those blocks contains `NIM: <id>` |
| BlockStore.SlashFreeStorable | pages/api/student.js:9-12 | A non-empty block without `/` and without white space at its ends is storable |
| BlockParser.ColonSplit | pages/api/student.js:18 | `line.split(':')` is the whole line without a colon; otherwise the text before the first colon, then parts rejoining to the rest |
| BlockParser.SplitKeyValue | pages/api/student.js:18-20 | The line is skipped exactly when it has no colon or nothing before the first colon; otherwise the key before it and the trimmed rest, later colons kept |
| BlockParser.Assignment | pages/api/student.js:18-21 | A line assigns a field exactly when its trimmed key is one of the twelve keys; the value is the trimmed text after the first colon |
| BlockParser.KeyedLine | pages/api/student.js:18-21 | For a colon-free key, the line `key:value` assigns the field of the trimmed key, with the trimmed value |
| BlockParser.KeyShape | pages/api/student.js:22-33 | Every key is non-empty, has no colon, no line feed and no white space at either end |
| BlockParser.WellFormedLine | pages/api/student.js:17-21 | The line `KEY: value` assigns the value to the field of KEY |
| BlockParser.EmptyValueLine | pages/api/student.js:19-20 | `KEY:` with nothing after the colon still assigns the field, with the empty text |
| BlockParser.ParseLine | pages/api/student.js:17-43 | A line that assigns nothing leaves the object unchanged; otherwise it changes only the property its key names, to the decoded value |
| BlockParser.ParseLinesApply | pages/api/student.js:16-44 | Reading the lines in order is applying their assignments in order |
| BlockParser.ApplyUnset | pages/api/student.js:21-43 | A property that no assignment sets keeps its starting value |
| BlockParser.ApplyLast | pages/api/student.js:21-43 | The last assignment that sets a property decides its value |
| BlockParser.LastExists | pages/api/student.js:17 | If some line sets a property, one line is the last to set it |
| BlockParser.ApplyAbsent | pages/api/student.js:16-44 | From an empty object, a property is absent exactly when nothing sets it |
| BlockParser.ParseBlock | pages/api/student.js:16-44 | In a parsed block a property is absent exactly when no line assigns it: no defaults are invented |
| BlockParser.BlockLastWins | pages/api/student.js:16-44 | When several lines assign a property, the last one decides its value |
| BlockParser.RenderedAssignments | pages/api/student.js:17-21 | The lines of a written block assign each value to its field |
| BlockParser.ParseRendered | pages/api/student.js:16-44 | Parsing a written block with distinct fields gives every field its decoded value, and no other field |
| BlockParser.RenderedPresent | pages/api/student.js:16-44 | A field written once in a block is read back with its decoded value |
| BlockParser.RenderedAbsent | pages/api/student.js:16-44 | A field not written in a block is absent after parsing |
| BlockParser.SingleLine | pages/api/student.js:16-44 | A block of one assigning line sets that line's field |
| BlockParser.EmptyValueBlock | pages/api/student.js:19-20 | The block `KEY:` sets the field to the value read from the empty text |
| Record.FieldOf | pages/api/student.js:21-33 | The case-sensitive `switch` on the trimmed key: a field whose key is exactly that text, or None when no key is |
| Record.KeysName | pages/api/student.js:21-33 | Each key names its own field |
| Record.Assign | pages/api/student.js:22-41 | A `case` sets the property of its field to the decoded value and leaves every other property as it was |
| Record.Decode | pages/api/student.js:22-40 | Each field gets a value of its kind: text, score list, single score or project record |
| Record.DecodeText | pages/api/student.js:22-26 | The string fields keep the value text as it is |
| Record.DecodeScalar | pages/api/student.js:29-31 | The single-score fields hold `Number(val)` |
| Record.DecodeList | pages/api/student.js:27-32 | The three score-list fields (lines 27, 28 and 32) hold `val.split(',').map(Number)` |
| Record.DecodeProject | pages/api/student.js:33-40 | PROJECT holds the sub-record read from the value |
| Record.PutHits | pages/api/student.js:22-40 | Setting a property makes it read back as the value set |
| Record.PutKeeps | pages/api/student.js:22-40 | Setting a property leaves every other property unchanged |
| Record.EmptyHasNothing | pages/api/student.js:16 | A fresh object has no properties |
| Record.Extensional | pages/api/student.js:16-44 | An object is determined by its twelve properties, so the property-by-property results describe the whole parsed object |
| Numbers.ShowNatValue | pages/api/student.js:29-31 | The decimal digits of a number read back as that number |
| Numbers.ParseNum | pages/api/student.js:29-31 | `Number(text)` is NaN exactly when the trimmed text is non-empty and outside the numeric-literal grammar; the empty text is 0; a signed decimal integer is its value |
| Numbers.ParseShownNat | pages/api/student.js:29-31 | A whole number written in decimal, with any white space around it, reads back as itself |
| Numbers.ParseShownNegative | pages/api/student.js:29-31 | A negative integer written with a minus sign reads back as itself |
| Numbers.LiteralChars | pages/api/student.js:38 | Every numeric literal is made of digits, hexadecimal digits, signs, points, radix letters and the letters of `Infinity` |
| Numbers.ForeignCharIsNaN | pages/api/student.js:38 | A text holding any other character is NaN |
| Numbers.LiteralStart | pages/api/student.js:38 | Every numeric literal begins with a digit, a point, a sign or the `I` of `Infinity` |
| Numbers.LeadingCharIsNaN | pages/api/student.js:38 | A trimmed text beginning with any other character is NaN |
| Numbers.WordIsNaN | pages/api/student.js:27 | A word without edge space that cannot begin a literal is NaN |
| Scores.ParseScores | pages/api/student.js:27 | A score list has one more entry than the value has commas |
| Scores.ScoresOfTokens | pages/api/student.js:27 | Comma-free tokens joined by commas read back as one number per token, in order |
| Scores.ShownScore | pages/api/student.js:27 | The decimal text of a score reads back as that score |
| Scores.ScoresRoundTrip | pages/api/student.js:27-28 | Writing whole-number scores separated by commas and reading the list gives the scores back |
| Scores.TwoScores | pages/api/student.js:27 | Two comma-free tokens with a comma between them read as the numbers of the two tokens |
| Scores.ShownTwo | pages/api/student.js:27 | Two scores written with a comma between them read back as those scores |
| Scores.ShownFour | pages/api/student.js:28 | Four scores written with commas between them read back as those scores |
| Project.Coerce | pages/api/student.js:38 | A value is stored as text exactly when `isNaN` holds of it, and then as the trimmed value; a stored number is never NaN |
| Project.CoerceShownNat | pages/api/student.js:38 | A whole number, however padded, is stored as that number |
| Project.CoerceRemark | pages/api/student.js:38 | A value holding a character no number uses is stored as its trimmed text |
| Project.Entry | pages/api/student.js:37-38 | An entry's key is the trimmed text before the first `=`; its value is read from the text up to the next `=`, or to the end |
| Project.SplitFirstTwo | pages/api/student.js:37 | `p.split('=')` has at least two parts: the text before the first `=`, and the text from there to the next `=` |
| Project.KeyedSegment | pages/api/student.js:37-38 | The segment `key=value` with an `=`-free key gives the trimmed key and the value read up to any further `=` |
| Project.EntriesTrimmed | pages/api/student.js:37-38 | Every entry's key is trimmed, and so is its value when it is text |
| Project.ExtraEqualsDropped | pages/api/student.js:37 | A second `=` and what follows it are ignored: `a=1=2` reads as `a=1` |
| Project.ValueTextStops | pages/api/student.js:37 | The value text ends at the next `=` |
| Project.AssignmentParts | pages/api/student.js:34 | The filter keeps exactly the parts holding `=` and nothing else, and no more parts come out than went in |
| Project.KeepsAssignmentParts | pages/api/student.js:34 | When every part holds `=`, the filter keeps all parts in order |
| Project.AssignmentPartsConcat | pages/api/student.js:34 | The filter works part by part: filtering a concatenation concatenates the filtered halves, so kept parts keep their order and their repeats |
| Project.StoreLastWins | pages/api/student.js:35-39 | A key is stored exactly when some entry names it and it is not `__proto__`; it then holds the value of the last entry naming it |
| Project.Store | pages/api/student.js:35-39 | `__proto__` is never stored, and every stored key with its value is one of the entries |
| Project.ProjectLastWins | pages/api/student.js:33-40 | The PROJECT record holds a key exactly when some `=`-segment names it, with the value of the last such segment |
| Project.ParseProject | pages/api/student.js:33-40 | The PROJECT record never holds `__proto__`; its keys are trimmed, and so are its text values |
| Examples.TestSegmentsExist | __tests__/parser.test.js:5 | The eight PROJECT entries of the test block can be written down, so the statements about them are not vacuous |
| Examples.TestBlockExists | __tests__/parser.test.js:5 | The nine lines of the test block, with those entries on its PROJECT line, can be written down too |
| Examples.TestTexts | __tests__/parser.test.js:10-12 | The test block gives `nim` 123, `nama` Test Student and `grade` B |
| Examples.TestTheory | __tests__/parser.test.js:13 | The test block's theory scores are 90 and 80, so there are two |
| Examples.TestPractice | __tests__/parser.test.js:14 | The test block's practice scores are 85, 80, 75 and 70, so there are four |
| Examples.TestProject | __tests__/parser.test.js:15 | The test block's project record has `tim` equal to 2 |
| Examples.TestSaran | __tests__/parser.test.js:5 | The remark `saran=Keep it up` is stored as text, because it is NaN |
| Examples.TestScalars | __tests__/parser.test.js:5 | The test block's quiz score is 88 and its midterm score is 77 |
| Examples.TestPortfolio | __tests__/parser.test.js:5 | The test block's portfolio scores are four 90s |
| Examples.TestMissing | __tests__/parser.test.js:5 | KELAS, RANK and RESPONSI_PRAKTIKUM have no line in the test block, so they are absent |
| Examples.TestRead | __tests__/parser.test.js:5-9 | Each line of the test block sets its field to its decoded value |
| Examples.TestUnread | __tests__/parser.test.js:5-9 | A field without a line in the test block is absent |
| Examples.ProjectSegmentsKept | pages/api/student.js:34 | All eight entries of the test block's PROJECT value hold `=` and are kept, in order |
| Examples.SegmentWins | pages/api/student.js:36-39 | The value of a key is that of the last segment naming it |
| Examples.TestLookup | pages/api/student.js:9-14 | A store holding the test block, looked up by `123`, answers with the parse of the test block |
| Examples.SlashEndSplits | pages/api/student.js:10-12 | A block `x/` ending in `/` reads back from the store as the two blocks `x` and `/` |
| Examples.EndMarkerSurvives | pages/api/student.js:11 | The piece `**//` cleans to `*/`: one deletion pass can leave an end marker in a block |
| Examples.EmptyScores | pages/api/student.js:27 | An empty score list reads as the one score 0 |
| Examples.EmptyText | pages/api/student.js:19-26 | `KELAS:` and the other string keys with nothing after the colon set the field to the empty text |
| Examples.NotANumber | pages/api/student.js:27 | `90,abc` reads as 90 and NaN: although `abc` is made of hexadecimal digits, it is not a number |

## Left out

- Reading the store file (lines 7-8) is left out. The store's text is a
  parameter of `BlockStore.Lookup`.
- The HTTP side is left out: the request object, the 200/404/500 status
  codes, the error messages and the JSON serialisation (lines 4-5, 14, 46,
  48). `Lookup` answers `Found(record)` or `NotFound` instead.
- The `try`/`catch` is left out. The code it guards cannot throw once the
  file is read, so its 500 answer is only reached through I/O errors.
- A missing `nim` query parameter, or a repeated one (an array), is not
  modelled. `Lookup` takes the id as text. JavaScript would search for the
  texts `NIM: undefined` or `NIM: a,b`.
- Numbers.ParseNum: only optionally signed decimal integers carry a value.
  Fractions, exponents, `Infinity` and `0x`/`0o`/`0b` literals all read as
  the one value `Opaque`, because floating point is not modelled. So the
  model equates numbers JavaScript tells apart: `ParseNum("1.5") ==
  ParseNum("2.5")` holds here. No property stated about such values may be
  read as a statement about their magnitude. NaN-ness is exact for every
  text.
- Numbers.ParseNum: integers are unbounded. The rounding of integers beyond
  2^53 to the nearest double is not modelled, and neither is `-0`.
- Strings are sequences of characters. JavaScript's UTF-16 code units (and
  surrogate pairs) are not distinguished.
- The order of the properties in the JSON output is not modelled. The object
  is a record with one optional property per field.
- BlockStore.Blocks: it does not promise that blocks hold no `*/`, although
  the cleaning step seems to aim for that. A single deletion pass can create
  a new end marker: `Examples.EndMarkerSurvives` shows that `**//` cleans to
  `*/`. What is proved instead is that blocks hold no `/*`.
- BlockStore.BlocksOfStore: the round trip is promised only for storable
  blocks: non-empty, without white space at their ends, holding neither
  `/*` nor `*/`, and not ending in `/`. Other blocks are changed by the
  store: white space at the ends is trimmed away, an inner `/*` cuts the
  block in two, an inner `*/` is deleted, and a final `/` splits off (see
  `Examples.SlashEndSplits`).
- `pages/index.js`, the page calling this route, is not part of this model.
