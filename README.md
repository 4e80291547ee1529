# Frequency-ranked word/punctuation tokenizer, in Dafny

This project models the `Tokenizer` class of `script.js` (lines 1-82): a
tokenizer that splits lowercased text into word runs and single punctuation
characters, gives every distinct unit of a training corpus an integer id
(the four special tokens `<unk>`, `<pad>`, `<cls>`, `<sep>` first, with ids
0 to 3, then the units from the most to the least frequent), encodes text as
ids and decodes ids back to text.

The modules follow the program's structure:

- `JsText` (`js_text.dfy`): the parts of the JavaScript string library the
  class relies on. These are the `\s` and `\w` classes of a regular
  expression without the `u` flag, `toLowerCase` on ASCII letters, the text
  of an integer id in a template literal, and `replace(/\s+/g, " ").trim()`.
- `Splitter` (`splitter.dfy`): the global match of `/(\w+|[^\s\w])/g` on
  lowercased text, shared by `train` and `encode`, as a recursive function.
- `Reassembly` (`reassembly.dfy`): the rule by which `decode` joins tokens.
  One space goes between two consecutive tokens exactly when both contain a
  word character.
- `Vocabulary` (`vocabulary.dfy`): the vocabulary as a value (two maps and
  the next id) and the invariants that `train` establishes. It also holds
  the counting pass and the sort by descending count that `train` runs,
  and the functions that give the meaning of `encode` and `decode` on a
  given vocabulary, with their round-trip lemmas.
- `Tokenization` (`tokenizer.dfy`): the `Tokenizer` class itself. Its fields
  `tokenToId`, `idToToken` and `nextId` are updated in place by
  `InitSpecialTokens` and `Train` (whose assignment loop is `AssignIds`).
  `Encode` reads them. `Decode` joins its tokens with the loop
  `Reassembly.Join` and is proved equal to the decoding function.
- `Wrappers` (`wrappers.dfy`): a `Result` type. It stands for the `Error`
  that `encode` and `decode` throw before any training.

The source's `specialTokens` field is never changed after the constructor, so
it is the module constant `Vocabulary.SpecialTokens`, listed in id order.

The spacing test of `decode` (`script.js:73-74`) is an unanchored
`match(/\w/)`: a token qualifies when it contains a word character anywhere.
For units produced by the splitter this is the same as starting with one. It
is not the same for special tokens such as `<unk>` or for placeholders such
as `[UNKNOWN ID:7]`, and the model keeps the unanchored test
(`Reassembly.HasWordChar`).

## Model

| member | source | states |
|---|---|---|
| Splitter.Scan | script.js:26 | every match is a run of word characters or a single character that is neither whitespace nor a word character; matches of a text without uppercase have none (that a run is matched whole is `Splitter.ScanWordRun`) |
| Splitter.Units | script.js:49 | the units of a text, as `train` and `encode` obtain them, are matches with no uppercase letter |
| Splitter.ScanKeepsContent | script.js:26 | the matches laid end to end are exactly the characters of the text that are not whitespace, in order |
| Splitter.WordRunLength | script.js:26 | how far `\w+` reaches: the longest prefix made of word characters, with the next character (if any) not a word character |
| Splitter.ScanWordRun | script.js:26 | a run of word characters not followed by another one is matched whole, and matching goes on after it |
| Splitter.ScanSymbol | script.js:26 | a character that is neither whitespace nor a word character is matched on its own |
| Splitter.ScanSpace | script.js:26 | whitespace is skipped and separates matches |
| Splitter.UnitsExample | script.js:49 | the units of "x x y", for lowercase words x and y, are x, x, y |
| Splitter.ScanWordSpace | script.js:26 | a word run followed by a space and more lowercase text is matched whole and the space is dropped |
| JsText.ToLower | script.js:26 | lowercasing keeps the length and the whitespace and word-character classes, lowers A-Z and leaves every other character alone |
| JsText.IntToString | script.js:67 | the text of an id is non-empty, has no whitespace or uppercase, starts with a minus sign exactly for a negative id and is otherwise decimal digits with no leading zero, and exactly `0` for id 0; with `JsText.IntToStringRoundTrip` this fixes the text uniquely |
| JsText.IsSpace | script.js:26 | `\s`: the ECMAScript whitespace and line-terminator code points (also what `trim` strips at line 80) |
| JsText.IsWordChar | script.js:26 | `\w` without the `u` flag: ASCII letters, digits and underscore |
| JsText.IntToStringRoundTrip | script.js:67 | the text of an id in the placeholder is a minus sign for negatives and then decimal digits, and it reads back as the same integer |
| JsText.DecimalRoundTrip | script.js:67 | the decimal digits of a non-negative id read back as that id |
| JsText.Normalize | script.js:80 | collapsing whitespace runs and trimming leaves no whitespace at either end and no whitespace except single spaces, and drops no other character |
| JsText.NormalizeRun | script.js:80 | a whitespace run between two other characters becomes exactly one space, not nothing |
| JsText.NormalizeIdentity | script.js:80 | text that is already single-spaced and trimmed is returned unchanged |
| JsText.NormalizeIdempotent | script.js:80 | normalising twice is normalising once |
| JsText.CollapseSpaces | script.js:80 | the result is single-spaced, keeps every character other than whitespace in order, is empty only for empty input and starts with whitespace exactly when the input does; that each run becomes exactly one space is `JsText.CollapseAppend` with its two companion lemmas |
| JsText.CollapseWhitespaceRun | script.js:80 | a non-empty run of whitespace alone becomes exactly one space |
| JsText.CollapseNonSpaceChar | script.js:80 | a single character that is not whitespace is kept as it is |
| JsText.CollapseAppend | script.js:80 | the collapse of text cut anywhere except inside a whitespace run is the collapse of the two pieces laid end to end; with the two rows above this fixes the result on every input |
| JsText.TrimStartAppend | script.js:80 | the front trim of a concatenation stops inside the first piece unless that piece is all whitespace |
| JsText.CollapseIdentity | script.js:80 | collapsing leaves single-spaced text unchanged |
| JsText.TrimStart | script.js:80 | the front of `trim` drops exactly a prefix of whitespace and stops at the first character that is not whitespace |
| JsText.TrimEnd | script.js:80 | the back of `trim` drops exactly a suffix of whitespace and stops at the last character that is not whitespace |
| JsText.TrimStartKeeps | script.js:80 | trimming the front drops no character other than whitespace |
| JsText.TrimEndKeeps | script.js:80 | trimming the back drops no character other than whitespace |
| JsText.TrimKeepsSingleSpaced | script.js:80 | trimming single-spaced text keeps it single-spaced |
| Reassembly.HasWordChar | script.js:73-74 | `token.match(/\w/)` succeeds: some character of the token is a word character |
| Reassembly.Separator | script.js:73-74 | one space between two tokens exactly when both contain a word character, nothing otherwise |
| Reassembly.Glue | script.js:69-79 | the tokens in order, each preceded by the separator the decode rule puts after its predecessor |
| Reassembly.GlueSnoc | script.js:69-79 | appending a token to the joined text adds one space first exactly when it and the previous token both contain a word character |
| Reassembly.GluePrefixStep | script.js:70-79 | one iteration of the decode loop at position i extends the join of the first i tokens to the join of the first i+1 |
| Reassembly.Join | script.js:69-79 | the decode loop leaves exactly the tokens joined by the spacing rule |
| Reassembly.GlueKeepsContent | script.js:69-79 | joining adds nothing but spaces: the tokens' own characters survive in order |
| Reassembly.GlueOfUnitsIsNormal | script.js:69-80 | units joined by the decode rule are already trimmed and single-spaced, so the final normalisation does not change them |
| Reassembly.JoinIsNormal | script.js:69-80 | a unit, then at most one space, then normal text starting with a non-space character is still normal and has no uppercase |
| Reassembly.WordRunHasWordChar | script.js:73-74 | a unit contains a word character exactly when it is a word run, so the spacing test separates word runs only |
| Reassembly.ScanJoinStep | script.js:70-79 | a unit, the separator the decode rule puts after it, then the join of the rest splits into that unit followed by the splitting of the rest |
| Reassembly.ScanGlue | script.js:70-79 | splitting units joined by the decode rule gives back exactly those units |
| Reassembly.GlueUnitsKeepsContent | script.js:49-79 | the units of a text joined by the decode rule hold the lowercased text's non-whitespace characters |
| Vocabulary.SpecialTokensAreNotUnits | script.js:35 | no special token can be a unit, so the already-a-key branch never skips a unit of a corpus |
| Vocabulary.CountUnits | script.js:27-30 | each distinct unit is counted by its number of occurrences, and the keys are the distinct units, each once |
| Vocabulary.SortByCount | script.js:31-33 | the sorted keys are a permutation of the keys, and their counts never increase from left to right |
| Vocabulary.InsertionPoint | script.js:31-33 | the position found for a key follows every key counted at least as often and precedes every key counted less |
| Vocabulary.InsertKeepsSorted | script.js:31-33 | inserting a key at that position keeps the counts non-increasing |
| Vocabulary.AddToken | script.js:36-38 | the vocabulary after one assignment: the token maps to the next id, the next id maps to the token, and the next id advances by one |
| Vocabulary.AddTokenKeepsTrained | script.js:34-40 | giving a new unit the next id and advancing the next id keeps the maps inverse, the ids dense and ids 0-3 special |
| Vocabulary.AddTokenStep | script.js:34-40 | each sorted key is new to the assignment loop, and the count of non-special keys grows by one exactly when it is not special |
| Vocabulary.SortedKeysAreUnits | script.js:26-33 | the sorted keys are the distinct units of the corpus, each once, none of them a special token |
| Vocabulary.RankUnits | script.js:27-33 | the keys come out counted by their number of occurrences, sorted by non-increasing count, each once, exactly the distinct units, and none special when the units are units of a corpus |
| Vocabulary.AssignStep | script.js:34-40 | one pass of the assignment loop keeps the maps inverse and dense, the keys equal to the specials and the keys seen so far, the next id equal to 4 plus their number, and the ids in the order of the keys |
| Vocabulary.OrderStep | script.js:34-40 | giving a new key the next id keeps the ids of the keys seen so far in their order |
| Vocabulary.AssignmentComplete | script.js:24-41 | after the assignment loop the vocabulary is trained on exactly the specials and the units, with a more frequent unit holding a smaller id |
| Vocabulary.AssignmentFollowsFrequency | script.js:31-40 | ids handed out in order along keys sorted by descending count give a unit counted strictly more often a smaller id |
| Vocabulary.FrequencyExample | script.js:27-38 | trained on "x x y", the more frequent word x gets the smaller id |
| Vocabulary.PermutationKeepsDistinct | script.js:31-33 | sorting distinct keys keeps them distinct |
| Vocabulary.DistinctAtMostOnce | script.js:27-31 | a key of the counting object occurs at most once among the keys |
| Vocabulary.EncodeText | script.js:49-54 | one id per unit: the unit's id when it is a key, otherwise the id of `<unk>` |
| Vocabulary.EncodeIdsAreAssigned | script.js:49-54 | on a trained vocabulary every encoded id has a token to decode to |
| Vocabulary.Placeholder | script.js:67 | `[UNKNOWN ID:` followed by the text of the id and `]` |
| Vocabulary.Render | script.js:64-68 | one token per id: the id's token, or the placeholder naming the id |
| Vocabulary.DecodeText | script.js:64-80 | the decoded text has no whitespace at either end and no run of two whitespace characters |
| Vocabulary.DecodeKeepsContent | script.js:64-80 | decoding only adds or drops whitespace: every other character of the rendered tokens survives, in order |
| Vocabulary.PlaceholderIsNormal | script.js:67 | the placeholder of any id is trimmed and single-spaced (its one space is inside `UNKNOWN ID`), so normalisation leaves it unchanged |
| Vocabulary.DecodeUnknownId | script.js:64-80 | an id without a token decodes to exactly `[UNKNOWN ID:<id>]` |
| Vocabulary.UnknownIdExample | script.js:64-80 | the unassigned id 42 decodes to `[UNKNOWN ID:42]` |
| Vocabulary.LearnedIdsDecodeToUnits | script.js:26-80 | the decoded text of learned ids on a trained vocabulary splits back into exactly their tokens |
| Vocabulary.EncodeRendered | script.js:49-68 | a text whose units are the tokens of assigned ids encodes to exactly those ids |
| Vocabulary.RoundTrip | script.js:49-80 | on a trained vocabulary, encoding the decoding of learned ids (all at least 4) gives the same ids back |
| Vocabulary.RenderEncode | script.js:49-68 | when every unit of a text is known, the tokens of its ids are its units |
| Vocabulary.DecodeEncode | script.js:49-80 | when every unit of a text is known, decoding its encoding gives its units joined by the decode rule |
| Tokenization.Tokenizer.constructor | script.js:2-12 | a new tokenizer has empty maps and next id 0 |
| Tokenization.Tokenizer.InitSpecialTokens | script.js:14-22 | both maps are reset to exactly the four special tokens with ids 0 to 3, and the next id is 4 |
| Tokenization.Tokenizer.Train | script.js:24-41 | the old vocabulary is discarded; the keys are the special tokens and the corpus's units; the maps are inverse with dense ids and the special ids fixed; the next id is 4 plus the number of distinct non-special units; a more frequent unit has a smaller id; the maps are non-empty |
| Tokenization.Tokenizer.AssignIds | script.js:34-40 | the assignment loop carries the vocabulary built from no sorted key to one built from all of them |
| Tokenization.Tokenizer.AssignNext | script.js:35-39 | one pass over key i, which gets the next id in both maps unless it already has one, extends the vocabulary built from the first i sorted keys to the first i+1 |
| Tokenization.Tokenizer.Encode | script.js:43-56 | fails with the untrained message exactly when the token map is empty, and otherwise returns the ids of the text's units |
| Tokenization.Tokenizer.Decode | script.js:58-81 | fails with the untrained message exactly when the id map is empty; otherwise the joining loop and the normalisation compute the decoded text, trimmed and single-spaced |

## Left out

- The user-interface code after the class (`script.js:84-289`): element lookups, tabs, status messages, vocabulary rendering and button state.
- `setTimeout` scheduling and the global `isTrained` flag: they only sequence the user interface.
- Parsing comma-separated ids with `parseInt`, including the `NaN` ids it can produce: `Decode` takes a sequence of integers.
- Vocabulary.SortByCount: does not fix the order of keys with equal counts. The source's tie order depends on the enumeration order of object keys (integer-like keys first, in numeric order) and on the sort's stability; the contract states only the permutation and the descending counts, so `Train` promises only the strict frequency order.
- Vocabulary.CountUnits: lists the keys in order of first occurrence; the source's `Object.keys` lists integer-like keys first. Only the tie order of `Train` depends on this.
- Plain-object quirks: the maps are true maps, so keys such as `constructor` or `__proto__` behave like any other string.
- Full Unicode: `toLowerCase` lowers only `A`-`Z`, `\w` is ASCII, and strings are sequences of characters rather than UTF-16 code units, so a surrogate pair is not split by `[^\s\w]`.
- JsText.IntToString: gives the exact decimal digits of an unbounded integer. A JavaScript id above 2^53 is not an exact number, and `${id}` prints the shortest digits that read back as that number (`${2**60}` is `1152921504606847000`, not `1152921504606846976`); from 10^21 on it uses exponent notation. Placeholders for such ids differ from the model.
- The JavaScript sort algorithm itself: `SortByCount` is a stable insertion sort proved against the sort's contract.
- Exceptions: the `Error` thrown before training is a `Failure` result carrying the same message.
