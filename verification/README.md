# Phonewords engine, modelled in Dafny

This project models the core of the phonewords application. The application turns a phone number into "phonewords": the number with runs of its digits replaced by dictionary words that a telephone keypad encodes to those digits, each word set off by dashes. The model covers:

- **Encoder** (`PhoneWordEncoder`). It lower-cases a word and folds the keypad table over it, `result = 10 * result + key`, in 32-bit Java `int` arithmetic. A character outside `a..z` raises `UnknownCharacterException`, modelled as an error result.
- **Dictionaries.** There are two:
  - the current one, `phoneword/components/DefaultPhoneWordDictionary`;
  - the superseded one, `services/DefaultPhoneWordDictionary`.

  Both are classes. Each holds a map from encoded numbers to the upper-cased words with that code, plus the length of the shortest word. `addNewWord` updates both in place.
- **Finding phonewords.** Looking up a number has four steps:
  1. Search for every slice of the number, of length at least the shortest word, that is a key. Each such slice is a *run* (`SubString`).
  2. Build the candidate groups of runs with the windowed loops.
  3. Filter out groups with overlapping members (`Pattern.isValid`), then remove duplicates in place.
  4. Expand each group into rows: copies of the number with bucket words spliced over the runs. Rows with two adjacent digits are rejected (`PhonewordSyntaxChecker`). The rest are dash-formatted inline.
- **Standalone formatter** (`DefaultPhonewordFormatter`). It sorts the boundaries descending, walks them with an alternating right/left flag, and replaces `--` by `-`.
- **Value types.** `SubString`: conflict, equality and hash. `Pattern`: `add`, `addAll`, `isValid`, `equals` and `hashCode`.
- **`StringUtils.removeSpacesAndPunctuations`.**
- **The command-line argument parser.**

Methods with loops are imperative Dafny proved against specification functions, for example `Expand`, `RemoveDuplicates`, `FindAll`, `Format` and `ExtractParameter`. The dictionaries and `Pattern` are classes whose methods state their new state. Properties are proved about the specification functions.

Where the code's own comments or its tests state an intent that the code does not carry out, the model follows the code:

- **The expansion is not a full cartesian product.** The comments "Construct all possible words" and "calculate the number of possible words" (src/main/java/bgl/challenge/phoneword/components/DefaultPhoneWordDictionary.java:141-151) promise every combination. But row `i` takes word `i mod W` of every member's bucket of `W` words. So two members over the same two-word bucket give the rows AA, BB, AA, BB, and "AB" never appears (`Expansion.RowsRepeat`).
- **The inline formatter differs from the standalone one.** The formatting inside both dictionaries skips the first and last index of the word whichever side the flag points to. For the word "A3" with a one-letter member at 0 it gives "A3", while the standalone formatter gives "A-3" (`InlineFormat.FormattersDisagree`). The dictionary tests at src/test/java/bgl/challenge/phoneword/components/DefaultPhoneWordDictionaryTest.java:39-52 and 316-335 expect "A-3"; the model gives "A3" (`PhonewordExamples.PatternWordsOfA3`).
- **The current dictionary's duplicate test is ordered.** The comments at src/main/java/bgl/challenge/phoneword/components/DefaultPhoneWordDictionary.java:300-303 and src/main/java/bgl/challenge/phoneword/models/Pattern.java:99-102 call two patterns duplicates when they have the same runs in any order. But `Pattern.equals` compares the member lists in order. Only the superseded dictionary drops a reordered group (`Grouping.DuplicateTestsDiffer`).
- **The windowed grouping does not form every non-overlapping combination.** The comment at src/main/java/bgl/challenge/phoneword/components/DefaultPhoneWordDictionary.java:229-234 says the method lists all valid groups. Over four runs, the first, second and fourth are never grouped together (`Grouping.GapNotGrouped`).

The documented lookups of the dictionary tests are worked out in `DictionaryExamples` and `PhonewordExamples`. The tests call `findAllValidPatterns` on a number and `constructPhonewordsPerPattern`. The source names these `findAllValidPatterns` over the found runs and `constructPossibleWordsPerPattern`, so the examples state them as `ValidPatterns(AllRuns(...))` and `PatternWords`. The STAR/WARS, KIT/KITTY and per-pattern examples start from the filled buckets rather than from `addNewWord` calls. The three `findPhonewords` examples start from `addNewWord` on a new dictionary.

## Model

| member | source | states |
|---|---|---|
| JavaLang.Wrap32 | src/main/java/bgl/challenge/phoneword/components/PhoneWordEncoder.java:25 | Java `int` arithmetic: the result is a 32-bit value, equal to the exact value when that fits, and differs from it by a multiple of 2^32 |
| JavaLang.ToLowerCaseAt | src/main/java/bgl/challenge/phoneword/components/PhoneWordEncoder.java:18 | `toLowerCase` maps every character on its own and keeps the length |
| JavaLang.ToUpperCaseAt | src/main/java/bgl/challenge/phoneword/components/DefaultPhoneWordDictionary.java:78 | `toUpperCase` maps every character on its own and keeps the length |
| JavaLang.NatToDecimal | src/main/java/bgl/challenge/phoneword/components/DefaultPhoneWordDictionary.java:79 | the text `n + ""` of a natural number is a non-empty string of digits |
| JavaLang.DecimalValueBounds | src/main/java/bgl/challenge/phoneword/components/DefaultPhoneWordDictionary.java:79 | a digit text without leading zero denotes a number with exactly that many digits |
| JavaLang.DecimalRoundTrip | src/main/java/bgl/challenge/phoneword/components/DefaultPhoneWordDictionary.java:79 | printing the value of a digit text without leading zero gives the text back |
| JavaLang.StringHash | src/main/java/bgl/challenge/phoneword/models/SubString.java:92 | `String.hashCode` is a 32-bit value |
| JavaLang.CollapseKeepsNonDashes | src/main/java/bgl/challenge/phoneword/components/DefaultPhonewordFormatter.java:62 | `replace("--", "-")` only deletes dashes: every other character survives, in order |
| JavaLang.CollapseIdentity | src/main/java/bgl/challenge/phoneword/components/DefaultPhonewordFormatter.java:62 | text without "--" is left unchanged by the replace |
| SubStrings.ConflictIffSharedPosition | src/main/java/bgl/challenge/phoneword/models/SubString.java:41-53 | two non-empty runs conflict exactly when they share a position of the number |
| SubStrings.ConflictSymmetric | src/main/java/bgl/challenge/phoneword/models/SubString.java:41-53 | `conflictWith` is symmetric |
| SubStrings.SelfConflict | src/main/java/bgl/challenge/phoneword/models/SubString.java:41-53 | a non-empty run conflicts with itself, which is why `isValid` skips equal pairs |
| SubStrings.ConflictExamples | src/test/java/bgl/challenge/phoneword/models/SubStringTest.java:15-74 | adjacent runs do not conflict; nested and touching runs do |
| SubStrings.Equals | src/main/java/bgl/challenge/phoneword/models/SubString.java:99-122 | the field-by-field `equals` holds exactly for structurally equal runs |
| SubStrings.HashCode | src/main/java/bgl/challenge/phoneword/models/SubString.java:88-96 | the 31-based field hash is a 32-bit value |
| SubStrings.HashAgreesWithEquals | src/main/java/bgl/challenge/phoneword/models/SubString.java:88-122 | equal runs have equal hash codes |
| Patterns.ConflictsWithOthersIff | src/main/java/bgl/challenge/phoneword/models/Pattern.java:80-88 | the inner or-reduction is true exactly when the run conflicts with some different member |
| Patterns.AnyConflictIff | src/main/java/bgl/challenge/phoneword/models/Pattern.java:79-92 | the outer or-reduction is true exactly when some pair of different members conflicts |
| Patterns.IsValidIff | src/main/java/bgl/challenge/phoneword/models/Pattern.java:78-97 | `isValid` holds exactly when no two different members overlap |
| Patterns.NoConflictsSubset | src/main/java/bgl/challenge/phoneword/models/Pattern.java:78-97 | dropping members keeps a valid pattern valid |
| Patterns.IsValidExample | src/test/java/bgl/challenge/phoneword/models/PatternTest.java:13-29 | runs (0,2) and (1,3) make a pattern invalid |
| Patterns.ListHash | src/main/java/bgl/challenge/phoneword/models/Pattern.java:74 | `List.hashCode` is a 32-bit value |
| Patterns.Pattern.Empty | src/main/java/bgl/challenge/phoneword/models/Pattern.java:35-37 | the no-argument constructor leaves the number and the list null |
| Patterns.Pattern.constructor | src/main/java/bgl/challenge/phoneword/models/Pattern.java:39-42 | the two-argument constructor stores both arguments |
| Patterns.Pattern.Add | src/main/java/bgl/challenge/phoneword/models/Pattern.java:48-53 | the run is appended to the list, which a null list starts as empty; the number is untouched |
| Patterns.Pattern.AddAll | src/main/java/bgl/challenge/phoneword/models/Pattern.java:55-60 | the other pattern's members are appended in order (to themselves when `other` is this pattern); the other pattern is unchanged |
| Patterns.Pattern.Valid | src/main/java/bgl/challenge/phoneword/models/Pattern.java:78-97 | the pattern's `isValid` holds exactly when no two different members overlap |
| Patterns.Pattern.HashCode | src/main/java/bgl/challenge/phoneword/models/Pattern.java:71-76 | the hash is a 32-bit value, and 31 for a null list |
| Patterns.Pattern.EqualsIff | src/main/java/bgl/challenge/phoneword/models/Pattern.java:104-126 | `equals` throws only for two distinct patterns with null lists, and otherwise holds exactly for the same object or equal ordered lists: the size and `containsAll` checks never change the answer |
| Patterns.Pattern.HashAgreesWithEquals | src/main/java/bgl/challenge/phoneword/models/Pattern.java:71-126 | patterns that are `equals` have equal hash codes |
| PhoneWordEncoder.KeypadTable | src/main/java/bgl/challenge/phoneword/components/PhoneWordEncoder.java:35-70 | the table has an entry exactly for `a..z`, and every entry is a key 2..9 |
| PhoneWordEncoder.Encode | src/main/java/bgl/challenge/phoneword/components/PhoneWordEncoder.java:17-33 | the loop returns the encoding of the word, a 32-bit value, or the error for the first character the table lacks |
| PhoneWordEncoder.PrefixGrows | src/main/java/bgl/challenge/phoneword/components/PhoneWordEncoder.java:20-25 | one more character with a key turns the value of the prefix into `10 * value + key`, wrapped |
| PhoneWordEncoder.PrefixFails | src/main/java/bgl/challenge/phoneword/components/PhoneWordEncoder.java:23-30 | the first character the table lacks makes the whole word fail with that character |
| PhoneWordEncoder.FailureSticks | src/main/java/bgl/challenge/phoneword/components/PhoneWordEncoder.java:26-30 | once a prefix fails, the whole word fails with the same error |
| PhoneWordEncoder.AccumulateFailsIff | src/main/java/bgl/challenge/phoneword/components/PhoneWordEncoder.java:20-30 | the fold fails exactly when some character is not in `a..z` |
| PhoneWordEncoder.EncodingFailsIff | src/main/java/bgl/challenge/phoneword/components/PhoneWordEncoder.java:17-33 | `encode` throws exactly when the word holds a character that is not an ASCII letter |
| PhoneWordEncoder.LowerIdempotent | src/main/java/bgl/challenge/phoneword/components/PhoneWordEncoder.java:18 | lower-casing twice is lower-casing once |
| PhoneWordEncoder.EncodingCaseInsensitive | src/main/java/bgl/challenge/phoneword/components/PhoneWordEncoder.java:18 | a word, its lower-case form and its upper-case form encode alike |
| PhoneWordEncoder.LowerOfUpper | src/main/java/bgl/challenge/phoneword/components/DefaultPhoneWordDictionary.java:78-79 | lower-casing the upper-cased word is lower-casing the word |
| PhoneWordEncoder.EmptyEncodesToZero | src/main/java/bgl/challenge/phoneword/components/PhoneWordEncoder.java:19-32 | the empty word encodes to 0 |
| PhoneWordEncoder.KeypadDigits | src/main/java/bgl/challenge/phoneword/components/PhoneWordEncoder.java:35-70 | the keypad text of a word has one digit 2..9 per letter |
| PhoneWordEncoder.LowerKeypad | src/main/java/bgl/challenge/phoneword/components/PhoneWordEncoder.java:35-70 | a lower-case letter has a key 2..9 and its digit character reads back as that key |
| PhoneWordEncoder.AccumulateIsDecimal | src/main/java/bgl/challenge/phoneword/components/PhoneWordEncoder.java:19-32 | for up to nine lower-case letters the fold does not wrap and yields the value of the keypad text |
| PhoneWordEncoder.EncodingIsDecimal | src/main/java/bgl/challenge/phoneword/components/PhoneWordEncoder.java:17-33 | the code of a word of up to nine letters is the value of its keypad text |
| PhoneWordEncoder.ShortWordEncoding | src/main/java/bgl/challenge/phoneword/components/DefaultPhoneWordDictionary.java:79 | the key `encode(word) + ""` of a word of one to nine letters is its keypad text, one digit per letter |
| PhoneWordEncoder.KeypadDigitsRoundTrip | src/main/java/bgl/challenge/phoneword/components/DefaultPhoneWordDictionary.java:79 | the keypad text has no leading zero, so printing its value gives it back |
| PhoneWordEncoder.EncodingExamples | src/test/java/bgl/challenge/phoneword/services/PhoneWordEncoderTest.java:18-40 | KITTY encodes to 54889 and Hello to 43556 |
| Lexicon.AddWordRefusedIff | src/main/java/bgl/challenge/phoneword/components/DefaultPhoneWordDictionary.java:66-103 | a word is refused exactly when it is null, empty or holds a character that is not an ASCII letter |
| Lexicon.AddWordEffect | src/main/java/bgl/challenge/phoneword/components/DefaultPhoneWordDictionary.java:76-95 | an accepted word is upper-cased and appended at the end of its code's bucket, created if missing; no other bucket changes; the shortest length is set by the first word and can only be lowered by later ones |
| Lexicon.EmptyWellFormed | src/main/java/bgl/challenge/phoneword/components/DefaultPhoneWordDictionary.java:41-47 | a new dictionary satisfies the invariant: no buckets and shortest length 0 |
| Lexicon.UpperWordStored | src/main/java/bgl/challenge/phoneword/components/DefaultPhoneWordDictionary.java:78-87 | the upper-cased form of an all-letter word is filed under the word's own code |
| Lexicon.AddWordKeepsWellFormed | src/main/java/bgl/challenge/phoneword/components/DefaultPhoneWordDictionary.java:66-103 | adding a word keeps the invariant: buckets are non-empty, every word is filed under its own code, and the shortest length is the minimum word length |
| Lexicon.AppendKeepsStored | src/main/java/bgl/challenge/phoneword/components/DefaultPhoneWordDictionary.java:80-87 | appending to a bucket keeps every bucket non-empty and every word under its own code |
| Lexicon.AppendKeepsShortest | src/main/java/bgl/challenge/phoneword/components/DefaultPhoneWordDictionary.java:89-95 | the shortest-length update yields the minimum word length of the new buckets |
| Lexicon.AppendKeepsLowerBound | src/main/java/bgl/challenge/phoneword/components/DefaultPhoneWordDictionary.java:89-95 | a lower bound on word lengths survives appending a word no shorter than it |
| Lexicon.ShortStoredWordFitsKey | src/main/java/bgl/challenge/phoneword/components/DefaultPhoneWordDictionary.java:79 | a stored word of at most nine letters is as long as its key, whose digits are 2..9 |
| StringUtils.RemoveSpacesAndPunctuations | src/main/java/bgl/challenge/phoneword/utils/StringUtils.java:6-9 | the result holds only letters and digits and is no longer than the input |
| StringUtils.RemoveDistributes | src/main/java/bgl/challenge/phoneword/utils/StringUtils.java:7 | the filter works character by character: it distributes over concatenation |
| StringUtils.RemoveLength | src/main/java/bgl/challenge/phoneword/utils/StringUtils.java:7 | the result is exactly as long as the number of letters and digits in the input |
| StringUtils.RemoveKeepsAlphanumeric | src/main/java/bgl/challenge/phoneword/utils/StringUtils.java:6-9 | text made only of letters and digits comes back unchanged |
| StringUtils.RemoveIdempotent | src/main/java/bgl/challenge/phoneword/utils/StringUtils.java:6-9 | stripping twice is stripping once |
| StringUtils.RemoveAround | src/main/java/bgl/challenge/phoneword/utils/StringUtils.java:7 | a separator that is neither letter nor digit vanishes between its neighbours |
| StringUtils.RemoveSeparatedBlocks | src/test/java/bgl/challenge/phoneword/utils/StringUtilsTest.java:36-45 | blocks of digits separated by a comma, a space and a period are joined, as in "111,222 333.444" |
| PhonewordSyntaxChecker.ScanFindsAdjacentDigits | src/main/java/bgl/challenge/phoneword/services/PhonewordSyntaxChecker.java:15-18 | the scan finds two adjacent digits exactly when they exist |
| PhonewordSyntaxChecker.ConsecutiveDigitsIff | src/main/java/bgl/challenge/phoneword/services/PhonewordSyntaxChecker.java:6-18 | on text without line terminators, `.*\d\d.*` matches exactly when two digits are adjacent, and `isValid` holds exactly when no two are |
| PhonewordSyntaxChecker.FewDigitsValid | src/main/java/bgl/challenge/phoneword/services/PhonewordSyntaxChecker.java:6-18 | text with fewer than two digits is valid |
| PhonewordSyntaxChecker.InvalidInfix | src/main/java/bgl/challenge/phoneword/services/PhonewordSyntaxChecker.java:15-18 | text containing a rejected part is rejected |
| PhonewordSyntaxChecker.LineTerminatorPasses | src/main/java/bgl/challenge/phoneword/services/PhonewordSyntaxChecker.java:16 | a line terminator anywhere makes the whole-string match fail, so the text passes |
| PhonewordSyntaxChecker.ValidExample | src/test/java/bgl/challenge/phoneword/services/PhonewordSyntaxCheckerTest.java:21-30 | "KITTY-1" passes |
| PhonewordSyntaxChecker.InvalidExample | src/test/java/bgl/challenge/phoneword/services/PhonewordSyntaxCheckerTest.java:34-69 | "KITTY-12" and "KITTY-11" contain consecutive digits and are rejected |
| SubStringSearch.RunAt | src/main/java/bgl/challenge/phoneword/components/DefaultPhoneWordDictionary.java:357-373 | the run built at start `i` for length `len` records the number, the start and a value of that length |
| SubStringSearch.FindOfLength | src/main/java/bgl/challenge/phoneword/components/DefaultPhoneWordDictionary.java:354-379 | the loop returns the key runs of one length, by increasing start |
| SubStringSearch.OfLengthBelowKeyRuns | src/main/java/bgl/challenge/phoneword/components/DefaultPhoneWordDictionary.java:356-375 | every run found for one length is a slice of the number that is a key |
| SubStringSearch.OfLengthBelowLengths | src/main/java/bgl/challenge/phoneword/components/DefaultPhoneWordDictionary.java:356-375 | every run found for one length has that length |
| SubStringSearch.OfLengthBelowOrder | src/main/java/bgl/challenge/phoneword/components/DefaultPhoneWordDictionary.java:356-375 | the runs of one length come by strictly increasing start |
| SubStringSearch.OfLengthBelowComplete | src/main/java/bgl/challenge/phoneword/components/DefaultPhoneWordDictionary.java:356-375 | every key slice of that length is found |
| SubStringSearch.FindAll | src/main/java/bgl/challenge/phoneword/components/DefaultPhoneWordDictionary.java:326-342 | the loop returns nothing for a number shorter than the shortest word, else the runs of every length from the shortest up |
| SubStringSearch.AllBelowKeyRuns | src/main/java/bgl/challenge/phoneword/components/DefaultPhoneWordDictionary.java:336-339 | every run collected over several lengths is a key slice of the number |
| SubStringSearch.AllBelowLengths | src/main/java/bgl/challenge/phoneword/components/DefaultPhoneWordDictionary.java:336-339 | the collected runs have lengths in the range walked |
| SubStringSearch.AllBelowOrder | src/main/java/bgl/challenge/phoneword/components/DefaultPhoneWordDictionary.java:336-339 | the collected runs come shorter first, then by start |
| SubStringSearch.AllRunsSound | src/main/java/bgl/challenge/phoneword/components/DefaultPhoneWordDictionary.java:326-379 | every run found is a key slice at least as long as the shortest word; runs come shorter first, then by start; a short number has none |
| SubStringSearch.AllRunsDistinct | src/main/java/bgl/challenge/phoneword/components/DefaultPhoneWordDictionary.java:326-379 | no run is found twice |
| SubStringSearch.AllBelowComplete | src/main/java/bgl/challenge/phoneword/components/DefaultPhoneWordDictionary.java:336-339 | every key slice with a length in the range walked is collected |
| SubStringSearch.AllRunsComplete | src/main/java/bgl/challenge/phoneword/components/DefaultPhoneWordDictionary.java:326-379 | every key slice at least as long as the shortest word is found |
| Grouping.FillStaysFull | src/main/java/bgl/challenge/phoneword/components/DefaultPhoneWordDictionary.java:261-265 | once a group is full, the remaining rounds of the innermost loop leave it alone |
| Grouping.GroupAt | src/main/java/bgl/challenge/phoneword/components/DefaultPhoneWordDictionary.java:259-269 | the innermost loop builds the anchor plus the runs from `j` on, skipping copies of the anchor, stopping at `n` members |
| Grouping.AddGroupsOfAnchor | src/main/java/bgl/challenge/phoneword/components/DefaultPhoneWordDictionary.java:258-275 | the window loop appends the full groups of one anchor, by window start |
| Grouping.AddGroupsOfSize | src/main/java/bgl/challenge/phoneword/components/DefaultPhoneWordDictionary.java:256-276 | the anchor loop appends the full groups of one size, by anchor |
| Grouping.BuildCandidates | src/main/java/bgl/challenge/phoneword/components/DefaultPhoneWordDictionary.java:241-277 | the loops produce the singletons, then the full groups of every size from 2 up, in that order |
| Grouping.AddSingletons | src/main/java/bgl/challenge/phoneword/components/DefaultPhoneWordDictionary.java:246-249 | the first loop adds one one-member group per run, in run order |
| Grouping.FillDistinct | src/main/java/bgl/challenge/phoneword/components/DefaultPhoneWordDictionary.java:259-269 | over distinct runs the innermost loop collects a contiguous window after the anchor |
| Grouping.GroupDistinct | src/main/java/bgl/challenge/phoneword/components/DefaultPhoneWordDictionary.java:259-273 | over distinct runs a group is the anchor plus a window, full exactly when the window fits |
| Grouping.CandidateShape | src/main/java/bgl/challenge/phoneword/components/DefaultPhoneWordDictionary.java:246-277 | over distinct runs every candidate is one run, or an anchor followed by a window of consecutive later runs |
| Grouping.CandidateMembers | src/main/java/bgl/challenge/phoneword/components/DefaultPhoneWordDictionary.java:246-277 | over distinct runs every candidate lists distinct runs of the input |
| Grouping.WindowGroupIsCandidate | src/main/java/bgl/challenge/phoneword/components/DefaultPhoneWordDictionary.java:254-277 | over distinct runs every anchor-plus-window group that fits is a candidate |
| Grouping.GapNotGrouped | src/main/java/bgl/challenge/phoneword/components/DefaultPhoneWordDictionary.java:254-277 | the windowed loops never group the first, second and fourth of four runs: not every combination is formed |
| Grouping.ValidOnlyIff | src/main/java/bgl/challenge/phoneword/components/DefaultPhoneWordDictionary.java:282-298 | exactly the groups with no two different overlapping members survive the filter |
| Grouping.ValidOnlyAppend | src/main/java/bgl/challenge/phoneword/components/DefaultPhoneWordDictionary.java:282-298 | the filter keeps order: filtering a concatenation concatenates the filtered parts |
| Grouping.ValidOnlySingletons | src/main/java/bgl/challenge/phoneword/components/DefaultPhoneWordDictionary.java:246-298 | every singleton passes the filter |
| Grouping.RemoveRelatedMembers | src/main/java/bgl/challenge/phoneword/components/DefaultPhoneWordDictionary.java:306-313 | the inner removal keeps exactly the later entries that are not duplicates of the current one |
| Grouping.RemoveRelatedNone | src/main/java/bgl/challenge/phoneword/components/DefaultPhoneWordDictionary.java:306-313 | with no duplicate of the current entry, the inner removal changes nothing |
| Grouping.DedupSubset | src/main/java/bgl/challenge/phoneword/components/DefaultPhoneWordDictionary.java:304-314 | de-duplication only removes entries |
| Grouping.DedupNoRelatedPair | src/main/java/bgl/challenge/phoneword/components/DefaultPhoneWordDictionary.java:304-314 | after de-duplication no entry is a duplicate of a later one |
| Grouping.DedupKeepsPrefix | src/main/java/bgl/challenge/phoneword/components/DefaultPhoneWordDictionary.java:304-314 | a leading run of pairwise non-duplicate entries survives unchanged at the front |
| Grouping.DedupEqualityKeepsAll | src/main/java/bgl/challenge/phoneword/components/DefaultPhoneWordDictionary.java:304-314 | when the duplicate test is equality, every input entry is still present |
| Grouping.DedupCovers | src/main/java/bgl/challenge/phoneword/components/DefaultPhoneWordDictionary.java:304-314 | every input entry is kept, or a kept entry is a duplicate of it: only duplicates are dropped |
| Grouping.RemoveLaterRelated | src/main/java/bgl/challenge/phoneword/components/DefaultPhoneWordDictionary.java:306-313 | the inner loop, with its `remove(j); j--`, removes every later duplicate of entry `i` and nothing else |
| Grouping.RemoveDuplicates | src/main/java/bgl/challenge/phoneword/components/DefaultPhoneWordDictionary.java:304-314 | the in-place removal yields the de-duplication of the list, for any duplicate test |
| Grouping.FindAllValidPatterns | src/main/java/bgl/challenge/phoneword/components/DefaultPhoneWordDictionary.java:240-317 | `findAllValidPatterns` returns the candidates, filtered, with later equal patterns removed |
| Grouping.ValidPatternsSound | src/main/java/bgl/challenge/phoneword/components/DefaultPhoneWordDictionary.java:240-317 | every pattern returned is a candidate without overlapping members, and no two are equal |
| Grouping.ValidPatternsComplete | src/main/java/bgl/challenge/phoneword/components/DefaultPhoneWordDictionary.java:240-317 | every candidate without overlapping members is returned |
| Grouping.ValidPatternsStartWithSingletons | src/main/java/bgl/challenge/phoneword/components/DefaultPhoneWordDictionary.java:246-249 | over distinct runs the result starts with one singleton per run, in run order |
| Grouping.ValidPatternMembers | src/main/java/bgl/challenge/phoneword/components/DefaultPhoneWordDictionary.java:240-317 | over distinct runs every pattern returned lists distinct, non-overlapping runs of the input |
| Grouping.DuplicateTestsDiffer | src/main/java/bgl/challenge/services/DefaultPhoneWordDictionary.java:275-287 | the ordered `Pattern.equals` keeps [b, a] after [a, b]; the legacy size-plus-`containsAll` test drops it |
| Grouping.GroupPossibleEncodedString | src/main/java/bgl/challenge/services/DefaultPhoneWordDictionary.java:219-290 | `groupPossibleEncodedString` returns the candidates, filtered, with later groups of the same size and members removed |
| Grouping.ValidGroupsSound | src/main/java/bgl/challenge/services/DefaultPhoneWordDictionary.java:219-290 | every group returned is a candidate without overlapping members; no later group has the members of an earlier one |
| Grouping.SameMembersCandidates | src/main/java/bgl/challenge/services/DefaultPhoneWordDictionary.java:274-287 | over distinct runs, two candidates with the same size and the same members are the same candidate |
| Grouping.ValidGroupsComplete | src/main/java/bgl/challenge/services/DefaultPhoneWordDictionary.java:219-290 | over distinct runs, every candidate without overlapping members is returned by the superseded engine |
| Grouping.ValidGroupsStartWithSingletons | src/main/java/bgl/challenge/services/DefaultPhoneWordDictionary.java:222-224 | over distinct runs the legacy result also starts with the singletons |
| Grouping.ValidGroupMembers | src/main/java/bgl/challenge/services/DefaultPhoneWordDictionary.java:219-290 | over distinct runs every group returned lists distinct, non-overlapping runs of the input |
| Grouping.ValidGroupsDrawnFrom | src/main/java/bgl/challenge/services/DefaultPhoneWordDictionary.java:219-290 | every group returned is made of the runs it was given, whatever they are |
| Expansion.ReplaceSubString | src/main/java/bgl/challenge/phoneword/components/DefaultPhoneWordDictionary.java:390-394 | the text before the run, the new text, then the text after the run: the length changes by the difference |
| Expansion.ReplaceAt | src/main/java/bgl/challenge/phoneword/components/DefaultPhoneWordDictionary.java:390-394 | splicing a text as long as the run keeps the length, writes the run's positions and leaves the others alone |
| Expansion.ReplaceExample | src/main/java/bgl/challenge/phoneword/components/DefaultPhoneWordDictionary.java:390-394 | "ABC" over (1,3) of "22223333" gives "2ABC3333" |
| Expansion.Row | src/main/java/bgl/challenge/phoneword/components/DefaultPhoneWordDictionary.java:168-179 | every row stays as long as the number |
| Expansion.Rows | src/main/java/bgl/challenge/phoneword/components/DefaultPhoneWordDictionary.java:152-179 | there are as many rows as the product of the bucket sizes |
| Expansion.ModBlock | src/main/java/bgl/challenge/phoneword/components/DefaultPhoneWordDictionary.java:171-172 | position `j` of block `c` is row `c * W + j`, which takes word `j = (c * W + j) mod W` |
| Expansion.CountRows | src/main/java/bgl/challenge/phoneword/components/DefaultPhoneWordDictionary.java:152-159 | the reduce computes the product of the members' bucket sizes |
| Expansion.ProductHasFactor | src/main/java/bgl/challenge/phoneword/components/DefaultPhoneWordDictionary.java:171-178 | every member's bucket size divides the row count, so the block walk ends at the last row |
| Expansion.SpliceMember | src/main/java/bgl/challenge/phoneword/components/DefaultPhoneWordDictionary.java:169-178 | one member's block walk splices word `i mod W` into row `i`, for every row |
| Expansion.Expand | src/main/java/bgl/challenge/phoneword/components/DefaultPhoneWordDictionary.java:152-179 | `Product` copies of the number, then every member spliced in order, give the specified rows |
| Expansion.RowContents | src/main/java/bgl/challenge/phoneword/components/DefaultPhoneWordDictionary.java:168-179 | with non-overlapping members, row `i` holds word `i mod W` of each member's bucket in its run and the number's own digit everywhere else |
| Expansion.RowsRepeat | src/main/java/bgl/challenge/phoneword/components/DefaultPhoneWordDictionary.java:168-179 | two members over bucket ["A", "B"] give the rows AA, BB, AA, BB: the expansion is not every combination |
| Formatter.Bounds | src/main/java/bgl/challenge/phoneword/components/DefaultPhonewordFormatter.java:18-22 | the boundary list has two entries per member |
| Formatter.BoundsAt | src/main/java/bgl/challenge/phoneword/components/DefaultPhonewordFormatter.java:19-22 | member `k` contributes its start at 2k and its end at 2k+1 |
| Formatter.BoundsIn | src/main/java/bgl/challenge/phoneword/components/DefaultPhonewordFormatter.java:18-22 | members inside the word give boundaries inside the word |
| Formatter.SortDescending | src/main/java/bgl/challenge/phoneword/components/DefaultPhonewordFormatter.java:24 | the sorted boundaries are descending and a permutation of the list |
| Formatter.DescendingUnique | src/main/java/bgl/challenge/phoneword/components/DefaultPhonewordFormatter.java:24 | there is only one descending order of a multiset, so the sort is determined |
| Formatter.SortedIn | src/main/java/bgl/challenge/phoneword/components/DefaultPhonewordFormatter.java:24 | sorting keeps the boundaries inside the word |
| Formatter.InsertDash | src/main/java/bgl/challenge/phoneword/components/DefaultPhonewordFormatter.java:42-56 | one step never shortens the word |
| Formatter.RemoveDashesOfInsert | src/main/java/bgl/challenge/phoneword/components/DefaultPhonewordFormatter.java:46-53 | inserting a dash changes nothing but dashes |
| Formatter.Walk | src/main/java/bgl/challenge/phoneword/components/DefaultPhonewordFormatter.java:38-59 | the walk never shortens the word |
| Formatter.WalkKeepsLetters | src/main/java/bgl/challenge/phoneword/components/DefaultPhonewordFormatter.java:38-59 | every step of the walk only inserts a dash |
| Formatter.Format | src/main/java/bgl/challenge/phoneword/components/DefaultPhonewordFormatter.java:13-65 | `format` returns the walk over the sorted boundaries, with "--" replaced |
| Formatter.FormatOnlyInsertsDashes | src/main/java/bgl/challenge/phoneword/components/DefaultPhonewordFormatter.java:13-65 | deleting every dash of the result gives the word's own characters back |
| Formatter.FormatEmptyPattern | src/main/java/bgl/challenge/phoneword/components/DefaultPhonewordFormatter.java:13-65 | an empty pattern leaves a word without "--" unchanged |
| DashLayout.DashedZeros | src/main/java/bgl/challenge/phoneword/components/DefaultPhonewordFormatter.java:38-59 | a word with no dash in any gap is the word itself |
| DashLayout.InsertAtGap | src/main/java/bgl/challenge/phoneword/components/DefaultPhonewordFormatter.java:46-53 | inserting a dash at a position whose gaps to the left are empty adds one dash to that gap |
| DashLayout.RemoveDashesDashed | src/main/java/bgl/challenge/phoneword/components/DefaultPhonewordFormatter.java:38-62 | deleting the dashes of a dashed word gives the word's non-dash characters |
| DashLayout.CollapseDashed | src/main/java/bgl/challenge/phoneword/components/DefaultPhonewordFormatter.java:62 | with at most two dashes per gap, the replace leaves exactly one dash in every non-empty gap |
| DashLayout.NoDoubleDashDashed | src/main/java/bgl/challenge/phoneword/components/DefaultPhonewordFormatter.java:62 | at most one dash per gap between non-dash characters gives no "--" |
| FormatLayout.InterleaveDescending | src/main/java/bgl/challenge/phoneword/components/DefaultPhonewordFormatter.java:24 | for members left to right, the ends and starts from the right are descending |
| FormatLayout.SortedBounds | src/main/java/bgl/challenge/phoneword/components/DefaultPhonewordFormatter.java:18-24 | for members left to right, the sort lists each member's end then start, from the last member back |
| FormatLayout.Gaps | src/main/java/bgl/challenge/phoneword/components/DefaultPhonewordFormatter.java:38-59 | the dashes the walk puts in gap `g`: one per member ending right before it (unless at the last index) plus one per member starting there (unless at 0) |
| FormatLayout.EndDash | src/main/java/bgl/challenge/phoneword/components/DefaultPhonewordFormatter.java:42-48 | the right-dash step at an end adds a dash after it, except at the last index |
| FormatLayout.StartDash | src/main/java/bgl/challenge/phoneword/components/DefaultPhonewordFormatter.java:49-55 | the left-dash step at a start adds a dash before it, except at 0 |
| FormatLayout.TwoSteps | src/main/java/bgl/challenge/phoneword/components/DefaultPhonewordFormatter.java:38-59 | an even step and the next one are one member's end dash and start dash |
| FormatLayout.WalkLayout | src/main/java/bgl/challenge/phoneword/components/DefaultPhonewordFormatter.java:38-59 | after the last `j` members the text is the word with exactly their dashes |
| FormatLayout.WalkAll | src/main/java/bgl/challenge/phoneword/components/DefaultPhonewordFormatter.java:38-59 | the whole walk puts the dashes of every member |
| FormatLayout.AtMostOneEach | src/main/java/bgl/challenge/phoneword/components/DefaultPhonewordFormatter.java:38-59 | for members left to right, at most one ends before a gap and at most one starts there |
| FormatLayout.GapsAtMostTwo | src/main/java/bgl/challenge/phoneword/components/DefaultPhonewordFormatter.java:61-62 | for non-overlapping members in any order, no gap gets more than two dashes, which is why one replace of "--" suffices |
| FormatLayout.WalkSorted | src/main/java/bgl/challenge/phoneword/components/DefaultPhonewordFormatter.java:18-62 | before the replace, the text is the word with the dashes of every member |
| FormatLayout.FormatLeftToRight | src/main/java/bgl/challenge/phoneword/components/DefaultPhonewordFormatter.java:13-65 | for non-overlapping members left to right, the result is the word with one dash in every boundary gap, and it has no "--" |
| FormatLayout.PermutationBounds | src/main/java/bgl/challenge/phoneword/components/DefaultPhonewordFormatter.java:18-22 | members that are a reordering of each other give boundary lists that are a reordering of each other |
| FormatLayout.GapsPermutation | src/main/java/bgl/challenge/phoneword/components/DefaultPhonewordFormatter.java:38-59 | the dashes the walk puts in each gap depend only on which members the pattern has |
| FormatLayout.FormatPermutation | src/main/java/bgl/challenge/phoneword/components/DefaultPhonewordFormatter.java:13-65 | the result depends only on which members the pattern has, not on their order |
| FormatLayout.FormatDisjoint | src/main/java/bgl/challenge/phoneword/components/DefaultPhonewordFormatter.java:13-65 | for non-overlapping members in any order, the result is the word with one dash in every gap that is a boundary, and it has no "--" |
| FormatLayout.DashAtEveryBoundary | src/main/java/bgl/challenge/phoneword/components/DefaultPhonewordFormatter.java:38-59 | for non-overlapping members in any order, every end but one at the last index has a dash right of it; every start but one at 0 has a dash left of it |
| FormatLayout.NoDashAwayFromBoundaries | src/main/java/bgl/challenge/phoneword/components/DefaultPhonewordFormatter.java:38-59 | a gap that is no member's boundary gets no dash |
| FormatLayout.TwoOneLetterWords | src/test/java/bgl/challenge/phoneword/components/DefaultPhonewordFormatterTest.java:17-33 | "AD4" with one-letter members at 0 and 1 formats to "A-D-4" |
| FormatLayout.OneLetterAtEnd | src/test/java/bgl/challenge/phoneword/components/DefaultPhonewordFormatterTest.java:55-69 | "3A" with a one-letter member at the last index formats to "3-A" |
| FormatLayout.OneLetterAtStart | src/test/java/bgl/challenge/phoneword/components/DefaultPhonewordFormatterTest.java:36-52 | "A3" with a one-letter member at 0 formats to "A-3" |
| FormatLayout.WordThenDigit | src/test/java/bgl/challenge/phoneword/components/DefaultPhonewordFormatterTest.java:72-88 | "AAA3" with a member over 0 to 2 formats to "AAA-3" |
| FormatLayout.TwoWords | src/test/java/bgl/challenge/phoneword/components/DefaultPhonewordFormatterTest.java:90-108 | "AAADDD" with members over 0 to 2 and 3 to 5 formats to "AAA-DDD" |
| FormatLayout.ThreeWords | src/test/java/bgl/challenge/phoneword/components/DefaultPhonewordFormatterTest.java:110-130 | "AAADDDEEE" with members over 0 to 2, 3 to 5 and 6 to 8 formats to "AAA-DDD-EEE" |
| InlineFormat.DropRepeats | src/main/java/bgl/challenge/phoneword/components/DefaultPhoneWordDictionary.java:186-196 | dropping repeats from a descending list gives a strictly descending list with the same entries |
| InlineFormat.TreeSetIndexes | src/main/java/bgl/challenge/phoneword/components/DefaultPhoneWordDictionary.java:186-196 | the reversed `TreeSet` iterates every boundary once, strictly descending |
| InlineFormat.StrictlyDescendingUnique | src/main/java/bgl/challenge/phoneword/components/DefaultPhoneWordDictionary.java:186-198 | a set of indices has only one strictly descending listing |
| InlineFormat.TreeSetOrderUnique | src/main/java/bgl/challenge/phoneword/components/DefaultPhoneWordDictionary.java:186-198 | any strictly descending listing of the boundaries is the iteration order |
| InlineFormat.InlineStep | src/main/java/bgl/challenge/phoneword/components/DefaultPhoneWordDictionary.java:202-216 | one step never shortens the word |
| InlineFormat.InlineWalk | src/main/java/bgl/challenge/phoneword/components/DefaultPhoneWordDictionary.java:198-219 | the walk never shortens the word |
| InlineFormat.InlineWalkKeepsLetters | src/main/java/bgl/challenge/phoneword/components/DefaultPhoneWordDictionary.java:198-219 | every step of the inline walk only inserts a dash |
| InlineFormat.FormatInline | src/main/java/bgl/challenge/phoneword/components/DefaultPhoneWordDictionary.java:186-222 | the loop, with its two `continue` branches, returns the specified inline formatting |
| InlineFormat.InlineOnlyInsertsDashes | src/main/java/bgl/challenge/phoneword/components/DefaultPhoneWordDictionary.java:186-222 | deleting every dash of the inline result gives the word's own characters back |
| InlineFormat.FormattersDisagree | src/main/java/bgl/challenge/phoneword/components/DefaultPhoneWordDictionary.java:198-222 | for "A3" with a one-letter member at 0 the standalone formatter gives "A-3" and the inline one "A3" |
| InlineFormat.InlineExample | src/main/java/bgl/challenge/phoneword/components/DefaultPhoneWordDictionary.java:186-222 | "AAA2DDD3" with members (0,2) and (4,6) formats to "AAA-2-DDD-3" |
| Construction.RowWords | src/main/java/bgl/challenge/phoneword/components/DefaultPhoneWordDictionary.java:185 | a row contributes at most one word |
| Construction.FlattenHas | src/main/java/bgl/challenge/phoneword/components/DefaultPhoneWordDictionary.java:132-136 | the `addAll` reduce keeps every word of every part |
| Construction.FlattenFrom | src/main/java/bgl/challenge/phoneword/components/DefaultPhoneWordDictionary.java:132-136 | every word of the `addAll` reduce comes from some part |
| Construction.AddRowWords | src/main/java/bgl/challenge/phoneword/components/DefaultPhoneWordDictionary.java:185-224 | a valid row is formatted inline and appended; an invalid row is dropped |
| Construction.ConstructPossibleWordsPerPattern | src/main/java/bgl/challenge/phoneword/components/DefaultPhoneWordDictionary.java:148-227 | `constructPossibleWordsPerPattern` returns the inline-formatted valid rows, in row order |
| Construction.PatternWordsIff | src/main/java/bgl/challenge/phoneword/components/DefaultPhoneWordDictionary.java:185-226 | a pattern yields exactly the inline formatting of its rows with no two adjacent digits |
| Construction.PatternWordsAreValidRows | src/main/java/bgl/challenge/phoneword/components/DefaultPhoneWordDictionary.java:148-227 | a pattern yields at most one word per row, and every word is a valid row with dashes inserted |
| Construction.ConcatWords | src/main/java/bgl/challenge/phoneword/components/DefaultPhoneWordDictionary.java:128-136 | the map-and-reduce concatenates the words of every pattern, in pattern order |
| Construction.WordsOfPatternsIff | src/main/java/bgl/challenge/phoneword/components/DefaultPhoneWordDictionary.java:128-136 | a word is returned exactly when some pattern yields it |
| Construction.RunFits | src/main/java/bgl/challenge/phoneword/components/DefaultPhoneWordDictionary.java:168-179 | every word in the bucket of a found run is as long as the run, so splicing keeps the row length |
| Construction.PatternOfRunsFits | src/main/java/bgl/challenge/phoneword/components/DefaultPhoneWordDictionary.java:168-179 | a pattern made of found runs can be expanded |
| CurrentDictionary.AddWordsKeepsWellFormed | src/main/java/bgl/challenge/phoneword/components/DefaultPhoneWordDictionary.java:400-410 | importing any sequence of lines keeps the dictionary invariant |
| CurrentDictionary.FoundPatternsFit | src/main/java/bgl/challenge/phoneword/components/DefaultPhoneWordDictionary.java:123-139 | every valid pattern of the found runs can be expanded |
| CurrentDictionary.ShortNumberHasNoWords | src/main/java/bgl/challenge/phoneword/components/DefaultPhoneWordDictionary.java:328-334 | a number shorter than the shortest word has no phonewords |
| CurrentDictionary.PhonewordsSound | src/main/java/bgl/challenge/phoneword/components/DefaultPhoneWordDictionary.java:123-139 | every phoneword comes from a valid pattern and a row with no two adjacent digits; deleting its dashes gives that row |
| CurrentDictionary.PhonewordsComplete | src/main/java/bgl/challenge/phoneword/components/DefaultPhoneWordDictionary.java:123-139 | every row with no two adjacent digits of every valid pattern is returned, formatted inline |
| CurrentDictionary.DefaultPhoneWordDictionary.constructor | src/main/java/bgl/challenge/phoneword/components/DefaultPhoneWordDictionary.java:41-47 | a new dictionary is empty with shortest length 0 and satisfies the invariant |
| CurrentDictionary.DefaultPhoneWordDictionary.AddNewWord | src/main/java/bgl/challenge/phoneword/components/DefaultPhoneWordDictionary.java:66-103 | returns whether the word was accepted; a refused word changes nothing; an accepted one is stored as `AddWord` says, `contains` then finds its code, and the invariant is kept |
| CurrentDictionary.DefaultPhoneWordDictionary.ImportLines | src/main/java/bgl/challenge/phoneword/components/DefaultPhoneWordDictionary.java:400-410 | `addNewWord` on every line in order gives the state of the fold over the lines |
| CurrentDictionary.DefaultPhoneWordDictionary.SetShortestWordLength | src/main/java/bgl/challenge/phoneword/components/DefaultPhoneWordDictionary.java:412-414 | sets the shortest length and nothing else |
| CurrentDictionary.DefaultPhoneWordDictionary.FindAllPossibleSubStrings | src/main/java/bgl/challenge/phoneword/components/DefaultPhoneWordDictionary.java:326-342 | returns the runs of the stored keys for the current shortest length |
| CurrentDictionary.DefaultPhoneWordDictionary.FindPhonewords | src/main/java/bgl/challenge/phoneword/components/DefaultPhoneWordDictionary.java:123-139 | returns the words of the valid patterns of the found runs, concatenated in pattern order |
| DictionaryExamples.AaaDdd | src/test/java/bgl/challenge/phoneword/components/DefaultPhoneWordDictionaryTest.java:55-58 | adding "AAA" and "DDD" to a new dictionary files them under "222" and "333", shortest length 3 |
| DictionaryExamples.AaaBbbDdd | src/test/java/bgl/challenge/phoneword/components/DefaultPhoneWordDictionaryTest.java:75-80 | adding "AAA", "BBB" and "DDD" files the first two under "222" in that order and "DDD" under "333" |
| DictionaryExamples.RunsOfAaaDdd | src/test/java/bgl/challenge/phoneword/components/DefaultPhoneWordDictionaryTest.java:55-73 | with "AAA" and "DDD", "22223333" holds "222" at 0 and 1 and "333" at 4 and 5, in that order |
| DictionaryExamples.ValidPatternsOf22223333 | src/test/java/bgl/challenge/phoneword/components/DefaultPhoneWordDictionaryTest.java:173-187 | those four runs give the four singletons and the four non-overlapping pairs, in that order |
| DictionaryExamples.PatternCountOf22223333 | src/test/java/bgl/challenge/phoneword/components/DefaultPhoneWordDictionaryTest.java:173-187 | "22223333" with "AAA" and "DDD" has 8 valid patterns |
| DictionaryExamples.ValidPatternsOfTwo | src/main/java/bgl/challenge/phoneword/components/DefaultPhoneWordDictionary.java:240-317 | two distinct runs give both singletons, then the pair exactly when they do not overlap |
| DictionaryExamples.GroupsOfFour | src/main/java/bgl/challenge/phoneword/components/DefaultPhoneWordDictionary.java:251-277 | four distinct runs give their windowed pairs, then triples, then all four |
| DictionaryExamples.RunsOfStarWars | src/test/java/bgl/challenge/phoneword/components/DefaultPhoneWordDictionaryTest.java:156-171 | with "STAR" and "WARS", "782792771" holds "7827" at 0 and "9277" at 4 |
| DictionaryExamples.PatternCountOfStarWars | src/test/java/bgl/challenge/phoneword/components/DefaultPhoneWordDictionaryTest.java:156-171 | those two runs do not overlap, so there are 3 valid patterns |
| DictionaryExamples.RunsOfKitKitty | src/test/java/bgl/challenge/phoneword/components/DefaultPhoneWordDictionaryTest.java:189-202 | with "KIT" and "KITTY", "54889" holds "548" at 0 and "54889" at 0 |
| DictionaryExamples.PatternCountOfKitKitty | src/test/java/bgl/challenge/phoneword/components/DefaultPhoneWordDictionaryTest.java:189-202 | those two runs overlap, so there are 2 valid patterns |
| DictionaryExamples.RunsOfAaaBbbDdd | src/test/java/bgl/challenge/phoneword/components/DefaultPhoneWordDictionaryTest.java:95-113 | with "AAA", "BBB" and "DDD", "222333" holds "222" at 0 and "333" at 3 |
| DictionaryExamples.ValidPatternsOf222333 | src/test/java/bgl/challenge/phoneword/components/DefaultPhoneWordDictionaryTest.java:95-113 | those runs give "222" alone, "333" alone, and both |
| DictionaryExamples.RunsOf122213331 | src/test/java/bgl/challenge/phoneword/components/DefaultPhoneWordDictionaryTest.java:75-93 | with "AAA", "BBB" and "DDD", "122213331" holds "222" at 1 and "333" at 5 |
| DictionaryExamples.ValidPatternsOf122213331 | src/test/java/bgl/challenge/phoneword/components/DefaultPhoneWordDictionaryTest.java:75-93 | those runs give "222" alone, "333" alone, and both |
| PhonewordExamples.PatternWordsOf22223333 | src/test/java/bgl/challenge/phoneword/components/DefaultPhoneWordDictionaryTest.java:55-73 | of the eight patterns only (0,2)+(4,6), (1,3)+(4,6) and (1,3)+(5,7) yield a word: "AAA-2-DDD-3", "2-AAA-DDD-3", "2-AAA-3-DDD" |
| PhonewordExamples.LookupOf22223333 | src/test/java/bgl/challenge/phoneword/components/DefaultPhoneWordDictionaryTest.java:55-73 | the dictionary holding "AAA" and "DDD" returns exactly those three words for "22223333", in that order |
| PhonewordExamples.PhonewordsOf22223333 | src/test/java/bgl/challenge/phoneword/components/DefaultPhoneWordDictionaryTest.java:55-73 | after adding "AAA" and "DDD" to a new dictionary, `findPhonewords("22223333")` returns exactly those three words |
| PhonewordExamples.PatternWordsOf222333 | src/test/java/bgl/challenge/phoneword/components/DefaultPhoneWordDictionaryTest.java:95-113 | the singletons yield nothing (each row keeps two adjacent digits) and the pair yields "AAA-DDD" and "BBB-DDD" |
| PhonewordExamples.LookupOf222333 | src/test/java/bgl/challenge/phoneword/components/DefaultPhoneWordDictionaryTest.java:95-113 | the dictionary holding "AAA", "BBB" and "DDD" returns exactly "AAA-DDD" and "BBB-DDD" for "222333" |
| PhonewordExamples.PhonewordsOf222333 | src/test/java/bgl/challenge/phoneword/components/DefaultPhoneWordDictionaryTest.java:95-113 | after adding "AAA", "BBB" and "DDD" to a new dictionary, `findPhonewords("222333")` returns exactly "AAA-DDD" and "BBB-DDD" |
| PhonewordExamples.PatternWordsOf122213331 | src/test/java/bgl/challenge/phoneword/components/DefaultPhoneWordDictionaryTest.java:75-93 | the singletons yield nothing and the pair yields "1-AAA-1-DDD-1" and "1-BBB-1-DDD-1" |
| PhonewordExamples.LookupOf122213331 | src/test/java/bgl/challenge/phoneword/components/DefaultPhoneWordDictionaryTest.java:75-93 | the dictionary holding "AAA", "BBB" and "DDD" returns exactly those two words for "122213331" |
| PhonewordExamples.PhonewordsOf122213331 | src/test/java/bgl/challenge/phoneword/components/DefaultPhoneWordDictionaryTest.java:75-93 | after adding "AAA", "BBB" and "DDD" to a new dictionary, `findPhonewords("122213331")` returns exactly "1-AAA-1-DDD-1" and "1-BBB-1-DDD-1" |
| PhonewordExamples.PatternWordsOfStarWars | src/test/java/bgl/challenge/phoneword/components/DefaultPhoneWordDictionaryTest.java:204-227 | the pattern (0,3)+(4,7) of "782792771" yields "STAR-WARS-1" alone: the two dashes that meet collapse into one |
| PhonewordExamples.SurroundedWords | src/main/java/bgl/challenge/phoneword/components/DefaultPhoneWordDictionary.java:185-224 | a key of four digits with two words, between two single digits, yields both rows with a dash on each side of the word |
| PhonewordExamples.PatternWordsOfAdgjBehk | src/test/java/bgl/challenge/phoneword/components/DefaultPhoneWordDictionaryTest.java:229-258 | the pattern (1,4) of "123451" with "ADGJ" and "BEHK" yields "1-ADGJ-1" and "1-BEHK-1" |
| PhonewordExamples.PatternWordsOfAaaaBbbb | src/test/java/bgl/challenge/phoneword/components/DefaultPhoneWordDictionaryTest.java:260-288 | the pattern (1,4) of "122221" with "AAAA" and "BBBB" yields "1-AAAA-1" and "1-BBBB-1" |
| PhonewordExamples.PatternWordsOfKitty89 | src/test/java/bgl/challenge/phoneword/components/DefaultPhoneWordDictionaryTest.java:291-313 | the pattern (0,4) of "1154889" yields nothing: "KITTY89" has two adjacent digits |
| PhonewordExamples.PatternWordsOf1Kitty | src/test/java/bgl/challenge/phoneword/components/DefaultPhoneWordDictionaryTest.java:337-361 | the pattern (1,5) of "154889" yields "1-KITTY" |
| PhonewordExamples.PatternWordsOfA3 | src/test/java/bgl/challenge/phoneword/components/DefaultPhoneWordDictionaryTest.java:315-335 | the pattern (0,0) of "23" yields "A3", not the "A-3" the test expects, because the inline formatting skips index 0 |
| LegacyDictionary.GroupsFit | src/main/java/bgl/challenge/services/DefaultPhoneWordDictionary.java:123-157 | the sub-groups of a group that can be expanded can be expanded too |
| LegacyDictionary.FoundGroupsFit | src/main/java/bgl/challenge/services/DefaultPhoneWordDictionary.java:101-114 | every group of the found runs can be expanded |
| LegacyDictionary.AllGroupWords | src/main/java/bgl/challenge/services/DefaultPhoneWordDictionary.java:105-111 | the map over the groups gives, per group, the words of its regrouping |
| LegacyDictionary.PhonewordsSound | src/main/java/bgl/challenge/services/DefaultPhoneWordDictionary.java:101-206 | every word returned comes from a sub-group of a group of the found runs |
| LegacyDictionary.PhonewordsComplete | src/main/java/bgl/challenge/services/DefaultPhoneWordDictionary.java:101-206 | every word of every sub-group of every group of the found runs is returned |
| LegacyDictionary.RegroupStartsWithSingletons | src/main/java/bgl/challenge/services/DefaultPhoneWordDictionary.java:123-128 | regrouping a group of distinct runs starts with one singleton per member, so every member is expanded on its own again |
| LegacyDictionary.DefaultPhoneWordDictionary.constructor | src/main/java/bgl/challenge/services/DefaultPhoneWordDictionary.java:34-40 | a new dictionary is empty with shortest length 0 and satisfies the invariant |
| LegacyDictionary.DefaultPhoneWordDictionary.AddNewWord | src/main/java/bgl/challenge/services/DefaultPhoneWordDictionary.java:47-84 | the same update as the current dictionary's: a refused word changes nothing, an accepted one is stored and found by `contains` |
| LegacyDictionary.DefaultPhoneWordDictionary.SetShortestWordLength | src/main/java/bgl/challenge/services/DefaultPhoneWordDictionary.java:360-362 | sets the shortest length and nothing else |
| LegacyDictionary.DefaultPhoneWordDictionary.FindAllPossibleWords | src/main/java/bgl/challenge/services/DefaultPhoneWordDictionary.java:299-352 | returns the runs of the stored keys for the current shortest length |
| LegacyDictionary.DefaultPhoneWordDictionary.ConstructPossibleWords | src/main/java/bgl/challenge/services/DefaultPhoneWordDictionary.java:123-206 | regroups the group, then expands, filters and formats every sub-group, in order |
| LegacyDictionary.DefaultPhoneWordDictionary.FindPhonewords | src/main/java/bgl/challenge/services/DefaultPhoneWordDictionary.java:101-114 | returns the words of every group of the found runs, concatenated in group order |
| CommandLine.ExtractParameter | src/main/java/bgl/challenge/phoneword/consoleapp/DefaultCommandLineParser.java:58-75 | the indexed scan returns what the specification function says, including both throws |
| CommandLine.ExtractInputFileName | src/main/java/bgl/challenge/phoneword/consoleapp/DefaultCommandLineParser.java:45-49 | the value after "-f" |
| CommandLine.ExtractDictionaryFileName | src/main/java/bgl/challenge/phoneword/consoleapp/DefaultCommandLineParser.java:32-36 | the value after "-d" |
| CommandLine.Parse | src/main/java/bgl/challenge/phoneword/consoleapp/DefaultCommandLineParser.java:19-24 | both file names, or the first missing argument, with the input file checked first |
| CommandLine.ExtractFirst | src/main/java/bgl/challenge/phoneword/consoleapp/DefaultCommandLineParser.java:58-75 | the value is the argument after the first occurrence of the indicator that is not last, and a blank value is a missing argument |
| CommandLine.ExtractMissing | src/main/java/bgl/challenge/phoneword/consoleapp/DefaultCommandLineParser.java:61-74 | with no occurrence of the indicator before the last argument, the argument is missing |
| CommandLine.ExtractSound | src/main/java/bgl/challenge/phoneword/consoleapp/DefaultCommandLineParser.java:58-75 | a value returned follows an occurrence of the indicator and is not blank |
| CommandLine.ParseExamples | src/main/java/bgl/challenge/phoneword/consoleapp/DefaultCommandLineParser.java:19-75 | "-f in.txt -d dict.txt" parses to both names; "-f" followed by a blank, or as the last argument, is missing |

## Left out

- File I/O: `importFromFile` is modelled as `ImportLines` over the lines of the file. The missing-file exception and the reading itself are not modelled, and neither are the console application, `Main`, the printed warnings or exception messages.
- Characters: only ASCII letters and digits are modelled. Java's Unicode `isLetterOrDigit`, Unicode case mapping and surrogate pairs are not.
- Regular expressions: `.*\d\d.*` is modelled only through `.` and `\d`. `.` fails on line terminators, as in Java.
- Injected collaborators: the dictionaries use `PhoneWordEncoder` and `PhonewordSyntaxChecker` directly, not injected interfaces. The `getInstance` factories are not modelled.
- Nulls: null words are modelled (`Option`), as are null `Pattern` lists in `Add`, `HashCode`, `Equals` and `AddAll` on this pattern. A null dictionary map, null runs and null argument arrays are not. Three Java null paths are not modelled; they follow.
- Patterns.Pattern.Valid: requires a non-null list. Java's `isValid` throws a NullPointerException on a null list.
- Patterns.Pattern.AddAll: requires the other pattern's list to be non-null, unless the other pattern is this one. Java throws a NullPointerException for another pattern with a null list.
- Null `SubString` fields: Java's `equals` and `hashCode` handle a null `value` or `originalString` (src/main/java/bgl/challenge/phoneword/models/SubString.java:87-122), but the `SubString` datatype holds strings only.
- Expansion.CountRows: the product of bucket sizes is unbounded here. Java's `int` product could wrap for very large buckets.
- CurrentDictionary.DefaultPhoneWordDictionary.FindPhonewords: requires every stored word to have at most nine letters. Longer words wrap their code and are not as long as their key, so the splice would change the row length. LegacyDictionary.DefaultPhoneWordDictionary.FindPhonewords has the same precondition.
- PhoneWordEncoder.AccumulateIsDecimal: stated only for words of at most nine letters. Longer words wrap around; `Wrap32` models that, but no closed form is proved for it. The same holds for PhoneWordEncoder.EncodingIsDecimal and PhoneWordEncoder.ShortWordEncoding.
- Formatter.SortDescending: `CollectionUtils.sortDescending` is not part of this model, since the utility class shown has only the reversed `TreeSet` factory. The call is modelled as a descending sort that keeps duplicate indices.
- `bgl/challenge/models/SubString` (legacy) has no `equals` or `conflictWith`. The legacy dictionary is modelled with the phoneword `SubString` relation.
- Aliasing: lists are values. The in-place `set`, `remove` and `addAll` on Java lists are modelled as reassignment of sequences. The dictionaries' word lists are never shared, so nothing observable is lost.
- `Contains` and `GetShortestWordLength` are plain reads of the state and have no contract of their own. `Contains` appears in the AddNewWord contracts.
