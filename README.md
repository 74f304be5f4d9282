# laravel-sensitive: a verified model of the sensitive-word engine

The library finds and masks sensitive words in a text. It stores the words
in a character trie (`$trieTreeMap`). It walks that trie from every offset
of the text. A walk may skip "disturb" characters inserted to dodge the
filter. Every match is replaced by a run of a replacement code. This project
models that engine (`src/Sensitive.php`) and the parsing of the disturb
setting (`src/config/sensitive.php`), and proves properties of both.

The Dafny follows the source's own shape:

- `trie.dfy` (module `Trie`): the trie is `map<char, Node>` with
  `Node = Leaf | Branch(children)`. A `Leaf` is PHP's `false`; there is no
  separate is-word flag. `Insert` is the reference definition of adding a
  word, `Trim` is `trim` with the character list of `addToTree`, and lemmas
  state what insertion keeps, adds and loses.
- `scanner.dfy` (module `Scanner`): the specification of `checkWord`
  (`Scan`, `MatchLength`) and of the `search` loop (`Matches`,
  `SearchWords`). Disturbs are counted without moving in the trie. A leaf
  sets the flag but does not stop the walk.
- `replace.dfy` (module `Replace`): `str_repeat`, `str_replace` with
  parallel arrays (each search string replaced everywhere, in list order)
  and `FilterText`, the specification of `filter`.
- `engine.dfy` (module `Engine`): class `Sensitive` with the fields
  `replaceCode`, `trieTreeMap` and `disturbList`. Its loop methods
  (`AddToTree`, `CheckWord`, `Search`, `AddWords`) are proved against the
  functions above. `NewSensitive` is the constructor with caching off.
- `config.dfy` (module `DisturbConfig`): `preg_split('//u')`,
  `array_unique`, `array_filter` and `array_values` applied to the
  environment value, which is a parameter (`None` for PHP `null`).
- `scenarios.dfy` and `sessions.dfy`: the cases of
  `tests/SensitiveTest.php` and the walk's edge cases. They are stated on
  the functions and, in `sessions.dfy`, driven through the class.

The code behaves as follows where a reader might expect otherwise, and the
model follows the code:

- a word that is a strict prefix of a later word stops being a word;
- a match extends over a repeated final character (`"sbb"` for `"sb"`)
  and over trailing disturbs;
- `filter` uses `str_replace` on the found strings, so it replaces every
  occurrence of them, not only the found spans.

The test file calls `setReplaceCode`, a method the class does not have.
The model uses `replaceCode` (`Engine.Sensitive.ReplaceCode`).

## Model

| member | source | states |
|---|---|---|
| Trie.Trim | src/Sensitive.php:234 | the result is a contiguous slice of the word; everything cut from either end is a space, tab, newline, carriage return, NUL, vertical tab, single or double quote, or backtick; a non-empty result neither starts nor ends with one |
| Trie.Insert | src/Sensitive.php:239-247 | definition: inserting an already trimmed word; each missing key on its path is created as a leaf, and each slot the path descends through becomes a map |
| Trie.Put | src/Sensitive.php:242-246 | definition: one loop step at the slot reached by `path`; key `c` is set to a leaf if missing, and a leaf on the path is turned into a map |
| Trie.PutExtends | src/Sensitive.php:239-247 | one iteration of the `addToTree` loop (create the key as a leaf if missing, then step into it) turns the trie with prefix `p` inserted into the trie with `p + [c]` inserted |
| Trie.InsertExisting | src/Sensitive.php:239-247 | inserting a word whose path already exists changes nothing |
| Trie.LookupInsert | src/Sensitive.php:239-247 | after inserting a non-empty word its path exists; it ends in a leaf unless the path existed before, in which case its end is untouched |
| Trie.LookupPrefix | src/Sensitive.php:239-247 | every prefix of an existing path is a path |
| Trie.InsertPrefixIsNoOp | src/Sensitive.php:239-247 | re-inserting a prefix of an existing path is a no-op |
| Trie.InsertIdempotent | src/Sensitive.php:239-247 | inserting the same word twice equals inserting it once |
| Trie.InsertKeepsPaths | src/Sensitive.php:239-247 | insertion never removes a path |
| Trie.InsertAddsOnlyPrefixes | src/Sensitive.php:239-247 | every path present after an insertion existed before or is a prefix of the inserted word |
| Trie.InsertWordStays | src/Sensitive.php:242-246 | an existing word stays a word after inserting `w` if and only if it is not a strict prefix of `w` (auto-vivification turns its leaf into a map) |
| Trie.InsertAllKeepsPaths | src/Sensitive.php:218-225 | `addWords` keeps every path of the existing trie |
| Trie.BlankWordIsNoOp | src/Sensitive.php:234-247 | a word made only of trimmed characters leaves the trie unchanged |
| Trie.InsertAll | src/Sensitive.php:218-225 | definition: `addWords` trims each word of the list and inserts it, in list order |
| Scanner.Scan | src/Sensitive.php:359-378 | a walk never consumes more than the remaining text, and a walk that reached a leaf consumed at least one character |
| Scanner.IsDisturb | src/Sensitive.php:392-395 | definition: a character is a disturb when the one-character string is an element of the disturb list (strict `in_array`) |
| Scanner.MatchLength | src/Sensitive.php:380-382 | `checkWord` returns 0 or a length between 1 and the rest of the text |
| Scanner.ScanFindsWord | src/Sensitive.php:359-380 | the flag is set if and only if some prefix of the rest, with its disturbs removed, is a word of the trie |
| Scanner.MatchLengthPositive | src/Sensitive.php:353-383 | `checkWord` is positive if and only if a word can be read from `beginIndex`, skipping disturbs |
| Scanner.LeadingDisturbs | src/Sensitive.php:362-365 | disturbs before a word add one each to the length and do not move the walk down the trie |
| Scanner.LeafRepeats | src/Sensitive.php:373-377 | at a leaf the walk stays at the same level, so a repeated leaf character is consumed entirely |
| Scanner.ScanEmptyTrie | src/Sensitive.php:367-369 | with an empty trie no walk reaches a leaf |
| Scanner.Matches | src/Sensitive.php:326-339 | the reported spans are non-empty, lie inside the text, start at or after the scan's offset and do not overlap, left to right |
| Scanner.MatchesEmptyTrie | src/Sensitive.php:185-190 | after `emptyTrieTreeMap` the scan reports nothing |
| Scanner.SearchNothing | src/Sensitive.php:323-341 | `search` returns [] for an empty trie and for an empty text |
| Scanner.MatchesAreWalks | src/Sensitive.php:327-331 | each reported span's length is what `checkWord` returns at its offset |
| Scanner.MatchesMissNothing | src/Sensitive.php:326-339 | at every offset no reported span covers, `checkWord` returns 0: the jump `$i += $wordLength - 1` skips only covered offsets |
| Scanner.ScanStep | src/Sensitive.php:326-338 | one iteration of the `search` loop keeps "spans so far + spans still to come = the whole scan" |
| Scanner.SearchWords | src/Sensitive.php:318-342 | definition: what `search` returns, the slices of the text at the spans `Matches` reports from offset 0, left to right |
| Replace.Repeat | src/Sensitive.php:334 | `str_repeat(s, n)` is `n` times as long as `s` and contains only characters of `s` |
| Replace.ReplaceAll | src/Sensitive.php:306 | replacing by a string of the needle's length preserves the length |
| Replace.StrReplace | src/Sensitive.php:306 | with parallel lists of equal-length pairs, `str_replace` preserves the length |
| Replace.ReplaceCodes | src/Sensitive.php:333-335 | the code list is parallel to the word list; entry k is as long as the code times the length of word k |
| Replace.FilterText | src/Sensitive.php:297-307 | with a one-character code `filter` preserves the length of the text |
| Replace.FilterEmptyTrie | src/Sensitive.php:297-307 | with an empty trie (after `emptyTrieTreeMap`) `filter` returns the text unchanged |
| Replace.ReplaceAllAbsent | src/Sensitive.php:306 | a text without an occurrence of the needle is left unchanged |
| Replace.ReplaceAllSelf | src/Sensitive.php:306 | replacing a string by itself changes nothing |
| Replace.RepeatSingle | src/Sensitive.php:334 | a one-character code gives one copy per matched character |
| Replace.ReplaceOnce | src/Sensitive.php:306 | a needle that occurs at exactly one place is replaced there and nowhere else |
| Replace.OnlyPlace | src/Sensitive.php:306 | helper for the test-case proofs (the premise of `ReplaceOnce`): a needle whose first character occurs once in the text occurs at most there |
| Replace.StrReplaceTwo | src/Sensitive.php:306 | `str_replace` with two search strings replaces the first everywhere, then the second in the result |
| Replace.FilterOneWord | src/Sensitive.php:297-307 | when one word is found, `filter` replaces all its occurrences by one code run per character |
| Replace.FilterTwoWords | src/Sensitive.php:297-307 | when two words are found, `filter` replaces them one after the other |
| DisturbConfig.SplitChars | src/config/sensitive.php:9 | `preg_split('//u')` gives an empty piece, one piece per character in order, an empty piece |
| DisturbConfig.Truthy | src/config/sensitive.php:8 | definition: the truthiness `array_filter` applies to a string; false exactly for "" and "0" |
| DisturbConfig.Unique | src/config/sensitive.php:8 | `array_unique` keeps exactly the elements of its input, each once |
| DisturbConfig.UniqueOrder | src/config/sensitive.php:8 | `array_unique` keeps elements in the order of their first occurrence |
| DisturbConfig.KeepTruthy | src/config/sensitive.php:8 | `array_filter` keeps exactly the elements other than "" and "0" |
| DisturbConfig.KeepTruthyOrder | src/config/sensitive.php:8 | `array_filter` keeps the relative order |
| DisturbConfig.KeepTruthyDistinct | src/config/sensitive.php:8 | `array_filter` introduces no repetition |
| DisturbConfig.ParseDisturbs | src/config/sensitive.php:4-11 | a null value stays null; otherwise every element is one character of the value and not "0", and every character other than '0' is present |
| DisturbConfig.ParseDisturbsDistinct | src/config/sensitive.php:8-10 | the parsed list has no duplicates |
| DisturbConfig.ParseDisturbsOrder | src/config/sensitive.php:8-10 | the parsed list follows the order of first occurrence in the value |
| Engine.Sensitive.Configure | src/Sensitive.php:66-78 | defaults `*` and [] replaced by the configured replacement code and disturbs when set; an absent `disturbs` leaves the list [] |
| Engine.ConfiguredTrie | src/Sensitive.php:165-180 | definition: the trie `resetTrieTreeMap` builds; an empty trie, then the configured words when set, then the configured file's lines when set |
| Engine.Sensitive.ReplaceCode | src/Sensitive.php:120-125 | sets the replacement code |
| Engine.Sensitive.SetDisturbs | src/Sensitive.php:134-139 | sets the disturb list |
| Engine.Sensitive.ResetTrieTreeMap | src/Sensitive.php:165-180 | the trie becomes the configured trie; fails exactly when the configured file cannot be read |
| Engine.Sensitive.EmptyTrieTreeMap | src/Sensitive.php:185-190 | the trie becomes empty |
| Engine.Sensitive.AddWords | src/Sensitive.php:218-225 | the trie becomes the old trie with each word inserted in turn |
| Engine.Sensitive.AddToTree | src/Sensitive.php:232-248 | the trie becomes the old trie with the trimmed word inserted |
| Engine.Sensitive.AddWordsFromFile | src/Sensitive.php:258-265 | inserts the file's lines; fails, inserting nothing, when the file cannot be read |
| Engine.Sensitive.Filter | src/Sensitive.php:297-307 | returns `FilterText` of the current state; a one-character code preserves the length |
| Engine.Sensitive.Search | src/Sensitive.php:318-342 | returns the slices at the scan's spans, and extends the given list by one code run per found word when asked |
| Engine.Sensitive.CheckWord | src/Sensitive.php:353-383 | returns `MatchLength` of the current trie and disturbs at `beginIndex` |
| Engine.NewSensitive | src/Sensitive.php:66-111 | construction fails exactly when the configured file cannot be read; otherwise the fields hold the configured code, disturbs and trie |
| Scenarios.SampleTrieShape | tests/SensitiveTest.php:86 | the words 笨蛋, sb, sss build the trie 笨→蛋, s→(b, s→s) |
| SearchScenarios.SearchSample | tests/SensitiveTest.php:84-91 | `search('你是笨蛋大sb嘛')` with words 笨蛋, sb, sss is ["笨蛋", "sb"] |
| FilterScenarios.FilterSample | tests/SensitiveTest.php:156-163 | `filter` gives "你是**大**嘛" |
| FilterScenarios.FilterUnderscore | tests/SensitiveTest.php:169-179 | word sb with code "_" gives "你是笨蛋大__嘛" |
| FilterScenarios.FilterTwoCharCode | tests/SensitiveTest.php:181-186 | after switching the code to "o0" the result is "你是笨蛋大o0o0嘛" |
| AddWordsScenarios.AddWordsKeepsOld | tests/SensitiveTest.php:106-111 | after `addWords(['zz'])` the search finds ["笨蛋", "zz"] |
| AddWordsScenarios.EmptyThenAdd | tests/SensitiveTest.php:113-118 | after emptying and adding zz the search finds only ["zz"] |
| WalkScenarios.LeafKeepsWalking | src/Sensitive.php:373-377 | word sb matches all of "sbb" (length 3) |
| WalkScenarios.DisturbInside | src/Sensitive.php:362-365 | word sb with disturb "*" matches all of "s*b" |
| WalkScenarios.DisturbsAround | src/Sensitive.php:362-365 | leading and trailing disturbs belong to the match: "*sb*" gives 4 |
| InsertionOrderScenarios.PrefixFirstIsLost | src/Sensitive.php:242-246 | after inserting "ab" then "abc", "abc" is a word and "ab" is not |
| InsertionOrderScenarios.PrefixAfterIsIgnored | src/Sensitive.php:242-246 | inserting "ab" after "abc" changes nothing |
| ConfigScenarios.ParseSample | src/config/sensitive.php:8-10 | the value "*0*#" parses to ["*", "#"] |
| Sessions.AddWordsSession | tests/SensitiveTest.php:97-119 | the `testAddWords` session run through the class returns ["笨蛋", "sb"], ["笨蛋", "zz"] and ["zz"] |
| Sessions.ReplaceCodeSession | tests/SensitiveTest.php:169-187 | the `testSetReplaceCode` session run through the class returns "你是笨蛋大__嘛" and "你是笨蛋大o0o0嘛" |
| Sessions.UnreadableFileSession | tests/SensitiveTest.php:67-78 | a word file that cannot be read makes construction fail |

## Left out

- The cache: the constructor's cache branch (src/Sensitive.php:80-106) and `saveTrieTreeMap`/`clearCache` (146-157, 198-209). They rely on reflection (`class_exists`, `new $cacheCls`) and on Laravel's cache. The model is the engine with caching off. `clearCache` calls a `clear()` that neither src/SensitiveCacheInterface.php nor src/SensitiveCache.php declares.
- `getWordsFromFile` (src/Sensitive.php:275-288): file I/O. A file is given as its lines, or as `Unreadable`; the exception's message text is not modelled. A last `false` from `fgets` inserts nothing, like an empty line.
- `env()` reads: the value of `SENSITIVE_DISTURBS` is a parameter of `ParseDisturbs`.
- src/Commands, src/Facades, src/ServiceProvider.php: framework wiring, console output and a singleton registration.
- UTF-8 bytes: strings are sequences of code points, as every `mb_*` call in the engine treats them. Byte-level `str_replace` on valid UTF-8 agrees with replacement on code points.
- Deprecation notice: on PHP 8.1 and later, the assignment at src/Sensitive.php:243 into a slot holding `false` (a leaf being extended) raises the "automatic conversion of false to array" deprecation notice. The model keeps only the silent conversion of the leaf into a map.
- Engine.Sensitive.CheckWord: the `$length` parameter is dropped; every caller passes the text's length.
- Engine.Sensitive.Search: the by-reference `$replaceCodeList` is an input list plus a returned list.
- Engine.Sensitive.SetDisturbs: the default argument `[]` is not modelled separately; callers pass the list.
- Engine.Config: settings that are not strings or lists of strings (for instance a non-string disturb entry) are not modelled. `in_array(..., true)` only matches one-character strings.
- DisturbConfig.SplitChars: only models `preg_split('//u')` on a string. The PHP result for the empty string, and for invalid UTF-8, is not modelled.
