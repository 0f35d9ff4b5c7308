# Word-frequency map-reduce, modelled in Dafny

This project models the counting engine of `word_frequency_analysis.py`:

- the **partitioner** cuts the document into fixed-width slices;
- the **mapper** (`map_words`) lowers each slice, extracts its tokens and counts them in a `Counter`;
- the **reducer** (`reduce_counts`) adds the partial Counters together;
- the **top-N selector** (`most_common`) picks the most frequent entries. The pair-unpacking that follows it can fail.

Everything in the engine is a pure computation over sequences, so the model is written as functions and lemmas:

| file | module | what it holds |
|---|---|---|
| `faults.dfy` | `Faults` | the exceptions the engine can raise, and a `Result` type |
| `seqs.dfy` | `Seqs` | `Flatten` and `Min` |
| `text.dfy` | `Text` | word characters (`\w`) and lowering (`str.lower`), both ASCII |
| `tokenizer.dfy` | `Tokenizer` | `re.findall(r'\b\w+\b', s)` as the maximal runs of word characters |
| `counter.dfy` | `Counter` | a `Counter` as a table of `(token, count)` entries in insertion order; `Counter(words)`; Counter addition |
| `mapreduce.dfy` | `MapReduce` | partitioning, `map_words`, `reduce_counts`, `mapreduce_word_count` |
| `top_n.dfy` | `TopN` | `most_common(n)` and the `zip(*...)` unpacking |

A frequency table is a sequence of `Entry(token, count)` values with unique tokens. It is kept in dictionary insertion order, because `most_common` breaks ties by that order. Its abstract value is the multiset `Bag(t)`. `Lookup(t, k)` is `t[k]`, which is 0 for a missing token.

- **Counter(words)** is a left fold of `Increment`. An existing token is bumped where it stands. A new token is appended with count 1.
- **Counter addition `x + y`** is modelled on Python's definition. First come the entries of `x` in order, each with `y`'s count added, kept when the sum is positive. Then come the entries of `y` whose token `x` lacks, kept when their count is positive.
- **The thread pool** is an ordered sequential map (`MapAll`). The workers share no state, and `executor.map` returns results in input order.

Four behaviours of the code are easy to misread, and the model follows the code in each:

- **Chunk count.** The code makes `ceil(len / w)` slices of width `w = len // P`, not `P` slices. That is at least `P` and can be more: 7 characters with 4 workers give 7 slices.
- **Short texts fail.** The code never makes an empty chunk. When `len < P`, including an empty document, the width is 0 and `range` raises.
- **Ties follow insertion order.** The code ranks equal counts by first occurrence in the token stream, not alphabetically (`TopN.TieGoesToFirstOccurrence`).
- **`n <= 0` fails late.** The code does not reject it up front. `most_common` returns `[]`, and the unpacking at line 42 then raises. An empty table does the same.

## Model

| member | source | states |
|---|---|---|
| `Text.ToLower` | word_frequency_analysis.py:20 | a capital 'A'..'Z' becomes the letter `'a' - 'A'` code points above it; any other character is unchanged; the result is never a capital and is a word character exactly when the input is |
| `Text.Lower` | word_frequency_analysis.py:20 | `text.lower()` keeps the length and maps every character by `ToLower`; no upper-case letter is left, the word/non-word pattern is kept and non-capitals are unchanged |
| `Text.ToLowerMerges` | word_frequency_analysis.py:20 | two characters lower to the same character exactly when they are equal up to case |
| `Text.LowerIgnoresCase` | word_frequency_analysis.py:20 | two strings lower to the same string exactly when they are equal up to the case of their letters |
| `Tokenizer.RunLength` | word_frequency_analysis.py:20 | the leading run of word characters is maximal: all its characters are word characters and the next one is not |
| `Tokenizer.Tokens` | word_frequency_analysis.py:20 | every token of `\b\w+\b` is non-empty and made only of word characters taken from the text |
| `Tokenizer.TokenCount` | word_frequency_analysis.py:20 | there is exactly one token per maximal run of word characters, as counted by an independent one-pass scanner |
| `Tokenizer.TokensCover` | word_frequency_analysis.py:20 | the tokens joined in order are exactly the word characters of the text: nothing is lost, reordered or invented |
| `Tokenizer.RunStartsLower` | word_frequency_analysis.py:20 | lowering the text does not change its number of word runs |
| `Tokenizer.LowerTokens` | word_frequency_analysis.py:20 | tokens of lowered text contain no upper-case letter |
| `Tokenizer.TokensOfWord` | word_frequency_analysis.py:20 | a non-empty word followed by a separator or the end of the text is the next token |
| `Tokenizer.TokensOfSeparator` | word_frequency_analysis.py:20 | a leading non-word character yields no token |
| `Counter.Increment` | word_frequency_analysis.py:21 | no ensures; specified by `Counter.IncrementLookup` (only the counted word's count grows, by one), `Counter.IncrementValid` (keys stay unique, counts positive) and `Counter.IncrementOrder` (a new key goes last, existing keys keep their places) |
| `Counter.IncrementLookup` | word_frequency_analysis.py:21 | counting one word adds one to that word's count and leaves every other count unchanged |
| `Counter.IncrementKeys` | word_frequency_analysis.py:21 | counting a word already present keeps the keys; a new word is appended as the last key |
| `Counter.IncrementValid` | word_frequency_analysis.py:21 | counting one word keeps the keys unique and the counts positive |
| `Counter.FromTokens` | word_frequency_analysis.py:21 | no ensures; specified by `Counter.FromTokensBag` and `Counter.FromTokensOrder` |
| `Counter.FromTokensBag` | word_frequency_analysis.py:21 | `Counter(words)` has unique keys and positive counts; its keys are exactly the words and each count is the number of occurrences |
| `Counter.FromTokensOrder` | word_frequency_analysis.py:21 | the keys of `Counter(words)` are in order of first occurrence |
| `Counter.Add` | word_frequency_analysis.py:25 | no ensures; specified by `Counter.AddLookup`, `Counter.AddSums`, `Counter.AddKeys` and `Counter.AddFromTokens` |
| `Counter.AddLookup` | word_frequency_analysis.py:25 | Counter addition sums the two counts of every token, for any unique-keyed tables |
| `Counter.AddSums` | word_frequency_analysis.py:25 | the sum of two tables is valid and stands for the multiset union of the two tables |
| `Counter.AddKeys` | word_frequency_analysis.py:25 | for valid tables the keys of the sum are exactly the union of the keys: no token is dropped |
| `Counter.MergeCommutes` | word_frequency_analysis.py:25 | addition is commutative as a token-to-count mapping |
| `Counter.MergeAssociates` | word_frequency_analysis.py:25 | addition is associative as a token-to-count mapping |
| `Counter.MergeOrderMatters` | word_frequency_analysis.py:25 | as an ordered table addition is not commutative: the left operand's tokens come first |
| `Counter.AddFromTokens` | word_frequency_analysis.py:21-25 | `Counter(a) + Counter(b)` equals `Counter(a + b)` entry for entry and in order |
| `MapReduce.Partition` | word_frequency_analysis.py:30-31 | no ensures; its errors are specified by `MapReduce.WordCountOutcome` and its slices by `MapReduce.PartitionShape` |
| `MapReduce.Chunks` | word_frequency_analysis.py:31 | no ensures; specified by `MapReduce.PartitionShape` (via the lemmas it calls on chunk joining, count and lengths) |
| `MapReduce.FloorDiv` | word_frequency_analysis.py:30 | `//` is floor division, also for a negative divisor |
| `MapReduce.PartitionShape` | word_frequency_analysis.py:30-31 | with `0 < P <= len` the width `w = len // P` is at least 1; the slices join back to the text; all slices but the last have length `w` and the last has length in `[1, w]`; there are `ceil(len / w) >= P` slices |
| `MapReduce.FloorDivOfLength` | word_frequency_analysis.py:30 | the width is 0 exactly when `0 < P` and `len < P`, or `P < 0` and the text is empty; it is negative exactly when `P < 0` and the text is not empty |
| `MapReduce.WordCountOutcome` | word_frequency_analysis.py:28-36 | `P == 0` raises division by zero; a zero width (`len < P`, or `P < 0` with empty text) raises at `range`; `P < 0` with non-empty text raises at the executor; the count succeeds exactly when `0 < P <= len` |
| `MapReduce.MapWords` | word_frequency_analysis.py:18-21 | no ensures; specified by `MapReduce.MapWordsSpec` and `MapReduce.MapWordsIgnoresCase` |
| `MapReduce.MapAll` | word_frequency_analysis.py:33-34 | one table per chunk; each is `map_words` of its chunk, in input order |
| `MapReduce.MapWordsSpec` | word_frequency_analysis.py:18-21 | `map_words(t)` is valid; its keys are non-empty, made of word characters and contain no upper case; each count is the token's number of occurrences; the counts add up to the number of maximal word runs of `t` |
| `MapReduce.MapWordsKeys` | word_frequency_analysis.py:18-21 | the validity, key-shape and count parts of `map_words`'s contract |
| `MapReduce.MapWordsTotal` | word_frequency_analysis.py:18-21 | the counts of `map_words(t)` add up to the number of maximal word runs of `t` |
| `MapReduce.TokenShape` | word_frequency_analysis.py:20 | every token of lowered text is non-empty, word characters only, no upper case |
| `MapReduce.MapWordsIgnoresCase` | word_frequency_analysis.py:18-21 | texts equal up to the case of their letters have the same `map_words` table, entry for entry and in order |
| `MapReduce.CaseVariantsMerge` | word_frequency_analysis.py:18-21 | `map_words("The the")` is `{"the": 2}`: case variants are one token |
| `MapReduce.FoldAdd` | word_frequency_analysis.py:25 | no ensures; specified by `MapReduce.ReduceSpec` (via `FoldAddValid` and `FoldAddBag`) and `MapReduce.ReduceOrderIndependent` |
| `MapReduce.ReduceCounts` | word_frequency_analysis.py:23-26 | the fold fails (with the empty-reduce error) exactly when the list of tables is empty |
| `MapReduce.ReduceSpec` | word_frequency_analysis.py:23-26 | for a non-empty list of valid tables the result is valid; each token's count is the sum of its counts across the tables; its keys are the union of their keys; its total is the sum of their totals |
| `MapReduce.ReduceOrderIndependent` | word_frequency_analysis.py:25 | any permutation of the partial tables reduces to the same token-to-count mapping and the same key set |
| `MapReduce.WordCount` | word_frequency_analysis.py:28-37 | no ensures; specified by `MapReduce.WordCountOutcome`, `MapReduce.WordCountIsCounterOfFragments`, `MapReduce.WordCountSpec` and `MapReduce.WordCountOrder` |
| `MapReduce.WordCountIsCounterOfFragments` | word_frequency_analysis.py:28-37 | on success the result equals, entry for entry and in order, the Counter of all chunk tokens in text order |
| `MapReduce.WordCountSpec` | word_frequency_analysis.py:28-37 | on success the table is valid; its keys are non-empty lower-case word strings; each count is the sum over the partial tables; the total number of tokens is conserved and equals the number of word runs summed over the chunks |
| `MapReduce.WordCountOrder` | word_frequency_analysis.py:30-36 | the result lists its tokens in order of first occurrence in the stream of chunk tokens |
| `MapReduce.SingleWorker` | word_frequency_analysis.py:30-36 | with one worker and a non-empty text the result is `map_words(text)` |
| `MapReduce.StraddledWord` | word_frequency_analysis.py:30-36 | `"aaaa"` with 4 workers yields `{"a": 4}`: a word cut by the slicing is counted as fragments |
| `TopN.InsertByCount` | word_frequency_analysis.py:41 | inserting one entry into a count-descending list keeps it count-descending and adds exactly that entry |
| `TopN.SortByCount` | word_frequency_analysis.py:41 | the sort is a count-descending permutation of the table |
| `TopN.SortStable` | word_frequency_analysis.py:41 | among equal counts the sort keeps table order |
| `TopN.MostCommon` | word_frequency_analysis.py:41 | no ensures; specified by `TopN.MostCommonSpec` |
| `TopN.MostCommonSpec` | word_frequency_analysis.py:41 | for `n > 0`: returns `min(n, len)` entries of the table; counts are non-increasing; no omitted entry has a count above the last one returned; among equal counts the returned entries are the earliest in table order, in that order; with `n >= len` every entry is returned |
| `TopN.MostCommonLength` | word_frequency_analysis.py:41 | `most_common(n)` has `min(n, len)` entries for `n > 0` |
| `TopN.MostCommonEntries` | word_frequency_analysis.py:41 | `most_common(n)` returns entries of the table, and all of them when `n >= len` |
| `TopN.MostCommonThreshold` | word_frequency_analysis.py:41 | no omitted entry has a count above the last one returned |
| `TopN.MostCommonStable` | word_frequency_analysis.py:41 | for each count, the returned entries with that count are a prefix of the table's entries with that count |
| `TopN.TopWords` | word_frequency_analysis.py:41-42 | no ensures; specified by `TopN.TopWordsOutcome` |
| `TopN.TopWordsOutcome` | word_frequency_analysis.py:41-42 | the selection is empty exactly when `n <= 0` or the table is empty, and the unpacking then fails; otherwise it yields the word and count columns of the selection |
| `TopN.TieGoesToFirstOccurrence` | word_frequency_analysis.py:39-42 | in `"sat mat"` both words occur once and `most_common(1)` picks `"sat"`, the first one to occur, not the alphabetically first |

## Left out

- `download_text` (word_frequency_analysis.py:8-16): network I/O. The engine receives the text as a parameter.
- The plotting in `visualize_top_words` (word_frequency_analysis.py:44-50): user-interface output. Only the selection and the unpacking of lines 41-42 are modelled.
- `main` and the `__main__` block (word_frequency_analysis.py:52-66): console input and orchestration. The default of 4 workers is simply the `workers` argument of `MapReduce.WordCount`.
- The `ThreadPoolExecutor` concurrency (word_frequency_analysis.py:33-34). It is modelled as an ordered sequential map, because the workers share no state and `executor.map` returns results in input order.
- `async_file_sorter.py`: an unrelated file-copy utility built on asyncio tasks, the file system, logging and argument parsing.
- `Text.Lower`: covers ASCII only. Python's `str.lower` and `\w` are Unicode-aware, and lowering can even change the length of some non-ASCII strings. The model treats letters, digits and underscore as word characters and maps only 'A'..'Z' to lower case.
- `most_common()` with no argument (a full sort) is never called by the engine and is not modelled.
- Counter addition is modelled on the tables the engine builds. Counters with negative counts never arise here, so counts are natural numbers.
