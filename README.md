# Ring buffer, token cleaning and wiki section table

A Dafny model of three pieces of this repository:

- **The fixed-capacity ring buffer of `scientifik.kmath.streaming`.** Its
  `RingBuffer<T>` keeps the most recent `capacity` pushed elements in a store
  of `capacity` slots. `startIndex` marks the oldest element and `size`
  counts the elements, and operations read them through
  `(startIndex + n) % capacity`. The model is a class over an
  `array<Option<T>>` with a ghost `Contents` sequence, oldest element first.
  It includes the iterator and the snapshot view, each over a private copy
  of the store.
- **The source-file cleaning of the training script and the prediction
  service.** `clean_file` strips every line read by `readlines()` and drops
  the comment lines. It joins the rest with no separator, masks everything
  but ASCII letters, lowercases the text and splits it.
  - The training script adds three helpers: `freq` counts the words, `avg`
    keeps the words counted more than twice the mean, and `files_to_words`
    concatenates each file type's token lists.
  - The service joins the tokens back with single spaces.
- **The wiki plugin's `WikiModel`.** It is an insertion-ordered table of
  sections keyed by section key, plus an optional sections page. It has a
  lookup that refuses blank keys and a flattened list of all pages.

Files:

- `wrappers.dfy`: Option, Result and Outcome.
- `ordered_maps.dfy`: the insertion-ordered map that models both Python's
  `dict` and Kotlin's `LinkedHashMap`.
- `ring_buffer.dfy`: the ring buffer.
- `text.dfy`: strip, lower, split and join.
- `comment_lines.dfy`: the per-line comment filter.
- `training.dfy`: the training script's helpers.
- `flask_main.dfy`: the service's `clean_file`.
- `wiki_model.dfy`: the wiki model.

Where the original code reads or writes in place, the model does too:
- `push` writes one slot of the array and updates `startIndex` and `size`;
- the iterator's `computeNext` advances its own fields;
- `clean_file`, `freq`, `avg` and `files_to_words` are methods with the loops
  of the original;
- `initialize` reassigns the model's table and `allPages` builds its list in
  a loop.

Each of these methods is proved against a specification function, and the
properties the code promises are proved about those functions.

## Model

| member | source | states |
|---|---|---|
| RingBuffers.TruncRem | worksample_data/kt/908.kt:77 | Kotlin's `%` truncates toward zero. For a non-negative dividend it is the remainder in `[0, b)`; for a negative one it has the dividend's sign. |
| RingBuffers.Forward | worksample_data/kt/908.kt:77 | `forward` yields a slot in `[0, capacity)` whenever both operands are non-negative. It yields a negative index for a negative sum not divisible by the capacity. |
| RingBuffers.ForwardReduce | worksample_data/kt/908.kt:77 | Reducing the starting index to a slot first does not change where an offset lands. |
| RingBuffers.ForwardPeriod | worksample_data/kt/908.kt:77 | An offset of one full capacity lands on the same slot as offset 0. |
| RingBuffers.ForwardInjective | worksample_data/kt/908.kt:77 | Distinct offsets below the capacity land on distinct slots, so the elements never share a slot. |
| RingBuffers.Window | worksample_data/kt/908.kt:64-73 | What a ring of capacity `c` holds after a push history: the last `c` elements, in order. |
| RingBuffers.WindowPush | worksample_data/kt/908.kt:64-73 | Pushing onto the window of a history gives the window of the extended history. |
| RingBuffers.HoldsAppend | worksample_data/kt/908.kt:66-70 | On a non-full ring, writing slot `forward(size)` appends the element and disturbs no other element. |
| RingBuffers.HoldsEvict | worksample_data/kt/908.kt:66-68 | On a full ring, that write overwrites the oldest element. The ring then starts one later and holds the old elements without the first, then the new one. |
| RingBuffers.HoldsAdvance | worksample_data/kt/908.kt:45-47 | After the oldest element is read, moving one slot on keeps the remaining elements laid out. |
| RingBuffers.HoldsReduce | worksample_data/kt/908.kt:77 | Reducing the start offset to a slot keeps the layout. |
| RingBuffers.CopyStore | worksample_data/kt/908.kt:39 | `buffer.copy()` is a fresh store with the same slots. |
| RingBuffers.RingBuffer.Build | worksample_data/kt/908.kt:80-83 | `build(n, empty)` gives `n` slots all holding `empty`, with `startIndex == 0` and `size == 0`. |
| RingBuffers.RingBuffer.Boxing | worksample_data/kt/908.kt:88-91 | `boxing(n)` gives `n` slots all holding `null`, with `startIndex == 0` and `size == 0`. |
| RingBuffers.RingBuffer.Get | worksample_data/kt/908.kt:25-29 | `get(i)` succeeds exactly when `0 <= i < size`, with logical element `i` (oldest first). A negative index throws "must be positive"; an index at or beyond `size` throws the out-of-size error. |
| RingBuffers.RingBuffer.IsFull | worksample_data/kt/908.kt:31 | True exactly when the buffer holds `capacity` elements. |
| RingBuffers.RingBuffer.Push | worksample_data/kt/908.kt:64-73 | Writes exactly slot `forward(size)`. Not full: `size` grows, `startIndex` stays and the element is appended. Full: `startIndex` grows, `size` stays and the oldest is evicted. The layout invariant is kept. Capacity 0 throws in `%` before anything changes. |
| RingBuffers.RingBuffer.Iterator | worksample_data/kt/908.kt:36-39 | As written: a fresh copy of the store with `count = size` and `index = startIndex` (unreduced). |
| RingBuffers.RingBuffer.IteratorCorrected | worksample_data/kt/908.kt:36-39 | The same iterator with `index` reduced to a slot. Its first read lies inside the copy. |
| RingBuffers.RingBuffer.Elements | worksample_data/kt/908.kt:36-50 | Iterating as written yields the contents while `startIndex < capacity`. Otherwise, on a non-empty buffer, the first read leaves the copy. |
| RingBuffers.RingBuffer.ElementsCorrected | worksample_data/kt/908.kt:36-50 | The corrected iteration yields exactly `size` elements, equal to `get(0) .. get(size - 1)`. |
| RingBuffers.RingBuffer.Snapshot | worksample_data/kt/908.kt:55-62 | The snapshot has the buffer's `size` and a fresh copy of the store. Right after capture its element `i` is `get(i)`. |
| RingBuffers.RingBuffer.SnapshotCorrected | worksample_data/kt/908.kt:55-62 | A snapshot that captures `startIndex` with the copy. Its elements are the contents at capture time. |
| RingBuffers.RingIterator.constructor | worksample_data/kt/908.kt:36-39 | The iterator's state is its copy, `count` and `index`. |
| RingBuffers.RingIterator.ComputeNext | worksample_data/kt/908.kt:41-49 | With `count == 0` it is done. Otherwise it yields the next remaining element, moves `index` one slot on and decrements `count`. A read outside the copy throws. |
| RingBuffers.RingIterator.Drain | worksample_data/kt/908.kt:41-49 | Running the iterator to the end yields its remaining elements and leaves `count == 0` with nothing remaining. If the first read is outside the copy it throws and the iterator's state is unchanged. |
| RingBuffers.LiveSnapshot.constructor | worksample_data/kt/908.kt:58-60 | The as-written view keeps its owner, its copy and its size. |
| RingBuffers.LiveSnapshot.Get | worksample_data/kt/908.kt:58-60 | Element `i` of the as-written view is a slot of its copy, wherever the owner's live `startIndex` has moved. |
| RingBuffers.StableSnapshot.constructor | worksample_data/kt/908.kt:58-60 | The corrected view keeps the captured start, its copy and its size. |
| RingBuffers.StableSnapshot.Get | worksample_data/kt/908.kt:58-60 | Element `i` of the corrected view is element `i` of the captured contents. |
| RingBuffers.PushEach | worksample_data/kt/908.kt:64-73 | Pushing elements one after another leaves the last `capacity` elements of the whole history. |
| RingBuffers.WindowStep | worksample_data/kt/908.kt:64-73 | One push moves the window of the history one element on. |
| RingBuffers.PushLeavesStableSnapshot | worksample_data/kt/908.kt:55-62 | A later push leaves every element of a corrected snapshot unchanged. |
| RingBuffers.ThreeSlotScenario | worksample_data/kt/908.kt:25-31 | Capacity 3 with pushes 1 to 4: `get(0) == 2`, `get(2) == 4`, `get(3)` throws and the buffer is full. The as-written snapshot, read right after capture, and the corrected snapshot both read 2, 3, 4. |
| RingBuffers.ThreeSlotRing | worksample_data/kt/908.kt:64-73 | `build(3, 0)` with pushes 1 to 4 leaves `startIndex == 1`, `size == 3` and contents `[2, 3, 4]`. |
| RingBuffers.OneSlotAfterEviction | worksample_data/kt/908.kt:64-73 | `boxing(1)` with pushes 7 and 8 leaves `startIndex == 1` and contents `[8]`. |
| RingBuffers.IteratorOverrunExample | worksample_data/kt/908.kt:38 | On that ring the as-written iterator reads slot 1 of a one-slot copy. The corrected one yields `[8]`. |
| RingBuffers.FullSnapshots | worksample_data/kt/908.kt:55-62 | `boxing(2)` with pushes 1 and 2, then both kinds of snapshot, which copy `[1, 2]`. |
| RingBuffers.SnapshotDriftExample | worksample_data/kt/908.kt:59 | After `push(3)`, the as-written snapshot's element 0 changes from 1 to 2. The corrected snapshot still reads 1. |
| RingBuffers.EarlySnapshot | worksample_data/kt/908.kt:55-62 | A snapshot of `boxing(2)` after `push(1)` copies a `null` into slot 1. |
| RingBuffers.SnapshotNullExample | worksample_data/kt/908.kt:58-60 | After two more pushes the as-written snapshot's element 0 is that `null`. |
| Text.StripLeft | worksample_data/training.py:14 | Drops the leading whitespace: a suffix that does not start with whitespace, with only whitespace before it. |
| Text.StripRight | worksample_data/training.py:14 | Drops the trailing whitespace: a prefix that does not end with whitespace, with only whitespace after it. |
| Text.Strip | worksample_data/training.py:14 | `strip()` neither starts nor ends with whitespace and is no longer than its input. |
| Text.StripSlice | worksample_data/training.py:14 | `strip()` is the slice of the line between its leading and its trailing whitespace. |
| Text.StripChar | worksample_data/training.py:14 | Each character of `strip()` is the character of the line at the same offset past the leading whitespace. |
| Text.StripTrailing | worksample_data/training.py:14 | Everything after the stripped text in the line is whitespace. |
| Text.StripIdempotent | worksample_data/training.py:15-20 | The repeated `line.strip()` of the later passes strips nothing more. |
| Text.StripReadLine | worksample_data/training.py:11 | A stripped `readlines()` line holds no line feed. |
| Text.ToLower | worksample_data/training.py:22 | Lowercasing turns an ASCII letter into a lowercase letter and leaves every other character alone. |
| Text.Lower | worksample_data/training.py:22 | `lower()` lowercases each character in place, keeping the length. |
| Text.MaskNonLetters | worksample_data/training.py:22 | `re.sub('[^a-zA-Z]', ' ', s)` keeps the letters and turns each other character into one space. |
| Text.WordPrefix | worksample_data/training.py:22 | The longest prefix without whitespace, followed by whitespace or by the end. |
| Text.IsBlank | worksample_data/kt/397.kt:36 | A key is blank exactly when stripping it leaves nothing. |
| Text.Split | worksample_data/training.py:22 | `split()` returns non-empty tokens without whitespace. |
| Text.SplitLowerWords | worksample_data/training.py:22 | A text whose only non-whitespace characters are lowercase letters splits into lowercase words. |
| Text.Normalize | worksample_data/training.py:22 | The masked, lowered text is as long as the input: each ASCII letter lowercased, every other character a space. |
| Text.Tokenize | worksample_data/training.py:22 | Every token of `re.sub('[^a-zA-Z]', ' ', text).lower().split()` is a non-empty lowercase ASCII word. |
| Text.SplitFirst | worksample_data/training.py:22 | A text starting with a non-space splits into its first word and the words of the rest. |
| Text.SplitStripLeft | worksample_data/training.py:22 | Leading whitespace does not change what `split()` returns. |
| Text.SkipNonLetters | worksample_data/training.py:22 | The suffix from the first ASCII letter on, with no letter before it. |
| Text.LetterPrefix | worksample_data/training.py:22 | The maximal run of ASCII letters at the start. |
| Text.LowerLetters | worksample_data/training.py:22 | A lowered non-empty run of letters is a lowercase word. |
| Text.LetterRuns | worksample_data/training.py:22 | The reference tokeniser: the maximal letter runs, lowercased and in order; each is a non-empty lowercase word. |
| Text.NormalizeSlice | worksample_data/training.py:22 | Masking and lowering commute with slicing. |
| Text.NormalizeSuffix | worksample_data/training.py:22 | Masking and lowering commute with dropping a prefix. |
| Text.NormalizeSpace | worksample_data/training.py:22 | After masking, a character is whitespace exactly where the text had no letter. |
| Text.NormalizeLetters | worksample_data/training.py:22 | A run of letters is only lowered by the masking. |
| Text.SkipMatches | worksample_data/training.py:22 | Stripping the masked text skips exactly the characters before the first letter. |
| Text.PrefixMatches | worksample_data/training.py:22 | The first word of the masked text is exactly as long as the first letter run. |
| Text.SkipBeforeTokens | worksample_data/training.py:22 | The characters before the first letter yield no token. |
| Text.FirstRunToken | worksample_data/training.py:22 | A text starting with a letter yields its lowered first letter run, then the tokens of the rest. |
| Text.TokenizeIsLetterRuns | worksample_data/training.py:22 | `re.sub('[^a-zA-Z]', ' ', text).lower().split()` equals the reference tokeniser on every text. |
| Text.NoLettersNoRuns | worksample_data/training.py:22 | A text without ASCII letters has no tokens. |
| Text.Flatten | worksample_data/training.py:56-57 | `''.join(parts)` and repeated `+=` give a sequence as long as all parts together. |
| Text.FlattenAppend | worksample_data/training.py:56-57 | Concatenating two runs of parts is concatenating their concatenations. |
| Text.FlattenPair | worksample_data/training.py:22 | Joining two parts is their concatenation. |
| Text.JoinSpaces | flask_files/main.py:78 | `' '.join` of no words is `""`. Otherwise it starts with the first word and is one character per gap longer than the words together. |
| Text.JoinCanonical | flask_files/main.py:78 | `' '.join` of lowercase tokens holds only lowercase letters and single inner spaces. It is non-empty when there are tokens. |
| Text.WordPrefixOfWord | flask_files/main.py:78 | A word followed by whitespace, or by nothing, is split off whole. |
| Text.SplitWord | flask_files/main.py:78 | A single word splits to itself. |
| Text.SplitWordThen | flask_files/main.py:78 | A word, a space and a text split into the word followed by the words of the text. |
| Text.SplitLeadingSpace | flask_files/main.py:78 | A leading space does not change what `split()` returns. |
| Text.SplitJoin | flask_files/main.py:78 | `split()` inverts `' '.join` on words. |
| OrderedMaps.Empty | worksample_data/kt/397.kt:12 | A new map has no keys. |
| OrderedMaps.Put | worksample_data/training.py:31 | Re-storing an existing key replaces its value in place. A new key is appended to the iteration order. The map stays well formed. |
| OrderedMaps.Get | worksample_data/kt/397.kt:37 | `getOrDefault(k, null)` finds a value exactly when the key is present, and finds the value stored under it. |
| OrderedMaps.FromPairs | worksample_data/kt/397.kt:32 | `linkedMapOf(*pairs)` is a well-formed ordered map. |
| OrderedMaps.FromPairsKeys | worksample_data/kt/397.kt:32 | Its keys are exactly the keys of the pairs. |
| OrderedMaps.FromPairsLastWins | worksample_data/kt/397.kt:32 | A key given several times maps to its last pair's value. |
| OrderedMaps.FromPairsGetMissing | worksample_data/kt/397.kt:32 | A key no pair has is not found. |
| OrderedMaps.KeyNotBefore | worksample_data/training.py:54 | A key is not listed before its own position. |
| CommentLines.DropIfPrefixed | worksample_data/training.py:14-20 | One substitution on a stripped line blanks it exactly when it starts with one of the pass's prefixes. Otherwise it leaves the line unchanged. |
| CommentLines.StartsWithOne | worksample_data/training.py:17-20 | A one-prefix pattern is a plain prefix test. |
| CommentLines.PrefixGroups | worksample_data/training.py:14-20 | Each pass's alternation is the disjunction of its prefixes. |
| CommentLines.PassStep | worksample_data/training.py:14-20 | After each pass the line is blank exactly when some pass so far matched, and is the stripped line otherwise. |
| CommentLines.CleanLine | worksample_data/training.py:14-21 | A line contributes either nothing or its stripped text, and its stripped text whenever that is not a comment. A non-empty contribution is not a comment and has no whitespace at either end. |
| CommentLines.CleanOneLine | worksample_data/training.py:14-20 | The seven passes leave nothing for a comment line and the stripped line for any other. |
| CommentLines.CleanLines | worksample_data/training.py:13-21 | The loop collects each line's contribution, in order. |
| CommentLines.CleanedLinesSnoc | worksample_data/training.py:21 | Appending a line appends its contribution. |
| CommentLines.CleanedLinesAppend | worksample_data/training.py:13-21 | The contributions of two runs of lines are the contributions of each, in order. |
| CommentLines.JoinedConcat | worksample_data/training.py:22 | The joined text of two runs of lines is the text of the first followed by that of the second. |
| CommentLines.JoinedAround | worksample_data/training.py:22 | Line `i` contributes its text between the lines before it and the lines after it. |
| CommentLines.EmptyContributionDropped | worksample_data/training.py:22 | A line contributing nothing can be removed without changing the text. |
| CommentLines.CommentLineDropped | worksample_data/training.py:14-20 | A comment line contributes nothing: the text is the same as without it. |
| CommentLines.CodeLineKept | worksample_data/training.py:21-22 | Any other line contributes its stripped text with no separator on either side. |
| CommentLines.LetterLine | worksample_data/training.py:14-21 | A one-letter line contributes that letter. |
| CommentLines.CleanedPair | worksample_data/training.py:13-21 | Two lines contribute their two contributions. |
| CommentLines.FusedText | worksample_data/training.py:22 | The lines `x` and `y` join to `xy`. |
| CommentLines.FusedRuns | worksample_data/training.py:22 | `xy` is one token. |
| CommentLines.WordsFuseAcrossLines | worksample_data/training.py:21-22 | The last word of one line and the first word of the next become one token. |
| CommentLines.FlattenWithoutLetters | worksample_data/training.py:22 | Joining letter-free parts gives a letter-free text. |
| CommentLines.CleanLineWithoutLetters | worksample_data/training.py:14-20 | A letter-free line contributes a letter-free text. |
| CommentLines.NoTokensWithoutLetters | worksample_data/training.py:10-23 | A file of comment lines and letter-free lines, or an empty file, yields no token. |
| Training.CleanFile | worksample_data/training.py:10-23 | `clean_file` returns exactly the lowered maximal letter runs of the joined, comment-free text. Each token is a non-empty lowercase ASCII word. |
| Training.Count | worksample_data/training.py:31 | `words.count(w)` is at most `len(words)`, and positive exactly when `w` occurs. |
| Training.CountSnoc | worksample_data/training.py:31 | One more word adds one to its own count and nothing to the others. |
| Training.SumCountsSnoc | worksample_data/training.py:25-33 | One more word adds its count among the keys to the sum of the counts. |
| Training.DistinctCount | worksample_data/training.py:27-31 | A key listed once is counted once. |
| Training.CountsSumToLength | worksample_data/training.py:25-33 | The counts of distinct keys covering every word add up to the number of words. |
| Training.SumCountsEmpty | worksample_data/training.py:25-33 | Nothing is counted in no words. |
| Training.SumOverCounts | worksample_data/training.py:25-33 | Stored counts add up like the counts themselves. |
| Training.Freq | worksample_data/training.py:25-33 | `freq` has exactly the distinct words as keys. Each value is that word's count, at least 1, and the values sum to `len(words)`. |
| Training.AboveTwiceMean | worksample_data/training.py:43-46 | The filter keeps no more keys than it is given. |
| Training.AboveTwiceMeanInOrder | worksample_data/training.py:43-46 | The kept keys are a sub-list of the keys: they appear in dict order. |
| Training.AboveTwiceMeanMembers | worksample_data/training.py:43-46 | A key is kept exactly when its value passes `v * n > 2 * total`, and distinct keys stay distinct. |
| Training.SumOverStep | worksample_data/training.py:37-39 | The running sum grows by each value in turn. |
| Training.AboveTwiceMeanStep | worksample_data/training.py:43-46 | The filter appends a key exactly when its value passes the test. |
| Training.SumValues | worksample_data/training.py:37-39 | The first loop of `avg` sums the values. |
| Training.KeepAboveTwiceMean | worksample_data/training.py:43-46 | The second loop keeps, in order, the keys whose value passes the test. |
| Training.Avg | worksample_data/training.py:35-48 | An empty dict raises ZeroDivisionError. Otherwise `avg` returns, each once and in order, exactly the keys with `d[w] * len(d) > 2 * sum`. |
| Training.SomeValueAtMostMean | worksample_data/training.py:41-46 | Some value of a non-empty dict is at most the mean. |
| Training.SumOverNonNegative | worksample_data/training.py:37-39 | Non-negative values have a non-negative sum. |
| Training.AvgLeavesSomeKeyOut | worksample_data/training.py:41-46 | On a non-empty dict of non-negative counts, `avg` never keeps every key. |
| Training.SumOverConstant | worksample_data/training.py:37-39 | `n` equal values `c` sum to `n * c`. |
| Training.AvgOfEqualCountsKeepsNothing | worksample_data/training.py:41-46 | When every count is the same, `avg` keeps nothing. |
| Training.ExtendEach | worksample_data/training.py:56-57 | The inner `+=` loop appends the file type's token lists in order and changes nothing else. |
| Training.MergedUpdate | worksample_data/training.py:53-57 | Storing a file type's concatenation keeps every stored file type correct. |
| Training.AddFileType | worksample_data/training.py:53-57 | One outer iteration appends file type `i` to the order, mapped to its concatenated lists. |
| Training.AddedFileType | worksample_data/training.py:53-57 | What one outer iteration leaves: the next key appended and every stored value correct. |
| Training.FilesToWords | worksample_data/training.py:50-58 | Same keys in the same order. Each value is the in-order concatenation of that type's token lists, as long as they are together. |
| FlaskMain.LowerWordsAreWords | flask_files/main.py:78 | Lowercase tokens hold no whitespace. |
| FlaskMain.CleanFile | flask_files/main.py:66-79 | The service's `clean_file` is the training tokens joined by single spaces. It holds only lowercase letters and single inner spaces, splits back into those tokens, and is empty exactly when there are none. |
| FlaskMain.NoTextWithoutLetters | flask_files/main.py:66-79 | An empty file, or one of comment lines and letter-free lines only, is cleaned to `""`. |
| WikiModels.KeyPairs | worksample_data/kt/397.kt:32 | `sections.map { it.key to it }` pairs every section with its key, in order. |
| WikiModels.WikiModel.constructor | worksample_data/kt/397.kt:10-12 | A new model has no sections page and an empty table. |
| WikiModels.WikiModel.Initialize | worksample_data/kt/397.kt:31-33 | `initialize(list)` replaces the table with `linkedMapOf` of the key pairs and leaves the sections page alone. |
| WikiModels.WikiModel.GetSection | worksample_data/kt/397.kt:35-41 | `getSection(k)` finds a section only for a non-blank key present in the table, and then the one stored under `k`. |
| WikiModels.WikiModel.AllPages | worksample_data/kt/397.kt:14-29 | `allPages` lists, in table order, each section's summary page, wiki pages and book page if any, then the sections page if any. It changes nothing. |
| WikiModels.AllPagesCount | worksample_data/kt/397.kt:17-26 | The list has `1 + wikiPages + (bookPage? 1 : 0)` pages per section, plus one for a sections page. |
| WikiModels.PageListed | worksample_data/kt/397.kt:17-23 | A page is listed exactly when some section of the table holds it. |
| WikiModels.InitializedTable | worksample_data/kt/397.kt:31-33 | After `initialize(list)`, each key maps to the last section in the list with that key. |
| WikiModels.InitializedMissing | worksample_data/kt/397.kt:31-33 | After `initialize(list)`, a key no section of the list has is not in the table. |
| WikiModels.InitializeThenGet | worksample_data/kt/397.kt:31-41 | `initialize` followed by `getSection` on a non-blank key finds the last section with that key. |

## Left out

- Concurrency.
  - The mutex of `push` and `snapshot` is not modelled, so each of them is one sequential step.
  - The code reads in `get` and `iterator` without the lock; races between them and `push` are not modelled.
  - The suspension of the coroutines is not modelled.
- The 32-bit `Int` of `startIndex` is not modelled. `startIndex` is an unbounded `nat` here, whereas the code's counter would wrap negative after about 2^31 evictions.
- Capacity 0 is not excluded by a precondition, because the code never checks it. `Push` on an empty store returns a `DivisionByZero` failure and changes nothing, as the `%` throws before the write.
- A negative `size` given to `build` or `boxing` is not modelled: the factories take a `nat` capacity. The code does not check the sign either; it leaves the outcome to the buffer library, which is not part of this model.
- `MutableBuffer.auto`'s choice of a specialised buffer is not modelled: the store is an `array<Option<T>>`, with `None` for `null`.
- `VirtualBuffer` and `Buffer` are not part of this model. A snapshot view is read only at indices in `[0, size)`, a precondition on its `Get`; the bounds check `VirtualBuffer` may make is not modelled.
- RingBuffers.LiveSnapshot.Get: its own contract says only that the read stays inside the copy. Its value right after capture is stated by `RingBuffer.Snapshot`, and its drift by the examples.
- The `Failed` state of Kotlin's `AbstractIterator`, reached after an exception in `computeNext`, is not modelled. `Drain` stops at the first failure.
- Whitespace is the ASCII part of Python's `str.isspace` and Kotlin's `isWhitespace`: tab to carriage return, 0x1C to 0x1F and space. `strip()` and `isNotBlank()` on other Unicode whitespace are not modelled.
- Lowercasing only needs to be exact for ASCII letters, which are all the masked text can contain.
- A line given to `clean_file` must be a `readlines()` line, with a line feed only as its last character, as the function's docstring demands. With such lines every substitution is a prefix test on the stripped line. Lines holding inner line feeds are not modelled.
- The floating-point division of `avg` is not modelled. The comparison `d[w] > 2 * (sum / n)` is modelled exactly as the integer `d[w] * n > 2 * sum`, so float rounding is not captured.
- Training.AvgLeavesSomeKeyOut: stated for non-negative values only, such as the counts `freq` produces. With negative values the mean can be negative.
- The key order of `freq` follows the iteration order of a Python `set`, which is unspecified. The model picks the keys in an arbitrary order and proves nothing about that order.
- The script's `main` is not modelled: the file-system walk, file reading, pandas, scikit-learn, joblib and CSV output are I/O and library calls.
- The prediction routes `predict` and `predict_stats` of the service are not modelled: HTTP, UTF-8 decoding, model loading, memory tracing and timing.
- Which page type the sections page has is not modelled: `WikiSectionsPage` is treated as an `OrchidPage`.
- The other Kotlin files of the repository are not part of this model.

## Findings

| source | as written | input that shows it | evidently intended | confidence | as-written member | corrected member |
|---|---|---|---|---|---|---|
| worksample_data/kt/908.kt:38 | The iterator starts at `index = startIndex`, which `push` increments without reducing. Only the later moves reduce it to a slot. | `boxing(1)`, then `push(7)` and `push(8)`, then iterate: `startIndex` is 1, so the first read is slot 1 of a one-slot copy and throws. | `index = startIndex.forward(0)`, as in `get`. It then yields `get(0) .. get(size - 1)`. | not executed | RingBuffers.IteratorOverrunExample | RingBuffers.RingBuffer.ElementsCorrected |
| worksample_data/kt/908.kt:59 | The snapshot lambda reads the live `startIndex` field on every access, while the store is copied at capture. | `boxing(2)`, `push(1)`, `push(2)`, then `snapshot()` and `push(3)`: the snapshot's element 0 is 2 and no longer 1. It is `null` when only 1 had been pushed before the snapshot. | Capture `startIndex` together with the copy, so that the snapshot is independent of later pushes. | not executed | RingBuffers.SnapshotDriftExample | RingBuffers.PushLeavesStableSnapshot |
