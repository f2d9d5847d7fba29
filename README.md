# Alkitab search engine, modelled in Dafny

This project models `SearchEngine`, the verse search of the Alkitab Bible reader,
and proves properties of that model. It covers:

- the **grep search**. `searchByGrep` sorts the query tokens longest first and drops
  duplicates. It scans every chapter of the selected books for the first word. Each
  further word is scanned for only in the book-chapters of the previous result
  (`nextAri`, `searchByGrepInside`), and the two results are intersected
  (`intersect`).
- the **per-chapter scan** `searchByGrepForOneChapter`. It turns the offsets of
  matches into verse addresses by counting the `'\n'` separators in front of them.
- the **word tests** `indexOfWholeWord` and `satisfiesQuery`.
- the **reverse index**:
  - the binary format and its decoder, `loadRevIndex`, with its cache;
  - the retokenizing of a query into lookup tokens and multiword phrases;
  - the OR/AND bitmaps over verse numbers (lids);
  - the conversion of surviving lids to verse addresses within the selected books;
  - the final phrase check against the verse texts (`searchByRevIndex`).
- the **highlighter** `hilite`. It lowercases the text, then walks a cursor along
  it, marking at each step the earliest next occurrence of any query word.

Layout:

| File | Contents |
|---|---|
| `Wrappers.dfy` | `Option`, the model of Java's `null` |
| `Collaborators.dfy` | what the engine calls but does not define, passed in as an `Env` of functions (see Left out), and the corpus (`Version`: books, chapter texts, verse lists) |
| `TextSearch.dfy` | `String.indexOf` / `contains`, `indexOfWholeWord`, the search a token's plus selects, `satisfiesQuery` |
| `SortedSets.dfy` | `intersect` and the merge-join it performs |
| `QueryWords.dfy` | the sort and duplicate removal of `searchByGrep` |
| `GrepChapter.dfy` | `searchByGrepForOneChapter` |
| `GrepSearch.dfy` | `nextAri`, `searchByGrepInside`, `searchByGrep` |
| `GrepNarrowing.dfy` | what `searchByGrep` finds, under the `Ari` laws and a corpus whose numbers fit its fields |
| `RevIndexFormat.dfy` | the index file format, a decoder function and an encoder; the round trip |
| `RevIndexLoader.dfy` | the decode loops of `loadRevIndex` and the cache |
| `IndexedQuery.dfy` | retokenizing and the book scope of `searchByRevIndex` |
| `LidBitmap.dfy` | the bitmaps and the lid-to-address conversion |
| `PhraseFilter.dfy` | the multiword phrase pass |
| `IndexedSearch.dfy` | `searchByRevIndex` as a whole, with its fall-back to `searchByGrep` |
| `Highlighter.dfy` | `hilite` |

Each loop of the source is a method. Each method is proved equal to a function
that specifies it, and lemmas state what those functions mean. Where the
behaviour of the code differs from its documentation, the model follows the code:

- `searchByGrep` returns `null`, not an empty list, when the query has no token.
  The model returns `None`.
- The phrase pass dereferences the loaded chapter without a null check. A verse
  whose book is missing is checked against the chapter loaded for an earlier
  verse, if there is one. The pass throws a `NullPointerException`, instead of
  skipping the verse, only when it holds no chapter: the chapter load returned
  null, or no chapter has been loaded before this verse. The model's outcome is
  then `Crash`.
- When no index loads, `searchByRevIndex` hands the query to `searchByGrep`. With tokens
  and a null book selection, its first word's book loop reads the null selection and
  throws at the first book. The model's outcome is then `Crash`; with no book in the
  version, the result is empty.
- A plussed phrase that is empty once its plus is stripped leaves an empty word for
  `indexOfWholeWord`.
  That search finds the empty word at the first offset no letter touches. On a verse
  where every offset touches a letter, such as `"a"`, the loop restarts at the end of
  the text forever, and `searchByRevIndex` never returns. The model's outcome is then
  `Hang`.
- The index decoder does not check that the word counts add up to the stored total.
  It stops once the running count reaches or passes the total, and it always reads
  at least one group.
- In `searchByGrepForOneChapter` a plussed multiword token is split into words, but
  the split is never used. The whole token is matched literally as one whole word.
- A match after the last `'\n'` of a chapter text is never recorded. The scan gives
  up when it runs out of newlines. When the text has no trailing separator, this
  drops the matches in the last verse.

## Model

| member | source | states |
|---|---|---|
| Collaborators.GetBook | Alkitab/src/main/java/yuku/alkitab/base/util/SearchEngine.java:220 | `version.getBook(id)`: a book is returned only if it is in the version and carries that id; `None` (null) only if no book of the version has it |
| TextSearch.MatchesAtMeans | Alkitab/src/main/java/yuku/alkitab/base/util/SearchEngine.java:643 | a word occurs at offset `p` exactly when the text slice at `p` equals the word |
| TextSearch.IndexOfFindsFirst | Alkitab/src/main/java/yuku/alkitab/base/util/SearchEngine.java:643 | `indexOf(word, start)` gives the first occurrence at or after `start`, and -1 exactly when there is none; an empty word gives `start`, clipped to the length |
| TextSearch.ContainsMeansMatch | Alkitab/src/main/java/yuku/alkitab/base/util/SearchEngine.java:396 | `contains` holds exactly when the word occurs at some offset |
| TextSearch.IndexOfCharFindsFirst | Alkitab/src/main/java/yuku/alkitab/base/util/SearchEngine.java:272-277 | `indexOf('\n', from)` is the first newline at or after `from`, and -1 exactly when none follows |
| TextSearch.WholeWordIndexFindsFirst | Alkitab/src/main/java/yuku/alkitab/base/util/SearchEngine.java:631-672 | the whole-word search gives the first offset at or after `start` where the word occurs with no letter directly before or after it, and -1 exactly when there is none |
| TextSearch.WholeWordIndexSkip | Alkitab/src/main/java/yuku/alkitab/base/util/SearchEngine.java:653-666 | moving the start past offsets that hold no whole-word occurrence does not change the result |
| TextSearch.WholeWordExample | Alkitab/src/main/java/yuku/alkitab/base/util/SearchEngine.java:631-637 | in "cat concatenate cats" only the first "cat" stands alone: it is found at 0, and nothing is found from offset 1 on, though "cat" occurs glued to letters at 7 and 16 |
| TextSearch.EmptyWordIndexFindsFirst | Alkitab/src/main/java/yuku/alkitab/base/util/SearchEngine.java:639-672 | with an empty word, the first offset from `p` on that no letter touches on either side, and -1 exactly when there is none |
| TextSearch.WholeWordLookupMeans | Alkitab/src/main/java/yuku/alkitab/base/util/SearchEngine.java:639-672 | `indexOfWholeWord` returns the first whole-word occurrence from `start` on (from the end when `start` lies past it); it returns -1 exactly when a non-empty word has none, and never returns exactly when an empty word has none |
| TextSearch.EmptyWordExample | Alkitab/src/main/java/yuku/alkitab/base/util/SearchEngine.java:639-672 | with an empty word the search returns 0 on " a" and never returns on "a", where both offsets touch the letter |
| TextSearch.IndexOfWholeWord | Alkitab/src/main/java/yuku/alkitab/base/util/SearchEngine.java:639-672 | the loop (restart one past a match glued to a letter on either side) computes the lookup, for any word; it stops with `Endless` where the source would repeat the same round forever |
| TextSearch.SatisfiesQuery | Alkitab/src/main/java/yuku/alkitab/base/util/SearchEngine.java:611-629 | true exactly when every token occurs in the text: a plussed token, without its plus, as a whole word; any other token as a substring |
| SortedSets.MergeJoinSubsequence | Alkitab/src/main/java/yuku/alkitab/base/util/SearchEngine.java:137-153 | the merge keeps elements of both lists in their order: the result is a subsequence of each input, whatever the inputs |
| SortedSets.MergeJoinIntersects | Alkitab/src/main/java/yuku/alkitab/base/util/SearchEngine.java:137-153 | on strictly ascending lists the merge yields a strictly ascending list holding exactly the elements common to both |
| SortedSets.MergeJoinCommutes | Alkitab/src/main/java/yuku/alkitab/base/util/SearchEngine.java:126-156 | on strictly ascending lists the order of the two arguments does not matter |
| SortedSets.MergeJoinIdempotent | Alkitab/src/main/java/yuku/alkitab/base/util/SearchEngine.java:126-156 | intersecting any list with itself gives it back |
| SortedSets.Intersect | Alkitab/src/main/java/yuku/alkitab/base/util/SearchEngine.java:126-156 | the two-cursor loop computes the merge: its result is a subsequence of both inputs, and, for ascending inputs, ascending with exactly the common elements |
| QueryWords.CompareToZero | Alkitab/src/main/java/yuku/alkitab/base/util/SearchEngine.java:85 | `String.compareTo` is 0 exactly on equal strings |
| QueryWords.CompareToFlips | Alkitab/src/main/java/yuku/alkitab/base/util/SearchEngine.java:85 | swapping the arguments of `compareTo` negates the result |
| QueryWords.CompareToTransitive | Alkitab/src/main/java/yuku/alkitab/base/util/SearchEngine.java:85 | `compareTo` is transitive |
| QueryWords.CompareTokensZero | Alkitab/src/main/java/yuku/alkitab/base/util/SearchEngine.java:79-88 | the token comparator (longer first, then `compareTo`) is 0 exactly on equal tokens |
| QueryWords.CompareTokensFlips | Alkitab/src/main/java/yuku/alkitab/base/util/SearchEngine.java:79-88 | the token comparator is antisymmetric |
| QueryWords.CompareTokensTransitive | Alkitab/src/main/java/yuku/alkitab/base/util/SearchEngine.java:79-88 | the token comparator is transitive, so `Arrays.sort` is given a valid total order |
| QueryWords.SortTokensSorts | Alkitab/src/main/java/yuku/alkitab/base/util/SearchEngine.java:78-88 | the sort yields a permutation of the tokens, ordered by the comparator |
| QueryWords.SortedPermutationUnique | Alkitab/src/main/java/yuku/alkitab/base/util/SearchEngine.java:78-88 | two sorted permutations of the same tokens are equal, so the sorted order does not depend on how `Arrays.sort` works |
| QueryWords.DedupMembers | Alkitab/src/main/java/yuku/alkitab/base/util/SearchEngine.java:90-102 | duplicate removal keeps only words of the list, and every word of the list except the initial `last` |
| QueryWords.DedupStrictlySorted | Alkitab/src/main/java/yuku/alkitab/base/util/SearchEngine.java:90-102 | on a sorted list, dropping adjacent repeats yields a strictly sorted list, so no word is left twice |
| QueryWords.SearchWords | Alkitab/src/main/java/yuku/alkitab/base/util/SearchEngine.java:76-102 | the words to search are exactly the query's tokens |
| QueryWords.SearchWordsMeaning | Alkitab/src/main/java/yuku/alkitab/base/util/SearchEngine.java:76-102 | those words are strictly ordered (longest first, distinct), and there are none exactly when the query has no token |
| QueryWords.DedupExample | Alkitab/src/main/java/yuku/alkitab/base/util/SearchEngine.java:78-102 | "love love faith" is searched as "faith", "love" |
| QueryWords.RemoveDuplicates | Alkitab/src/main/java/yuku/alkitab/base/util/SearchEngine.java:90-102 | the loop comparing each word with the previous one (null at first) computes the duplicate removal |
| TextSearch.FindFindsFirst | Alkitab/src/main/java/yuku/alkitab/base/util/SearchEngine.java:254-265 | the search for a token's next occurrence, as the scan (and `hilite`) makes it, finds the first accepted match at or after the cursor (a whole word for a plussed token, a substring otherwise), and -1 exactly when there is none |
| TextSearch.FindNext | Alkitab/src/main/java/yuku/alkitab/base/util/SearchEngine.java:286-292 | one call of `indexOfWholeWord` or `indexOf`, chosen by the plus, is that search |
| GrepChapter.ScanHitsSound | Alkitab/src/main/java/yuku/alkitab/base/util/SearchEngine.java:274-297 | every address recorded from a match on is the verse of an accepted match at or after it that has a newline after it |
| GrepChapter.ScanHitsComplete | Alkitab/src/main/java/yuku/alkitab/base/util/SearchEngine.java:274-297 | every accepted match with a newline after it has its verse recorded, unless it is the verse recorded last (for a word without `'\n'`) |
| GrepChapter.ChapterHitsAscending | Alkitab/src/main/java/yuku/alkitab/base/util/SearchEngine.java:240-298 | the addresses recorded for one chapter strictly ascend, so each verse is recorded at most once |
| GrepChapter.ChapterHitsSound | Alkitab/src/main/java/yuku/alkitab/base/util/SearchEngine.java:240-298 | each recorded address is `ariBc` plus the 1-based verse of an accepted match with a newline after it, and lies within the chapter's verses |
| GrepChapter.ChapterHitsComplete | Alkitab/src/main/java/yuku/alkitab/base/util/SearchEngine.java:240-298 | the verse of every accepted match with a newline after it is recorded (for a word without `'\n'`) |
| GrepChapter.SearchByGrepForOneChapter | Alkitab/src/main/java/yuku/alkitab/base/util/SearchEngine.java:240-298 | the scan appends to `res` exactly the chapter's hits, and nothing when the chapter text is null |
| GrepSearch.SkipRun | Alkitab/src/main/java/yuku/alkitab/base/util/SearchEngine.java:167-182 | the run skip stops within the list, at an entry whose book-chapter differs from the last one, or at the end |
| GrepSearch.SkipRunSkipsRun | Alkitab/src/main/java/yuku/alkitab/base/util/SearchEngine.java:167-182 | every entry skipped has the last book-chapter |
| GrepSearch.NextAri | Alkitab/src/main/java/yuku/alkitab/base/util/SearchEngine.java:162-183 | returns the book-chapter of the first entry from `ppos[0]` on that differs from `lastAriBc` and moves `ppos[0]` one past it; returns 0 and leaves `ppos` alone when there is none |
| GrepSearch.RunKeysAscending | Alkitab/src/main/java/yuku/alkitab/base/util/SearchEngine.java:211-226 | when the book-chapters of the source never decrease and are never 0, the book-chapters the driver visits strictly ascend |
| GrepSearch.RunKeysMembers | Alkitab/src/main/java/yuku/alkitab/base/util/SearchEngine.java:211-226 | in that case the driver visits exactly the book-chapters of the source other than the one it starts from |
| GrepSearch.DriverVisitsEachChapterOnce | Alkitab/src/main/java/yuku/alkitab/base/util/SearchEngine.java:207-226 | for an ascending previous result and a monotone `toBookChapter`, the driver visits each book-chapter of that result exactly once, in ascending order |
| GrepSearch.ChaptersHitsSound | Alkitab/src/main/java/yuku/alkitab/base/util/SearchEngine.java:199-203 | every address found in a book comes from one of the chapters 1..`chapter_count` |
| GrepSearch.ChaptersHitsComplete | Alkitab/src/main/java/yuku/alkitab/base/util/SearchEngine.java:199-203 | every hit of one of those chapters is found |
| GrepSearch.BooksHitsMembers | Alkitab/src/main/java/yuku/alkitab/base/util/SearchEngine.java:193-206 | with no previous result, an address is found exactly when it is a hit in a chapter of a selected book |
| GrepSearch.KeyedHitsMembers | Alkitab/src/main/java/yuku/alkitab/base/util/SearchEngine.java:211-226 | with a previous result, an address is found exactly when it is a hit in one of the book-chapters visited |
| GrepSearch.ScanBook | Alkitab/src/main/java/yuku/alkitab/base/util/SearchEngine.java:199-203 | the chapter loop appends the hits of every chapter of the book |
| GrepSearch.ScanSelectedBooks | Alkitab/src/main/java/yuku/alkitab/base/util/SearchEngine.java:193-206 | the book loop collects the hits of the selected books, in book order |
| GrepSearch.ScanSourceChapters | Alkitab/src/main/java/yuku/alkitab/base/util/SearchEngine.java:207-229 | the `nextAri` driver collects the hits of the book-chapters it visits |
| GrepSearch.SearchByGrepInside | Alkitab/src/main/java/yuku/alkitab/base/util/SearchEngine.java:185-232 | the result is the hits of the token, stripped of its plus, in the selected books or in the previous result's chapters |
| GrepSearch.NarrowSubsequence | Alkitab/src/main/java/yuku/alkitab/base/util/SearchEngine.java:104-123 | once there is a result, each further word only narrows it: the final result is a subsequence of it |
| GrepSearch.NarrowResult | Alkitab/src/main/java/yuku/alkitab/base/util/SearchEngine.java:104-123 | the result is null exactly when there is no word; otherwise it is a subsequence of the first word's hits, and ascending when those are |
| GrepSearch.SearchByGrep | Alkitab/src/main/java/yuku/alkitab/base/util/SearchEngine.java:75-124 | sorts, de-duplicates and narrows word by word, and returns null exactly when the query has no token |
| GrepNarrowing.AriPackingLaws | Alkitab/src/main/java/yuku/alkitab/base/util/SearchEngine.java:201 | the packing of book, chapter and verse into one address, 8 bits each, meets the `Ari` laws the narrowing proofs assume |
| GrepNarrowing.ChapterHitRange | Alkitab/src/main/java/yuku/alkitab/base/util/SearchEngine.java:201-202 | an address recorded for chapter `c` of book `b` lies strictly above `encode(b, c, 0)` and within 255 of it, and its book-chapter is that base |
| GrepNarrowing.HitKey | Alkitab/src/main/java/yuku/alkitab/base/util/SearchEngine.java:199-202 | a hit in a selected book's chapter lies just above that chapter's base address, which decodes back to the book id and chapter number |
| GrepNarrowing.KeysGap | Alkitab/src/main/java/yuku/alkitab/base/util/SearchEngine.java:199-201 | the base addresses of two different chapters of the corpus lie more than 255 apart |
| GrepNarrowing.ListedKey | Alkitab/src/main/java/yuku/alkitab/base/util/SearchEngine.java:215-221 | the book-chapter of any hit is the base address of a chapter of a selected book, just below the hit |
| GrepNarrowing.ChaptersHitsAscending | Alkitab/src/main/java/yuku/alkitab/base/util/SearchEngine.java:199-203 | the hits collected over the chapters of one book strictly ascend |
| GrepNarrowing.BooksHitsAscending | Alkitab/src/main/java/yuku/alkitab/base/util/SearchEngine.java:193-206 | with no previous result, the hits collected over the selected books strictly ascend |
| GrepNarrowing.KeyedHitsAscending | Alkitab/src/main/java/yuku/alkitab/base/util/SearchEngine.java:211-226 | the hits collected over ascending chapter bases strictly ascend |
| GrepNarrowing.PreviousKeys | Alkitab/src/main/java/yuku/alkitab/base/util/SearchEngine.java:107-112 | any ascending list of hits meets what the `nextAri` driver needs (book-chapters never decrease and are never 0), and every chapter it visits belongs to a selected book |
| GrepNarrowing.KeyedHitIsWordHit | Alkitab/src/main/java/yuku/alkitab/base/util/SearchEngine.java:211-226 | a hit found in a visited chapter is a hit of the word in the selected books |
| GrepNarrowing.WordHitIsKeyed | Alkitab/src/main/java/yuku/alkitab/base/util/SearchEngine.java:211-226 | an address of the previous result that is a hit of the word is found again in the chapters the driver visits |
| GrepNarrowing.NarrowStep | Alkitab/src/main/java/yuku/alkitab/base/util/SearchEngine.java:107-120 | one more word, searched inside the previous result and intersected with it, leaves an ascending list of exactly the addresses that are hits of every word so far |
| GrepNarrowing.NarrowFrom | Alkitab/src/main/java/yuku/alkitab/base/util/SearchEngine.java:107-121 | narrowing by the remaining words keeps exactly the addresses that are hits of all the words, in ascending order |
| GrepNarrowing.NarrowMeaning | Alkitab/src/main/java/yuku/alkitab/base/util/SearchEngine.java:104-123 | for a non-empty word list the loop returns an ascending list holding exactly the addresses that are hits of every word |
| GrepNarrowing.SearchByGrepMeaning | Alkitab/src/main/java/yuku/alkitab/base/util/SearchEngine.java:75-124 | `searchByGrep` returns an ascending list, and an address is in it exactly when every query token has a hit there (the sort and duplicate removal change nothing) |
| RevIndexFormat.ReadUint8 | Alkitab/src/main/java/yuku/alkitab/base/util/SearchEngine.java:566 | reading a byte succeeds exactly when one is left, gives 0..255 and advances by one |
| RevIndexFormat.ReadUint16 | Alkitab/src/main/java/yuku/alkitab/base/util/SearchEngine.java:573 | reading a `uint16` succeeds exactly when two bytes are left, gives 0..65535 and advances by two |
| RevIndexFormat.ReadInt | Alkitab/src/main/java/yuku/alkitab/base/util/SearchEngine.java:562 | reading an `int` succeeds exactly when four bytes are left, gives a 32-bit signed value and advances by four |
| RevIndexFormat.ReadRaw | Alkitab/src/main/java/yuku/alkitab/base/util/SearchEngine.java:570-571 | reading a word succeeds exactly when `word_len` bytes are left, and gives a string of that length |
| RevIndexFormat.DecodeLid | Alkitab/src/main/java/yuku/alkitab/base/util/SearchEngine.java:578-586 | a byte below 0x80 is a delta added to the last lid (one byte read); otherwise two bytes give an absolute lid in 0..32767 |
| RevIndexFormat.LidMask | Alkitab/src/main/java/yuku/alkitab/base/util/SearchEngine.java:584 | for a high byte with bit 7 set, keeping the low 15 bits of the two bytes drops exactly that bit |
| RevIndexFormat.DecodeLids | Alkitab/src/main/java/yuku/alkitab/base/util/SearchEngine.java:573-588 | a verse list, when read, holds exactly `lid_count` lids |
| RevIndexFormat.DecodeLidsSteps | Alkitab/src/main/java/yuku/alkitab/base/util/SearchEngine.java:530-535 | each decoded lid is either at least the one before it (a delta) or an absolute 15-bit lid, and none is negative |
| RevIndexFormat.HeaderOnlyFails | Alkitab/src/main/java/yuku/alkitab/base/util/SearchEngine.java:562-567 | a file shorter than the total plus one group header (9 bytes) loads no index, even when the total is 0 |
| RevIndexFormat.Uint16RoundTrip | Alkitab/src/main/java/yuku/alkitab/base/util/SearchEngine.java:525 | reading back a written `uint16` gives the value and moves past it |
| RevIndexFormat.IntRoundTrip | Alkitab/src/main/java/yuku/alkitab/base/util/SearchEngine.java:519 | reading back a written `int` gives the value and moves past it |
| RevIndexFormat.StringRoundTrip | Alkitab/src/main/java/yuku/alkitab/base/util/SearchEngine.java:524 | a word of 8-bit characters survives being stored one byte per character |
| RevIndexFormat.RawRoundTrip | Alkitab/src/main/java/yuku/alkitab/base/util/SearchEngine.java:524 | reading back a stored word gives the word |
| RevIndexFormat.LidRoundTrip | Alkitab/src/main/java/yuku/alkitab/base/util/SearchEngine.java:530-535 | a lid written as a delta or as an absolute 15-bit value decodes to itself |
| RevIndexFormat.LidsRoundTrip | Alkitab/src/main/java/yuku/alkitab/base/util/SearchEngine.java:530-535 | a written verse list of lids below 32768 decodes to itself, ending right after it |
| RevIndexFormat.DocumentedExample | Alkitab/src/main/java/yuku/alkitab/base/util/SearchEngine.java:536-537 | lids [0xff, 0x100, 0x300, 0x305] are stored as 80 ff 01 83 00 05, and those bytes decode back to them |
| RevIndexFormat.EntriesRoundTrip | Alkitab/src/main/java/yuku/alkitab/base/util/SearchEngine.java:569-591 | the words of a written length group are read back into the index, each with its lids, ending right after them |
| RevIndexFormat.DecodeGroupsStep | Alkitab/src/main/java/yuku/alkitab/base/util/SearchEngine.java:565-597 | after each group the running word count is compared with the total: reading stops once it is reached or passed, and goes on to the next group otherwise |
| RevIndexFormat.GroupsDecode | Alkitab/src/main/java/yuku/alkitab/base/util/SearchEngine.java:565-597 | written non-empty groups whose word counts add up to the total are all read into the index |
| RevIndexFormat.DecodeLastGroup | Alkitab/src/main/java/yuku/alkitab/base/util/SearchEngine.java:565-597 | a group that brings the running count to the total ends the reading, with its words added to the index |
| RevIndexFormat.DecodeNextGroup | Alkitab/src/main/java/yuku/alkitab/base/util/SearchEngine.java:565-597 | a group that leaves the running count below the total is added, and reading goes on right after it |
| RevIndexFormat.RevIndexRoundTrip | Alkitab/src/main/java/yuku/alkitab/base/util/SearchEngine.java:514-597 | a file written in the documented format from non-empty groups decodes to the index holding every word with its lids |
| RevIndexLoader.ReadLid | Alkitab/src/main/java/yuku/alkitab/base/util/SearchEngine.java:578-586 | the reads of one lid decode it as specified |
| RevIndexLoader.ReadVerseList | Alkitab/src/main/java/yuku/alkitab/base/util/SearchEngine.java:573-588 | the lid loop, filling an array of `lid_count`, decodes the verse list as specified |
| RevIndexLoader.ReadWords | Alkitab/src/main/java/yuku/alkitab/base/util/SearchEngine.java:569-591 | the word loop of a length group puts every word with its lids into the index as specified |
| RevIndexLoader.ReadRevIndex | Alkitab/src/main/java/yuku/alkitab/base/util/SearchEngine.java:558-602 | the group loop decodes the whole file as specified, `None` when a read runs past the end |
| RevIndexLoader.RevIndexCache.constructor | Alkitab/src/main/java/yuku/alkitab/base/util/SearchEngine.java:72 | the cache starts empty |
| RevIndexLoader.RevIndexCache.Clear | Alkitab/src/main/java/yuku/alkitab/base/util/SearchEngine.java:540-542 | the soft reference can be cleared, leaving the cache empty |
| RevIndexLoader.RevIndexCache.Load | Alkitab/src/main/java/yuku/alkitab/base/util/SearchEngine.java:539-606 | a cached index is returned unchanged; otherwise a missing asset gives null; otherwise the file is decoded, and only a successful decoding is cached |
| IndexedQuery.AddAllMeans | Alkitab/src/main/java/yuku/alkitab/base/util/SearchEngine.java:329-347 | adding to a `LinkedHashSet` keeps it free of duplicates, keeps what was there in front, and gives the union of the old contents and the new items |
| IndexedQuery.AddEach | Alkitab/src/main/java/yuku/alkitab/base/util/SearchEngine.java:338-344 | the loop adding each word of a phrase performs that insertion |
| IndexedQuery.ExpandAllMembers | Alkitab/src/main/java/yuku/alkitab/base/util/SearchEngine.java:330-348 | the lookup tokens come from expanding the query tokens: a phrase gives its words (each plussed when the phrase is); any other token gives itself |
| IndexedQuery.PhrasesMembers | Alkitab/src/main/java/yuku/alkitab/base/util/SearchEngine.java:331-335 | the phrases are exactly the multiword tokens of the query, without repeats |
| IndexedQuery.RetokenizedMeaning | Alkitab/src/main/java/yuku/alkitab/base/util/SearchEngine.java:319-365 | the lookup tokens are distinct and are exactly the expansions of the query tokens; the phrase list is null exactly when no token is a phrase, and otherwise lists the phrases once each |
| IndexedQuery.Retokenize | Alkitab/src/main/java/yuku/alkitab/base/util/SearchEngine.java:319-365 | the retokenizing loop computes those tokens and phrases |
| IndexedQuery.SearchedBooks | Alkitab/src/main/java/yuku/alkitab/base/util/SearchEngine.java:369-381 | each of the 66 flags says whether the book is selected (all of them for a null selection), and `wholeBibleSearched` holds exactly when all 66 are |
| LidBitmap.HitAmongAdd | Alkitab/src/main/java/yuku/alkitab/base/util/SearchEngine.java:389-404 | taking in one more index word sets exactly the rows of that word when it answers the token, so the order of the map's entries is irrelevant |
| LidBitmap.MarkToken | Alkitab/src/main/java/yuku/alkitab/base/util/SearchEngine.java:384-405 | after the OR pass a row is set exactly when some index word answering the token lists that lid: equal to the bare token when plussed, containing it otherwise |
| LidBitmap.AndInto | Alkitab/src/main/java/yuku/alkitab/base/util/SearchEngine.java:413-416 | the AND pass leaves each row set exactly when it was set in both bitmaps |
| LidBitmap.MatchTokens | Alkitab/src/main/java/yuku/alkitab/base/util/SearchEngine.java:315-418 | after the token loop a row is set exactly when every lookup token hits it; with no token, every row |
| LidBitmap.ConvertedMembers | Alkitab/src/main/java/yuku/alkitab/base/util/SearchEngine.java:420-435 | an address is in the list exactly when a surviving lid of a searched book maps to it, and it is positive |
| LidBitmap.ConvertedAscending | Alkitab/src/main/java/yuku/alkitab/base/util/SearchEngine.java:420-435 | when the lid table maps lids to addresses in increasing order, the list strictly ascends |
| LidBitmap.ConvertLids | Alkitab/src/main/java/yuku/alkitab/base/util/SearchEngine.java:420-435 | the conversion loop computes that list, checking the book only when not every book is searched |
| PhraseFilter.PhraseCheckMeans | Alkitab/src/main/java/yuku/alkitab/base/util/SearchEngine.java:476 | a phrase passes a verse exactly when its bare text occurs in it, as a whole word when plussed; its test never returns exactly when the phrase is plussed, empty once stripped, and no boundary of the verse is free of letters |
| PhraseFilter.SplitPlusses | Alkitab/src/main/java/yuku/alkitab/base/util/SearchEngine.java:443-451 | the arrays hold each phrase's bare text and plus flag |
| PhraseFilter.VerseVerdictPasses | Alkitab/src/main/java/yuku/alkitab/base/util/SearchEngine.java:471-480 | the inner loop passes a verse exactly when every phrase occurs in it |
| PhraseFilter.VerseVerdictHangs | Alkitab/src/main/java/yuku/alkitab/base/util/SearchEngine.java:471-480 | the inner loop never returns exactly when the test of some phrase never returns and every phrase before it passes |
| PhraseFilter.SearchableVerdict | Alkitab/src/main/java/yuku/alkitab/base/util/SearchEngine.java:471-480 | with no plussed phrase empty once stripped, the inner loop always returns |
| PhraseFilter.PassesPhrases | Alkitab/src/main/java/yuku/alkitab/base/util/SearchEngine.java:471-480 | the inner loop gives the verdict on the verse: passed, failed at the first phrase it lacks, or `None` where a search never returns |
| PhraseFilter.SwitchChapter | Alkitab/src/main/java/yuku/alkitab/base/util/SearchEngine.java:458-465 | the chapter is reloaded only when the book-chapter changes and the book exists; otherwise the loaded one is kept |
| PhraseFilter.PhrasePassSubsequence | Alkitab/src/main/java/yuku/alkitab/base/util/SearchEngine.java:453-486 | when the pass ends normally, its result is a subsequence of the addresses it is given |
| PhraseFilter.SearchablePassEnds | Alkitab/src/main/java/yuku/alkitab/base/util/SearchEngine.java:453-486 | with no plussed phrase empty once stripped, the pass never hangs |
| PhraseFilter.KeptMembers | Alkitab/src/main/java/yuku/alkitab/base/util/SearchEngine.java:467-485 | the verses kept are exactly the given ones whose verse number is in range and whose text contains every phrase |
| PhraseFilter.PhrasePassKept | Alkitab/src/main/java/yuku/alkitab/base/util/SearchEngine.java:453-486 | when every chapter can be loaded, the pass does not crash; it hangs exactly when the inner loop hangs on the verse of a listed address, and otherwise keeps exactly the verses that pass, in order |
| PhraseFilter.FilterPhrases | Alkitab/src/main/java/yuku/alkitab/base/util/SearchEngine.java:438-491 | the phrase loop, with its one-chapter cache, computes the pass: `Crashed` is the null dereference, `Hung` a phrase search that never returns |
| IndexedSearch.SurvivorsMeaning | Alkitab/src/main/java/yuku/alkitab/base/util/SearchEngine.java:319-418 | a row survives the bitmaps exactly when every word of every query token, phrases split into their words, is answered by an index word listing the lid |
| IndexedSearch.IndexedArisMembers | Alkitab/src/main/java/yuku/alkitab/base/util/SearchEngine.java:369-435 | the address list before the phrase pass holds exactly the positive addresses of surviving lids in the selected books |
| IndexedSearch.IndexedOutcomeSound | Alkitab/src/main/java/yuku/alkitab/base/util/SearchEngine.java:300-496 | the index search never returns null; every address it returns is matched; with no phrase it returns exactly the matched addresses; the list ascends when the lid table is ordered; it never hangs when no plussed phrase is empty once stripped |
| IndexedSearch.IndexedOutcomeWithPhrases | Alkitab/src/main/java/yuku/alkitab/base/util/SearchEngine.java:438-491 | with phrases and every chapter loadable, the search hangs exactly when the phrase loop hangs on the verse of a matched address; otherwise the result is exactly the matched addresses whose verse contains every phrase |
| IndexedSearch.KeptIsMatchedWithPhrases | Alkitab/src/main/java/yuku/alkitab/base/util/SearchEngine.java:438-491 | an address survives the phrase pass exactly when it is matched and its verse contains every phrase of the query |
| IndexedSearch.VerseKeptMeans | Alkitab/src/main/java/yuku/alkitab/base/util/SearchEngine.java:467-485 | the verse of an address passes the phrase loop exactly when it exists and contains every phrase of the query, plussed ones as whole words |
| IndexedSearch.IndexedPassHangs | Alkitab/src/main/java/yuku/alkitab/base/util/SearchEngine.java:438-491 | the phrase pass meets a verse it hangs on exactly when some matched address has such a verse |
| IndexedSearch.FallbackMeaning | Alkitab/src/main/java/yuku/alkitab/base/util/SearchEngine.java:75-123 | with no index the result is null exactly when the query has no token, a crash exactly when it has tokens, no book selection and a book to visit, never a hang; with a selection it is exactly the ascending addresses every token hits |
| IndexedSearch.SearchByRevIndex | Alkitab/src/main/java/yuku/alkitab/base/util/SearchEngine.java:300-496 | the cache ends up holding the index loaded, and the outcome is the index search on it (an address list, a crash or a hang), or `searchByGrep` when no index loads, which crashes on a null book selection once the version has a book |
| Highlighter.AsciiLower | Alkitab/src/main/java/yuku/alkitab/base/util/SearchEngine.java:699-700 | setting the 0x20 bit of an ASCII capital gives the same letter in lower case |
| Highlighter.RoundLeast | Alkitab/src/main/java/yuku/alkitab/base/util/SearchEngine.java:719-729 | the minimum scan finds no word exactly when every attempt is -1; otherwise its position is the least attempt, and the word is the lowest index with it |
| Highlighter.RoundMeans | Alkitab/src/main/java/yuku/alkitab/base/util/SearchEngine.java:711-733 | one round either ends the walk because no word occurs any more, or marks an occurrence with none of any word between the cursor and it |
| Highlighter.SpansOrdered | Alkitab/src/main/java/yuku/alkitab/base/util/SearchEngine.java:707-740 | the spans are non-empty, lie inside the text, and follow each other without overlapping |
| Highlighter.SpansChosen | Alkitab/src/main/java/yuku/alkitab/base/util/SearchEngine.java:707-740 | each span is an occurrence of a word, and no lower-indexed word occurs at its start |
| Highlighter.SpansGaps | Alkitab/src/main/java/yuku/alkitab/base/util/SearchEngine.java:707-740 | no word occurs between the cursor and the next span, nor after the last span |
| Highlighter.HighlightsMeaning | Alkitab/src/main/java/yuku/alkitab/base/util/SearchEngine.java:674-743 | for the lowered text and the stripped words, the spans of `hilite` are ordered, each is a chosen occurrence, and nothing is skipped |
| Highlighter.ExampleRounds | Alkitab/src/main/java/yuku/alkitab/base/util/SearchEngine.java:711-733 | on "abcabc" with "abc" and "bc" the rounds choose "abc" at 0, "abc" at 3, then nothing |
| Highlighter.NoOverlapExample | Alkitab/src/main/java/yuku/alkitab/base/util/SearchEngine.java:707-740 | on "abcabc" with "abc" and "bc" the spans are (0, 3) and (3, 6): the overlapping "bc" is not marked |
| Highlighter.LowerText | Alkitab/src/main/java/yuku/alkitab/base/util/SearchEngine.java:695-705 | the lowercasing loop maps each character, ASCII capitals by the case bit and the rest by `Character.toLowerCase` |
| Highlighter.StripPlusses | Alkitab/src/main/java/yuku/alkitab/base/util/SearchEngine.java:686-691 | each plussed copy loses its plus and is flagged; every other word is kept and left unflagged |
| Highlighter.SplitWords | Alkitab/src/main/java/yuku/alkitab/base/util/SearchEngine.java:681-693 | the copy holds each word without its plus, with a flag saying whether it had one |
| Highlighter.NextSpan | Alkitab/src/main/java/yuku/alkitab/base/util/SearchEngine.java:711-729 | the attempt and minimum loops compute one round |
| Highlighter.MarkSpans | Alkitab/src/main/java/yuku/alkitab/base/util/SearchEngine.java:707-740 | the cursor loop produces the spans of the walk |
| Highlighter.Hilite | Alkitab/src/main/java/yuku/alkitab/base/util/SearchEngine.java:674-743 | `hilite` marks no span for null words, and otherwise the spans of the walk over the lowered text |

## Left out

- Input and output: opening the index asset (`None` stands for the `IOException`), loading chapter texts (a map from book and chapter), `Log` and `TimingLogger`.
- The `Semaphore` around loading and `preloadRevIndex`'s thread. The model has no concurrency. The `SoftReference` cache is a class with a field and a `Clear` standing for garbage collection.
- `Query` as a `Parcelable`. Only its query string and book selection are modelled.
- `SpannableStringBuilder` and its span objects. `hilite` returns the list of (start, end) spans that it would mark, bold and coloured.
- `Character.isLetter`, `Character.toLowerCase`, `QueryTokenizer`, `Ari` and `LidToAri` are not part of this model. They are parameters (`Env`), with no property assumed except where a lemma's requires names one.
- Texts with supplementary characters are not modelled. The model reads each Dafny `char` as one UTF-16 code unit of a Java `String`, but a Dafny `char` is a Unicode scalar value and cannot hold half of a surrogate pair. So the letter tests of TextSearch.WholeWordAt, the unit-by-unit lowercasing of Highlighter.LowerText, the lengths compared by QueryWords.CompareTokens and the span offsets of Highlighter.Hilite are stated only for texts without surrogate pairs.
- `BintexReader` is not part of this model. Its integers are read big-endian, following `DataInputStream`. `readRaw` past the end fails like any other read.
- `searchByRevIndex` versus `searchByGrep`: that both give the same verses for an index built from the corpus is not stated. It needs a model of how the index is built, which is not part of this code.
- The `text != null` test on a loaded verse is left out, because verse lists hold no null.
- `word_count` overflowing a Java `int` is not modelled. The running count is unbounded.
- Collaborators.GetBook: `getBook` is given as a search of the book list by id. Its real lookup is not part of this model.
- TextSearch.SatisfiesQuery requires every plussed token to keep a character once its plus is stripped (`Searchable`). For such a token the source's whole-word search finds the empty word at a boundary or never returns (TextSearch.WholeWordLookupMeans), and the model of `satisfiesQuery` does not carry that second outcome.
- GrepChapter.SearchByGrepForOneChapter requires a non-empty word. An empty word is found again where the last match was, so the source loops forever once a newline lies at or after the first match; otherwise it returns with no hit.
- GrepSearch.SearchByGrepInside requires the token to keep a character once its plus is stripped (`Scannable`), because it passes that word to `searchByGrepForOneChapter`.
- Highlighter.Hilite requires every word to keep a character once its plus is stripped (`AllNonEmpty`). An empty word is found at or after the cursor and consumes nothing, so the source walk never ends.
- GrepSearch.SearchByGrep requires a book selection whenever there are tokens. A null `bookIds` there is a `NullPointerException` in the source. IndexedSearch.SearchByRevIndex, whose fall-back reaches this case, carries it as the `Crash` outcome (IndexedSearch.UnselectedGrep).
- GrepSearch.SearchByGrepInside treats a missing book in the source branch like an unloadable chapter, which adds nothing. The source passes the null book on.
- GrepNarrowing.NarrowMeaning and GrepNarrowing.SearchByGrepMeaning assume the `Ari` laws (`AriLaws`), stated for 8-bit books, chapters and verses. `Ari` is not part of this model, and GrepNarrowing.AriPackingLaws shows only that the 8-bit packing (book in bits 16 and up, chapter in bits 8 to 15, verse in bits 0 to 7) meets them.
- GrepNarrowing.NarrowMeaning and GrepNarrowing.SearchByGrepMeaning assume the version is `Addressable`: book ids and chapter counts below 256, books in ascending id order, and fewer than 256 `'\n'` separators in each chapter text. Outside these bounds, addresses of different chapters can collide or come out of order, and what `searchByGrep` finds is not stated.
- GrepSearch.DriverVisitsEachChapterOnce assumes an ascending source and a monotone `toBookChapter`. GrepNarrowing.PreviousKeys proves that every list `searchByGrep` passes on meets these, under `GrepNarrowing.AriLaws`.
- IndexedSearch.SearchByRevIndex requires `GrepReady`: when no index loads and a book selection is given, every token must keep a character once its plus is stripped. With an empty word `searchByGrepForOneChapter` loops forever or finds nothing, which the model of the grep scan does not carry. Without a selection nothing is asked, since no chapter is scanned.
- IndexedSearch.SearchByRevIndex requires every stored lid below 32768 (`LidsFit`). A larger lid indexes past the bitmaps in the source.
- IndexedSearch.SearchByRevIndex requires the lid table to name one of the 66 books, or none, for every row (`LidBooksFit`). The source needs this only for surviving rows.
- IndexedSearch.IndexedOutcomeSound gives ascending order only under `AriOrderFollowsLids`. The lid table is not part of this model.
- Highlighter.Hilite requires the text to be at most `Integer.MAX_VALUE` characters long, as a Java string is.
- RevIndexFormat.RevIndexRoundTrip covers files written from non-empty groups. A group of zero words would end the reading early once the count already equals the total.
- PhraseFilter.SwitchChapter keeps the previously loaded chapter when the book is missing, as the source does. With no chapter loaded yet, the dereference is the `Crash` outcome.
- The order in which the `HashMap` yields its entries is not modelled. The OR pass is proved independent of it.
