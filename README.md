# pyreds in Dafny

pyreds is a small full-text search library on top of Redis. A `Search` with a
key namespace (`create_search(key)`) indexes texts under ids. `index` splits a
text into words, drops English stop words and stems the rest. It counts each
word and maps it to its metaphone code. Then, for each distinct word, it
writes two sorted-set entries scored with the word's count:

- the id into the posting set `key:word:<code>`;
- the code into the object set `key:object:<id>`.

`remove` reads the object set back and deletes the id everywhere. A `Query`
(`search.query(txt, type)`, refined by `type(...)` and `between(start,
stop)`) normalises its text the same way. `end()` then combines the posting
sets of the query's codes. The combine is ZINTERSTORE for an intersection
("and"/"intersect", the default) or ZUNIONSTORE for a union ("or"/"union").
It stores the result in the temporary key `key + "tmpkey"`, reads a window
of it highest score first, and trims it.

This project models `pyreds/reds.py` in Dafny:

- `wrappers.dfy`: `Option` and `Result`.
- `keys.dfy`: the three key shapes, and the proof that they never collide.
- `text.dfy`: the text helpers `_words`, `_strip_stopwords`, `_stem`,
  `_count_words`, `_metaphone_map`, `_metaphone_list` and `_metaphone_keys`.
  The loops in the source become methods with loop invariants. Each is
  proved against a specification function.
- `ranking.dfy`: the order of a Redis sorted set. Members are ordered by
  score, then by member name. The file proves that there is exactly one
  such listing and computes it by insertion.
- `sorted_sets.dfy`: the part of Redis the library uses. It has the
  commands as a datatype, their effect (`Step`) and reply (`ReplyOf`), and
  a `Store` class whose `Execute` and `Pipeline` run commands in place.
  Redis deletes a sorted set when it becomes empty, and `Store.Valid`
  keeps that invariant.
- `index_spec.dfy`: the pipelines `index` and `remove` send, and what they
  do to the key space. It states the index invariant:
  - every posting entry has a mirrored object entry with the same score;
  - all object scores are positive;
  - no empty set is stored.
- `query_spec.dfy`: the pipeline `end` sends, and what its result is.
- `reds.dfy`: `create_search`, and the classes `Search` and `Query`.

## Model

| member | source | states |
|---|---|---|
| Reds.TypeFor | pyreds/reds.py:13-18 | a requested type selects a union exactly when it is "union" or "or"; every other value, none or the empty string included, selects an intersection |
| Reds.CreateSearch | pyreds/reds.py:34-38 | the empty key is refused with the namespacing message; any other key yields a fresh search bound to that key, store and language |
| Text.RunLength | pyreds/reds.py:20 | the length of the longest prefix made of `[a-zA-Z0-9_]` characters: every character before it is a word character and the next one is not |
| Text.Words | pyreds/reds.py:41-42 | every token returned is a non-empty run of word characters |
| Text.WordsOfGlue | pyreds/reds.py:41-42 | tokenising words glued together with non-word separators gives back exactly those words, in order (the runs found are the maximal ones) |
| Text.WordsAppend | pyreds/reds.py:41-42 | tokenising two texts that meet at a non-word character gives the tokens of the first followed by those of the second |
| Text.WordsSkip | pyreds/reds.py:41-42 | a prefix with no word characters contributes no tokens |
| Text.WordsOfWord | pyreds/reds.py:41-42 | a single run of word characters tokenises to itself alone |
| Text.GlueStartsWithSeparator | pyreds/reds.py:41-42 | text glued from non-word separators and words begins with a non-word character (or is empty), so it cannot extend a preceding word |
| Text.WordsKeepWordChars | pyreds/reds.py:41-42 | the tokens concatenated are exactly the word characters of the text, in order: nothing is dropped, nothing is added |
| Text.RunLengthAppend | pyreds/reds.py:41-42 | text appended after the end of the first run does not change that run |
| Text.OnlyWordCharsRun | pyreds/reds.py:41-42 | a prefix of word characters is kept whole by the word-character filter |
| Text.WordsExample | test_reds.py:28 | "foo bar baz " tokenises to ["foo", "bar", "baz"] |
| Text.WordsDigitsExample | test_reds.py:37 | "Tobi wants 4 dollars" tokenises to ["Tobi", "wants", "4", "dollars"]: digits are word characters and case is kept |
| Text.WithoutStopwords | pyreds/reds.py:57-68 | each word occurs in the result as often as in the input when it is not a stop word, and not at all when it is |
| Text.WithoutStopwordsAppend | pyreds/reds.py:57-68 | the filter works word by word: filtering a concatenation is concatenating the filtered parts, so the order is kept |
| Text.AllStopwords | pyreds/reds.py:57-68 | a list made only of stop words is filtered to nothing |
| Text.StopwordsExample | test_reds.py:40 | with "this", "is", "just" and "a" as stop words and "test" not one, ["this", "is", "just", "a", "test"] is filtered to ["test"] |
| Text.StripStopwords | pyreds/reds.py:57-68 | the loop returns the order-preserving filter of the input, empty input included |
| Text.Stem | pyreds/reds.py:45-54 | the result has the input's length and holds the stem of the word at the same position |
| Text.NormalizeStopwordsOnly | pyreds/reds.py:157 | a text whose tokens are all stop words, such as "is a", yields no terms |
| Text.FirstIndex | pyreds/reds.py:119 | the position of the first occurrence of an element |
| Text.FirstIndexPrefix | pyreds/reds.py:119 | an element that already occurs in a prefix has the same first occurrence in the whole list |
| Text.Distinct | pyreds/reds.py:78-80 | the distinct elements of a list: the same elements, none repeated |
| Text.DistinctOrder | pyreds/reds.py:78-80 | the distinct elements come in the order of their first occurrence, as a dict's keys are inserted |
| Text.DistinctSnoc | pyreds/reds.py:78-80 | appending an element adds it to the distinct list at the end exactly when it is new |
| Text.CountsOfCounts | pyreds/reds.py:72-84 | the counts dict has the distinct words as keys in first-occurrence order, and maps each word to its number of occurrences |
| Text.CountWords | pyreds/reds.py:72-84 | the counting loop returns the distinct words in first-occurrence order, each with its number of occurrences; empty input gives the empty dict |
| Text.OccurrencesSnoc | pyreds/reds.py:72-84 | one more word adds one to the occurrences of a key list exactly when it is one of the keys |
| Text.OccurrencesTotal | pyreds/reds.py:72-84 | every word is counted under exactly one distinct key |
| Text.TotalIsOccurrences | pyreds/reds.py:72-84 | summing the stored counts over keys gives the number of occurrences of those keys |
| Text.CountsTotal | pyreds/reds.py:72-84 | the counts of a word-count dict sum to the number of words |
| Text.CountsSnoc | pyreds/reds.py:78-82 | one more word raises its count by one, or appends it as a new key counted once |
| Text.CountsOfRepeats | pyreds/reds.py:72-84 | four different words in the pattern a b c a d a c count to {a: 3, b: 1, c: 2, d: 1}, keys in first-occurrence order |
| Text.CountsOfThree | pyreds/reds.py:72-84 | three different words count to a dict holding each once, keys in the order the words came |
| Text.CountsExample | test_reds.py:43-48 | ["foo", "bar", "baz", "foo", "jaz", "foo", "baz"] counts to the dict {foo: 3, bar: 1, baz: 2, jaz: 1}, keys in that order |
| Text.CodesOfCodes | pyreds/reds.py:93-102 | the code dict has the distinct words as keys in first-occurrence order, and maps each word to its metaphone code |
| Text.MetaphoneMap | pyreds/reds.py:93-102 | the loop returns the distinct words in first-occurrence order, each with its metaphone code |
| Text.CodesAreDistinctCodes | pyreds/reds.py:111-122 | the code list has no duplicates and holds exactly the codes of the words |
| Text.MetaphoneList | pyreds/reds.py:111-122 | the loop returns the distinct codes of the words in order of first occurrence |
| Text.CodesExample | test_reds.py:54 | with foo, bar and baz coded F, BR and BS, the code list of ["foo", "bar", "baz"] is ["F", "BR", "BS"] |
| Text.DistinctOfThree | pyreds/reds.py:111-122 | three pairwise different elements are their own distinct list |
| Text.MetaphoneKeys | pyreds/reds.py:126-127 | one posting key `ns:word:<code>` per distinct code, in code-list order, none repeated; exactly the keys of the words' codes; empty exactly when there are no words |
| Text.MetaphoneKeysExample | test_reds.py:57 | under namespace "reds", ["foo", "bar", "baz"] gives ["reds:word:F", "reds:word:BR", "reds:word:BS"] |
| Keys.KeysDistinct | pyreds/reds.py:196-197 | posting keys and object keys are injective in their code or id, never equal to each other, and never the temporary key |
| Ranking.LexIrreflexive | pyreds/reds.py:170 | the tie-break order between members is irreflexive |
| Ranking.LexTransitive | pyreds/reds.py:170 | the tie-break order is transitive |
| Ranking.LexTotal | pyreds/reds.py:170 | the tie-break order is total on different members |
| Ranking.BeforeIrreflexive | pyreds/reds.py:170 | no member ranks below itself |
| Ranking.BeforeTransitive | pyreds/reds.py:170 | the rank order of a sorted set is transitive |
| Ranking.BeforeTotal | pyreds/reds.py:170 | any two different members of a sorted set are ordered |
| Ranking.InsertRanked | pyreds/reds.py:170 | inserting a new member into a ranked listing keeps it ranked and adds exactly that member |
| Ranking.RankKeys | pyreds/reds.py:170 | a ranked listing of a set of members exists, with each member once |
| Ranking.RankedUnique | pyreds/reds.py:170 | two ranked listings of the same members are equal |
| Ranking.Rank | pyreds/reds.py:170 | the insertion loop computes the ascending listing of a sorted set |
| Ranking.DescendingOrder | pyreds/reds.py:170 | the descending listing holds every member once, with scores never increasing |
| Ranking.DescendingExample | test_reds.py:96-101 | a member scored 2 comes before one scored 1, as "7" comes before "9" for the query "simple" |
| SortedSets.Put | pyreds/reds.py:168 | storing a set replaces that key only, and an empty set deletes the key |
| SortedSets.ZAddTo | pyreds/reds.py:196-197 | ZADD sets the member's score at that key, overwriting an earlier score, and changes nothing else |
| SortedSets.ZRemFrom | pyreds/reds.py:216 | ZREM takes the member out of that key, drops the key once it is empty, and changes nothing else |
| SortedSets.Span | pyreds/reds.py:170-171 | the window selects exactly the ranks i with 0 <= i < n that lie between start and stop inclusive, a negative start or stop counted from the end; out-of-range and crossed windows select nothing or are clipped |
| SortedSets.SpanWhole | pyreds/reds.py:136 | the default window (0, -1) covers every rank |
| SortedSets.SpanInside | pyreds/reds.py:147-150 | a window inside the ranks selects ranks `start` to `stop` inclusive |
| SortedSets.SpanFromEnd | pyreds/reds.py:147-150 | (-k, -1) selects the last k ranks |
| SortedSets.WindowOfWhole | pyreds/reds.py:147-150 | a window with 0 <= start <= stop is that slice of the whole descending listing, cut off at its end |
| SortedSets.AtLeast | pyreds/reds.py:210 | ZREVRANGEBYSCORE key +inf 0 keeps exactly the members scored 0 or more |
| SortedSets.InterMembers | pyreds/reds.py:168 | ZINTERSTORE keeps exactly the members present in every input set |
| SortedSets.UnionMembers | pyreds/reds.py:168 | ZUNIONSTORE keeps exactly the members present in some input set |
| SortedSets.FoldAppend | pyreds/reds.py:199-203 | running two command lists one after the other is running their concatenation |
| SortedSets.CollectAppend | pyreds/reds.py:199-203 | the replies to a concatenation are the replies to each part, the second from the state the first leaves |
| SortedSets.FoldOne | pyreds/reds.py:199-203 | a one-command pipeline is that command's step and reply |
| SortedSets.FoldTwo | pyreds/reds.py:199-203 | a two-command pipeline is the two steps in order |
| SortedSets.FoldThree | pyreds/reds.py:167-175 | a three-command pipeline is the three steps in order |
| SortedSets.RunAllAppend | pyreds/reds.py:199-203 | a pipeline of commands behaves as its parts run in order, replies concatenated |
| SortedSets.RunAllSnoc | pyreds/reds.py:199-203 | one more queued command adds one step and one reply |
| SortedSets.PrefixStep | pyreds/reds.py:199-203 | running one more command of a pipeline extends the run of its prefix by one step |
| SortedSets.RunTwo | pyreds/reds.py:199-203 | the state and replies of a two-command pipeline |
| SortedSets.RunThree | pyreds/reds.py:167-175 | the state and replies of the three-command query pipeline |
| SortedSets.PutTwice | pyreds/reds.py:168-171 | a later store at a key replaces an earlier one |
| SortedSets.PutOverDelete | pyreds/reds.py:168-171 | storing at a deleted key is storing at that key |
| SortedSets.PutOverStore | pyreds/reds.py:168-171 | storing over a stored key is storing at that key |
| SortedSets.StepRevRange | pyreds/reds.py:170 | ZREVRANGE changes nothing and answers the window of the members highest rank first |
| SortedSets.StepRevRangeByScore | pyreds/reds.py:210 | ZREVRANGEBYSCORE changes nothing and answers exactly the members scored at least the minimum |
| SortedSets.StepTrim | pyreds/reds.py:171 | ZREMRANGEBYRANK stores the set less the members whose ascending ranks fall in the window |
| SortedSets.StepKeepsNoEmptySets | pyreds/reds.py:199-203 | no command leaves an empty set stored |
| SortedSets.SliceDescending | pyreds/reds.py:170 | a slice of a descending listing is descending |
| SortedSets.RevWindowRanked | pyreds/reds.py:170 | every ZREVRANGE window lists members once each, with scores never increasing |
| SortedSets.WholeWindow | pyreds/reds.py:136 | the default window returns every member and its trim empties the set |
| SortedSets.TrimEverything | pyreds/reds.py:171 | trimming every rank of a covering listing empties the set |
| SortedSets.RankingUnused | pyreds/reds.py:199-203 | commands other than the range reads and trims do not depend on the ranking |
| SortedSets.Store.constructor | test_reds.py:24-25 | a new store holds no keys: it stands for a flushed database, not for whatever an existing server holds |
| SortedSets.Store.Execute | pyreds/reds.py:210 | running one command updates the key space by its step, replies with its answer, and stores no empty set |
| SortedSets.Store.Pipeline | pyreds/reds.py:199-203 | executing a pipeline runs its commands in order and returns their replies in order |
| IndexSpec.EmptyInvariant | pyreds/reds.py:186-203 | an empty key space satisfies the index invariant |
| IndexSpec.PairsPrefix | pyreds/reds.py:195-197 | each distinct word adds its two ZADDs after those of the words before it |
| IndexSpec.RunPairsAt | pyreds/reds.py:195-203 | after the index pipeline, each entry holds the last score written to it, or its old value when none was |
| IndexSpec.RunPairsNoEmpty | pyreds/reds.py:195-203 | the index pipeline stores no empty set |
| IndexSpec.LastWriteMirror | pyreds/reds.py:196-197 | the last write to posting entry (code c, id d) equals the last write to object entry (id d, code c) |
| IndexSpec.LastWritePositive | pyreds/reds.py:190-197 | every score index writes is a positive count |
| IndexSpec.LastWriteOnlyId | pyreds/reds.py:196-197 | index writes only the id into posting sets and only into the object set of that id |
| IndexSpec.LastWriteOnlyPostings | pyreds/reds.py:196-197 | index writes nothing outside posting keys and that id's object key |
| IndexSpec.LastWriteCovers | pyreds/reds.py:195-196 | every distinct word gets the id written into the posting set of its code |
| IndexSpec.LastWriteScore | pyreds/reds.py:190-196 | when no other word shares its code, a word's posting score is its count |
| IndexSpec.IndexKeepsInvariant | pyreds/reds.py:186-203 | index keeps the invariant: posting and object entries mirrored, positive scores, no empty set |
| IndexSpec.IndexRecordsEveryWord | pyreds/reds.py:186-203 | after index, every word's code has the id in its posting set, mirrored in the object set |
| IndexSpec.IndexScore | pyreds/reds.py:190-196 | after index, the posting score of a word whose code no other word shares is the word's count |
| IndexSpec.IndexElsewhereUnchanged | pyreds/reds.py:186-203 | index changes no entry for other ids, outside the id's own object set |
| IndexSpec.IndexTwiceSameAsOnce | pyreds/reds.py:196-197 | indexing the same text twice under the same id leaves what indexing it once does: scores are overwritten, not added |
| IndexSpec.SharedCodeLastWins | pyreds/reds.py:195-197 | with "nite" once and "night" twice sharing code NT, the posting score is 2, the count of the word written last, not 3 |
| IndexSpec.DistinctExample | pyreds/reds.py:78-80 | ["nite", "night", "night"] has distinct words ["nite", "night"] |
| IndexSpec.ConstantsAre | pyreds/reds.py:210 | the codes remove reads back are exactly those in the id's object set scored 0 or more |
| IndexSpec.PostingKeysSnoc | pyreds/reds.py:215-216 | one more code adds its posting key to the keys remove touches |
| IndexSpec.RunZRemsAt | pyreds/reds.py:215-218 | after the ZREMs, the id is gone from each posting set read back and every other entry is unchanged |
| IndexSpec.RunZRemsKeys | pyreds/reds.py:215-218 | the ZREMs create no key |
| IndexSpec.RunZRemsNoEmpty | pyreds/reds.py:215-218 | the ZREMs store no empty set |
| IndexSpec.RunRemove | pyreds/reds.py:212-218 | the remove pipeline is the object-key DEL followed by the ZREMs |
| IndexSpec.RemoveAt | pyreds/reds.py:212-218 | after remove, the object key is gone, the id is gone from each posting set read back, and all else is unchanged |
| IndexSpec.ConstantsReadBack | pyreds/reds.py:210 | under positive scores, the codes read back are exactly the codes in the id's object set |
| IndexSpec.RemoveComplete | pyreds/reds.py:206-218 | under the invariant, after remove the object key is absent and the id is in no posting set |
| IndexSpec.RemoveMirrorAt | pyreds/reds.py:206-218 | under the invariant, each posting entry still mirrors its object entry after remove |
| IndexSpec.RemoveKeepsInvariant | pyreds/reds.py:206-218 | remove keeps the index invariant |
| IndexSpec.RemoveElsewhereUnchanged | pyreds/reds.py:206-218 | remove changes no entry for other ids, outside the id's object set |
| IndexSpec.RemoveUndoesIndex | pyreds/reds.py:186-218 | indexing a new id and then removing it restores every entry of the key space |
| QuerySpec.StoreCommand | pyreds/reds.py:166-168 | the combine is ZINTERSTORE exactly for an intersection and stores into the temporary key |
| QuerySpec.RunQuery | pyreds/reds.py:166-176 | the pipeline gives three replies; the second is the window of the combined set highest summed score first; the temporary key is left holding the trimmed set |
| QuerySpec.StoreStep | pyreds/reds.py:168 | the combine stores its result at the temporary key |
| QuerySpec.QueryIntersect | pyreds/reds.py:168 | an intersection returns only ids in every posting set of the query |
| QuerySpec.QueryUnion | pyreds/reds.py:168 | a union returns only ids in some posting set of the query |
| QuerySpec.QueryRanked | pyreds/reds.py:168-170 | the ids come back once each, with summed scores never increasing |
| QuerySpec.QueryDefaultWindow | pyreds/reds.py:136-176 | with the default window, every id of the combined set comes back and the temporary key is left absent |
| QuerySpec.QueryDefaultIntersect | pyreds/reds.py:135-168 | with the default window, an intersection returns exactly the ids in every posting set |
| QuerySpec.QueryDefaultUnion | pyreds/reds.py:136-168 | with the default window, a union returns exactly the ids in some posting set |
| QuerySpec.QueryWindow | pyreds/reds.py:147-170 | between(start, stop) returns ranks start to stop of the full result, as far as it reaches |
| QuerySpec.QueryOnlyTouchesTmp | pyreds/reds.py:166-176 | a query changes no key but the temporary one |
| QuerySpec.QueryKeepsInvariant | pyreds/reds.py:166-176 | a query keeps the index invariant |
| QuerySpec.IndexedIsFound | pyreds/reds.py:153-203 | after index, an intersection over words whose codes all occur in the text finds the id |
| Reds.IndexPipeline | pyreds/reds.py:190-197 | the loop queues, per distinct word in first-occurrence order, the posting ZADD and the object ZADD, both scored with the word's count |
| Reds.PostingKeysOf | pyreds/reds.py:126-127 | the posting keys of the query's codes |
| Reds.SendQuery | pyreds/reds.py:166-176 | the ids returned are the query result on the old key space, the store is left as the pipeline leaves it, and the invariant is kept |
| Reds.Search.constructor | pyreds/reds.py:181-183 | a search remembers its key, store and language |
| Reds.Search.Normalized | pyreds/reds.py:157 | the terms are the stemmed tokens that are not stop words |
| Reds.Search.Index | pyreds/reds.py:186-203 | the store is left as the index pipeline leaves it, the replies are its replies, and the invariant is kept |
| Reds.Search.Remove | pyreds/reds.py:206-218 | the codes are read first and the DEL and ZREMs are run on them; under the invariant, the invariant is kept, the object key is gone and the id is in no posting set |
| Reds.Search.Query | pyreds/reds.py:222-223 | a fresh query on the text, an intersection unless the type names a union, over the default window (0, -1) |
| Reds.Query.constructor | pyreds/reds.py:133-137 | a missing or empty type becomes "and"; the window starts as (0, -1) |
| Reds.Query.Type | pyreds/reds.py:142-144 | sets the combine from the type name, keeps the window, returns the same query |
| Reds.Query.Between | pyreds/reds.py:147-150 | sets the window, keeps the combine, returns the same query |
| Reds.Query.End | pyreds/reds.py:153-176 | no terms: no command is sent and [] is returned; otherwise the ids are the query result on the old key space, and the key space is what the pipeline leaves; the invariant is kept |

## Left out

- Networking, connection handling and client configuration (`set_client`, `create_client`, the module-global client) are out of scope. A `Store` stands for the Redis server, and each `Search` is given the one it uses.
- Concurrency is out of scope. A pipeline runs as one uninterrupted sequence. Two concurrent queries share the temporary key `key + "tmpkey"`, and the model does not capture that race.
- The Porter stemmer, the English stop-word list and `metaphone` are outside this model (`pyreds/phonetics.py` is not part of it). A `Language` value supplies them as a stemming function, a set of stop words and a coding function.
- Scores are integers. Redis stores doubles, but every score this library writes is a word count.
- `str(s)` in `_words` and `str(id)` in the keys are not modelled. Texts and ids are strings already.
- The `.decode('utf-8')` of the codes read back in `remove` is not modelled. Codes are strings throughout.
- Reds.Query.constructor: the source accepts any falsy type value. The model takes `None` or the empty string, and treats them alike.
- The punctuation tokenising example of the test suite is not restated as a lemma. `Text.WordsOfGlue` covers it in general.
- Ties between equal summed scores are broken as Redis breaks them, by member name. No lemma states which tied id comes first.
- Reds.Search.Remove: the invariant results hold only when the key space satisfies the index invariant beforehand. An object set written by other code, with scores below 0, would not be read back by `zrevrangebyscore(..., '+inf', 0)`.
- Re-indexing an id overwrites its scores instead of adding to them, because the code uses ZADD. Two words that share a code in one text leave the count of the word written last. The model follows the code: `IndexSpec.IndexTwiceSameAsOnce` and `IndexSpec.SharedCodeLastWins` state the overwrite.
- ZREMRANGEBYRANK counts ranks from the lowest score, while ZREVRANGE counts them from the highest. So `end` trims the window counted from the lowest score. That matches the window it returned only when the window sits symmetrically in the ranks or covers every rank, as the default (0, -1) does. The model runs the command as written (`QuerySpec.RunQuery`). The next query's store overwrites whatever is left at the temporary key.
- Reds.IndexPipeline: the model iterates `metaphone_map.keys()` in order of first occurrence, as a dict does from Python 3.7 on. The package also declares Python 2.7, 3.5 and 3.6, where the order is the hash order and no particular order is promised. That order decides which word wins when two words share a code, and so `IndexSpec.SharedCodeLastWins` holds only under the insertion-order assumption. It also decides the order of `index`'s replies. The other index results do not depend on the order: `IndexKeepsInvariant`, `IndexRecordsEveryWord`, `IndexScore` for a code no other word shares, `IndexElsewhereUnchanged` and `RemoveUndoesIndex`.
