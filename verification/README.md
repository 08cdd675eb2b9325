# Movie recommender core, modelled in Dafny

This project models the two pieces of the movie recommender that carry its logic:

- **The offline indexer's text normalisation and record cleaning.** `preprocess_text` deletes every character that is not an ASCII letter or whitespace. It then lower-cases, tokenizes, drops stopwords, and joins the surviving tokens with single spaces. The cleaning step projects the catalog to `genres, keywords, overview, title` and drops rows with a missing value. It then builds `combined = genres + " " + keywords + " " + overview` and `cleaned_text = preprocess_text(combined)`.
- **The online query `recommend_movies`.** It finds the first row whose title equals the query case-insensitively and enumerates that row of the similarity matrix. It stably sorts the `(index, score)` pairs by descending score and keeps the slice `[1 : top_n + 1]`. Finally it maps the kept indices back to titles and numbers the answers from 1.

Everything is immutable values and pure functions. Records are datatypes and tables are sequences. The stopword set is a parameter `S`. Similarity scores are `real`, because only their order matters.

Modules:

- `Wrappers` (`wrappers.dfy`): `Option`.
- `Seqs` (`seqs.dfy`): order-preserving filtering, the positions a mask keeps, and Python slicing.
- `Text` (`text.dfy`): the character classes, letter filtering, ASCII lower-casing, whitespace splitting (`str.split()`) and `" ".join`.
- `Tokenizer` (`tokenizer.dfy`): the word tokenizer on text made only of ASCII letters and whitespace, in either case.
- `Preprocess` (`preprocess.dfy`): `preprocess_text`, the raw and cleaned row types, and the cleaning pipeline.
- `Ranking` (`ranking.dfy`): enumeration and the stable descending sort. It also gives an independent definition of "a ranking" and proves that a row has exactly one ranking.
- `Recommend` (`recommend.dfy`): lookup, candidates, answer lines, and the self-exclusion analysis.

How the model reads some behaviour of the code:

- **Whitespace** is Python's `str` whitespace: the class `\s`, `str.isspace()` and what `str.split()` breaks on. So the letter filter keeps tabs, newlines and the Unicode spaces. The tokenizer splits on all of them.
- **Tokenizer.** The tokenizer runs after the letter filter, so its input has no punctuation, apostrophes or quotes. On such text it splits on whitespace runs. The only rules that still fire are the Treebank contraction rules that need no apostrophe. They split six standalone words in two: `cannot` into `can not`, and likewise `gimme`, `gonna`, `gotta`, `lemme` and `wanna`. The rules match case-insensitively and split each word after its third letter, so `Cannot` becomes `Can not`. The model includes these six splits in any case. In `preprocess_text` the tokenizer only ever sees lower-case text.
- **Missing values.** The model starts from the cell values that `pd.read_csv` produces. With its defaults, `read_csv` turns empty cells and markers such as `NA`, `null`, `None` and `nan` into missing values, and these reach the model as `None`. `dropna` then drops exactly the rows with a missing required field. A present cell with no letter, such as a cell of blanks or digits, is kept, and it contributes nothing to `cleaned_text`. `dropna` runs after the projection, so missing values in other columns never drop a row.
- **Self-exclusion.** The query does not remove its own row. The slice removes the first entry of the ranking. See "Findings".
- **Negative `top_n`.** The slice follows Python's rules for a negative `top_n`. `top_n == -1` gives an empty answer. `top_n <= -2` keeps all but the first entry and the last `-top_n - 1` entries.
- **Tables are not mutated.** The table and the matrix are values, so no operation can modify them.

## Model

| member | source | states |
|---|---|---|
| `Text.KeepLettersAndSpaces` | src/preprocess.py:47 | The result holds only ASCII letters and whitespace, each taken from the input. Every such character of the input survives. |
| `Text.KeepConcat` | src/preprocess.py:47 | Deleting characters distributes over concatenation. |
| `Text.KeepIdentity` | src/preprocess.py:47 | Text made only of letters and whitespace passes through unchanged. |
| `Text.LowerCharLaws` | src/preprocess.py:48 | Lower-casing leaves no upper-case ASCII letter and is idempotent. Letters stay letters. Two characters lower-case alike exactly when they are equal or are the two cases of one ASCII letter. |
| `Text.WordsShape` | src/preprocess.py:49 | Every word of the split is non-empty, free of whitespace, and made of input characters. There are no words exactly when the input is all whitespace. |
| `Text.JoinWellSpaced` | src/preprocess.py:51 | Joining non-empty, whitespace-free words gives text with no leading or trailing space and no doubled space. |
| `Text.WordsJoin` | src/preprocess.py:49-51 | Round trip: splitting the join of non-empty, whitespace-free words gives back the same words. |
| `Text.WordsSplitAt` | src/preprocess.py:49 | A whitespace character never fuses words. The words of `a + [c] + b` are the words of `a` followed by the words of `b`. |
| `Text.JoinChars` | src/preprocess.py:51 | Every character of a joined string is the separating space or a character of one of the words. |
| `Tokenizer.ExpandExamples` | src/preprocess.py:49 | The split point does not depend on case: `cannot` gives `can`, `not`; `Cannot` gives `Can`, `not`; `WANNA` gives `WAN`, `NA`; and `canned` stays whole. |
| `Tokenizer.Expand` | src/preprocess.py:49 | A word becomes two pieces exactly when its lower-cased form is one of the six contraction words. It then splits after its third letter. The pieces concatenate back to the word and are never contraction words themselves. |
| `Tokenizer.ExpandAllShape` | src/preprocess.py:49 | No token produced from a word list is a contraction word. Tokens of non-empty words are non-empty, and every character of a token comes from some word. |
| `Tokenizer.ExpandAllConcat` | src/preprocess.py:49 | Tokenizing a concatenation of word lists tokenizes each list. |
| `Tokenizer.Tokenize` | src/preprocess.py:49 | Tokens are non-empty, free of whitespace, made of input characters, and never contraction words. There are no tokens exactly when the input is all whitespace. |
| `Tokenizer.TokenizeWord` | src/preprocess.py:49 | A single whitespace-free word tokenizes to its pieces: a contraction word gives its two halves (`cannot` gives `can`, `not`), and any other word gives itself. |
| `Tokenizer.TokenizeJoin` | src/preprocess.py:49-51 | Round trip: tokenizing the single-space join of tokens gives back the tokens. |
| `Tokenizer.TokenizeSplitAt` | src/preprocess.py:49 | A whitespace character separates the tokens of its two sides. |
| `Seqs.Filter` | src/preprocess.py:50 | The result is no longer than the input. It holds only elements that pass, and it keeps every element of the input that passes. |
| `Seqs.FilterIsSelection` | src/preprocess.py:54 | Entry `k` of the filtered sequence is the input element at the `k`-th passing position. The positions strictly increase and are exactly those whose element passes. |
| `Seqs.FilterConcat` | src/preprocess.py:50 | Filtering a concatenation filters each part. |
| `Seqs.FilterDropOne` | src/recommend.py:38 | Filtering out the single failing element removes exactly that element. |
| `Seqs.PySliceLaws` | src/recommend.py:38 | Python slicing with in-range bounds is the ordinary subsequence. A negative bound `-n..-1`, as the start, the end or both, names the position `n` places before the end; `[1:-1]` is one case. A bound past either end is clamped to that end, so a start at or past the end, or an end at or before the front, gives nothing. Cutting at any bound `k` splits the sequence into `[:k]` and `[k:]`. |
| `Preprocess.PreprocessText` | src/preprocess.py:46-51 | The output holds only `a`-`z` and `' '`, with no leading, trailing or doubled space. Splitting it gives back exactly the normal tokens of the input that are not stopwords, and none of its tokens is in `S`. It is empty exactly when no token survives. |
| `Preprocess.KeptTokensOrder` | src/preprocess.py:50 | The kept tokens are the normal tokens at the positions whose token is not in `S`, in increasing position order. |
| `Preprocess.PreprocessTokenOrder` | src/preprocess.py:47-51 | The output tokens are the non-stopword tokens of the input, each taken from its own position, in increasing position order. |
| `Preprocess.PreprocessIdempotent` | src/preprocess.py:46-51 | Applying `preprocess_text` to its own output returns that output. |
| `Preprocess.PreprocessEmpty` | src/preprocess.py:46-51 | Three inputs normalise to `""`: empty input, input without an ASCII letter, and input whose every token is a stopword. |
| `Preprocess.KeptTokensSplit` | src/preprocess.py:55-56 | Normalising `a + " " + b` keeps the tokens of `a`, then the tokens of `b`. |
| `Preprocess.CleanedTextOfFields` | src/preprocess.py:55-56 | A row's cleaned text splits into the kept tokens of its genres, then its keywords, then its overview. |
| `Preprocess.Clean` | src/preprocess.py:53-56 | The result has no more rows than the input. Every kept row has `combined = genres + " " + keywords + " " + overview` and `cleaned_text = preprocess_text(combined)`. |
| `Preprocess.CleanSelects` | src/preprocess.py:53-54 | Cleaning keeps exactly the rows with all four fields present and preserves their order. It renumbers them from 0 and leaves title, genres, keywords and overview unchanged. |
| `Preprocess.LetterlessRowKept` | src/preprocess.py:54-56 | A complete row whose genres, keywords and overview hold no ASCII letter (blanks or digits, say) is kept, and its cleaned text is empty. |
| `Preprocess.IncompleteRowDropped` | src/preprocess.py:54 | A row with a missing required field is dropped. |
| `Preprocess.CleanIgnoresOtherColumns` | src/preprocess.py:53-54 | Two tables that agree on the four required columns clean to the same table. |
| `Ranking.EnumerateUnzip` | src/recommend.py:37 | `enumerate` pairs every column with its score, in column order. Dropping the indices gives back the row. |
| `Ranking.RankRow` | src/recommend.py:37-38 | The sorted enumeration of a row is a ranking of it: a rearrangement of the enumeration, strictly ranked by descending score and then ascending index. |
| `Ranking.Insert` | src/recommend.py:38 | Insertion adds exactly the one entry and keeps every other entry. |
| `Ranking.InsertNonIncreasing` | src/recommend.py:38 | Insertion keeps the scores non-increasing. |
| `Ranking.InsertStrictlyRanked` | src/recommend.py:38 | Inserting an entry whose index is lower than every index present keeps the sequence strictly ranked. |
| `Ranking.SortByScoreDesc` | src/recommend.py:38 | The sort returns a permutation of its input with non-increasing scores. On input in index order, such as the enumerated row, equal scores come out in increasing index order. So the sort is stable on the enumerated input. |
| `Ranking.RankingUnique` | src/recommend.py:38 | Two strictly ranked sequences with the same entries are equal. |
| `Ranking.RankRowIsTheRanking` | src/recommend.py:37-38 | Any permutation of the enumerated row that is strictly ranked equals the sorted list the query computes. |
| `Ranking.RankingEntries` | src/recommend.py:37-38 | A ranking has one entry per column, with distinct indices. Each index is paired with that column's score. |
| `Ranking.RankingHead` | src/recommend.py:38 | The head of a ranking has the highest score. Every column before it scores strictly lower. |
| `Recommend.LookupRow` | src/recommend.py:31-36 | The lookup finds nothing exactly when no lower-cased title equals the lower-cased query. Otherwise it returns the lowest matching row. |
| `Recommend.SliceCountIsSliceLength` | src/recommend.py:38 | The closed-form count agrees with Python's slicing: `[1 : top_n + 1]` of `n >= 1` entries has `SliceCount(n, top_n)` entries, for every `top_n`. |
| `Recommend.Candidates` | src/recommend.py:31-38 | The result is `None` exactly when the lookup fails. Otherwise its length is what the slice `[1 : top_n + 1]` leaves: `min(top_n, N - 1)` for `top_n >= 0`. |
| `Recommend.CandidateEntries` | src/recommend.py:37-38 | Every candidate names a row of the table and carries the matrix score of that column. Indices are distinct, scores do not increase, and ties are in increasing index order. |
| `Recommend.CandidatesFromRanking` | src/recommend.py:37-38 | For any ranking of the looked-up row, the candidates are its entries `1..k`. No ranking entry is skipped, and the head is always dropped. |
| `Recommend.RecommendMovies` | src/recommend.py:29-48 | The result is `None` exactly when no title matches case-insensitively. Otherwise the answer has the slice's length, ranks `1..k` in order, and non-increasing similarities. |
| `Recommend.RecommendFromRanking` | src/recommend.py:37-44 | Answer line `k` is ranking entry `k + 1`, given as its row's title and its score. |
| `Recommend.CaseInsensitive` | src/recommend.py:31 | Queries with the same lower-cased form get identical answers. |
| `Recommend.SelfExcludedWhenStrictMax` | src/recommend.py:37-38 | When the query row's self-score is strictly highest in its row, no candidate is the query row. |
| `Recommend.SelfReturnedAfterEarlierTie` | src/recommend.py:37-38 | When an earlier row scores at least the self-score and `top_n >= N - 1`, the query row itself is among the candidates. |
| `Recommend.SelfReturnedExample` | src/recommend.py:36-38 | Two movies with the same text have similarity 1.0 each way. Asking for the second one recommends the second one itself. |
| `Recommend.CandidatesExcludingSelf` | src/recommend.py:37-38 | Corrected candidates never include the query row. Each candidate is another row with its matrix score, strictly ranked. For `top_n >= 0` they number `min(top_n, N - 1)`. |
| `Recommend.ExcludingSelfFromRanking` | src/recommend.py:37-38 | For any ranking of the looked-up row, the corrected candidates are `[:top_n]` of that ranking with the query row taken out. |
| `Recommend.ExcludingSelfIsTop` | src/recommend.py:37-38 | For `top_n >= 0`, every other row left out of the corrected candidates ranks after every candidate. |
| `Recommend.RecommendMoviesExcludingSelf` | src/recommend.py:37-44 | The corrected answer is `None` exactly when no title matches. Otherwise it has `min(top_n, N - 1)` lines, ranks `1..k` and non-increasing similarities. |
| `Recommend.RecommendExcludingSelfFromRanking` | src/recommend.py:37-44 | Corrected answer line `k` is entry `k` of any ranking of the looked-up row with that row taken out, given as its title and its score. |
| `Recommend.CorrectedAgreesOnStrictMax` | src/recommend.py:37-38 | When the self-score is strictly highest and `top_n >= 0`, the corrected and as-written candidates are equal. |
| `Recommend.CorrectedRecommendAgrees` | src/recommend.py:37-44 | Under the same conditions, the corrected and as-written answers are equal. |

## Left out

- TF-IDF vectorisation and cosine similarity (src/preprocess.py:59-63) are left out: they are floating-point numerics inside scikit-learn. The matrix is an input, and nothing assumes it is symmetric or has a unit diagonal.
- File checks, CSV reading, `joblib` load and dump, `nltk.download` and logging are left out as I/O (src/preprocess.py:14-44,65-68; src/recommend.py:7-27,30,33,47).
- `src/main.py` is not part of this model. It is the Streamlit interface, configuration loading and the first-run bootstrap. Its sorted title list (line 36) is display logic.
- `src/omdb_utils.py` is not part of this model. It is an HTTP client for the OMDb metadata service.
- The NLTK English stopword list is the parameter `S`.
- Punkt sentence splitting inside `word_tokenize` is not modelled. No sentence punctuation survives the letter filter, so it has no effect.
- `Recommend.LookupRow`: titles and the query are compared under ASCII-only lower-casing. Python's `str.lower` also folds non-ASCII letters, so `"AMÉLIE"` and `"Amélie"` match in the code but not in the model. The normalisation step is unaffected, because only ASCII letters reach its `lower()`.
- `Recommend.CaseInsensitive`: only queries that differ in ASCII case are proved equivalent, for the same reason as `Recommend.LookupRow`.
- `Recommend.RecommendMovies`: it finds its row with `Recommend.LookupRow`, so it has the same ASCII-only case folding.
- `Recommend.CandidatesExcludingSelf`: the corrected query also finds its row with `Recommend.LookupRow`, so it has the same ASCII-only case folding.
- `Recommend.RecommendMoviesExcludingSelf`: the same ASCII-only case folding as `Recommend.CandidatesExcludingSelf`.
- `Recommend.MatchedPair` is a precondition: one matrix row and one column per table row, as the indexer builds the matrix from the same table. The code has no such check. A mismatched pair is not modelled. Some mismatches still run, such as short rows or extra rows. Others raise an error: a looked-up row past the end of the matrix (src/recommend.py:37), or a kept column index past the end of the table (`iloc` at src/recommend.py:41).
- Cells are assumed to be strings. A non-string cell, which pandas would concatenate or stringify differently, is not modelled.
- Scores are `real`. NaN and other float irregularities are not modelled, because cosine similarity never yields them.
- The `KeyError` that `df[required_columns]` raises when the file lacks one of the four columns (src/preprocess.py:54) is not modelled. `RawRow` always has the four columns, and only their cells may be missing.

## Findings

| source | as written | input that shows it | evidently intended | confidence | as-written member | corrected member |
|---|---|---|---|---|---|---|
| src/recommend.py:38 | `sorted(...)[1:top_n+1]` drops the head of the ranking, assuming the head is the query's own row. | Two movies with identical text have similarity 1.0 each way. Querying the second title ranks the first movie ahead of it, so the answer is the second movie itself. | Leave out the query's own row index, then take the first `top_n`, so that the queried movie never recommends itself. | not executed | `Recommend.SelfReturnedAfterEarlierTie` | `Recommend.CandidatesExcludingSelf` |
