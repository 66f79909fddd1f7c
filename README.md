# Job recommender retrieval core, modelled in Dafny

This project models the retrieval bookkeeping of `JobRecommendationSystem`
(`model.py`), which matches a résumé against a catalog of job postings:

- **Text normaliser** (`TextNormalizer`): `clean_text` lower-cases,
  deletes every character of Python's `string.punctuation` and strips
  surrounding whitespace.
- **Composite text** (`Recommender.Join`, `Composite`): each catalog row
  becomes `workplace working_mode position job_role_and_duties
  requisite_skill`, joined by single spaces.
- **Lexical pre-filter selection** (`Selection`): `numpy.argsort` of the
  score vector followed by the Python slice `[-top_n:]`. The tie order of
  `argsort` is unspecified, so the argsort result is an input `order` that
  must satisfy `IsArgsort` (a permutation of the positions with ascending
  scores). `FilterTopJobs` and `RecommendJobs` take it as an input, so
  their contracts hold for every order `argsort` may return.
- **Exact inner-product index** (`SimilarityIndex.FlatIndex`): the role of
  faiss `IndexFlatIP`. Vectors are stored in the order they are added, and
  a search returns the best `k` positions by descending inner product.
- **The recommender object** (`Recommender.JobRecommendationSystem`): its
  constructor builds the catalog tables and the full-catalog index.
  `FilterTopJobs` returns the three aligned candidate projections.
  `RecommendJobs` cleans the résumé text, pre-filters 100 candidates,
  ranks them in a fresh index and translates ranked candidate positions
  back through the candidate records.

The learned and numeric parts are parameters of the model:

- `encode: string -> E` is the sentence encoder. Embeddings are values of
  an opaque type `E`.
- `ip: (E, E) -> int` is the inner product, taken as an integer score.
- `lexical: (seq<string>, string) -> seq<int>` is the TF-IDF scorer. It
  takes the catalog texts and the query and gives one integer score per
  catalog text.

The model follows what the code does, including where a reader might
expect otherwise:

- An empty or all-whitespace résumé raises no error. It is cleaned to `""`
  and goes through the same pipeline.
- An empty catalog raises no dedicated error in the code shown.
- The code does not clamp the search to the candidate count. The model
  states `top_n <= min(100, N)` as a precondition.
- For `filter_top_jobs`, `top_n == 0` keeps the whole catalog, because
  `xs[-0:]` is `xs[0:]`. `Selection.TailCount` states this.
- The full-catalog index is built by the constructor, as in the code, but
  no query reads it.

## Model

| member | source | states |
|---|---|---|
| TextNormalizer.Lower | model.py:43 | `lower()` on one ASCII character: upper-case letters move 32 code points up to lower case, every other character is unchanged, and no result is upper case |
| TextNormalizer.LowerStr | model.py:43 | `lower()` on a string maps each character by `Lower` in place, keeping the length, and leaves no upper-case ASCII letter |
| TextNormalizer.RemovePunctCounts | model.py:43 | deleting `string.punctuation` leaves no punctuation and keeps every other character with its multiplicity |
| TextNormalizer.RemovePunctAppend | model.py:43 | the deletion distributes over concatenation, so it acts character by character and keeps order |
| TextNormalizer.RemovePunctChars | model.py:43 | every character left after the deletion is a non-punctuation character of the input |
| TextNormalizer.RemovePunctNoUpper | model.py:43 | deleting punctuation from a lower-cased text leaves it free of upper-case letters |
| TextNormalizer.RemovePunctIdentity | model.py:43 | a text without punctuation is unchanged by the deletion |
| TextNormalizer.LeadingSpace | model.py:43 | the leading run that `strip()` drops is whitespace, and the character after it is not |
| TextNormalizer.TrailingSpace | model.py:43 | the trailing run that `strip()` drops is whitespace, and the character before it is not |
| TextNormalizer.StripAt | model.py:43 | character i of the stripped text is character `LeadingSpace(s) + i` of the input, so `strip()` keeps a contiguous slice |
| TextNormalizer.StripDropsSpace | model.py:43 | what `strip()` removes from either end is whitespace |
| TextNormalizer.StripEdges | model.py:43 | the stripped text neither starts nor ends with whitespace |
| TextNormalizer.StripIdentity | model.py:43 | a text with no whitespace at either end is unchanged by `strip()` |
| TextNormalizer.CleanShape | model.py:41-43 | the cleaned text holds no punctuation and no upper-case ASCII letter, and has no leading or trailing whitespace |
| TextNormalizer.CleanEmpty | model.py:41-43 | cleaning the empty text gives the empty text |
| TextNormalizer.CleanIdempotent | model.py:43 | cleaning twice gives the same text as cleaning once |
| Selection.Insert | model.py:51 | inserting an index into an order yields one more entry, the old entries plus the new index |
| Selection.InsertDistinct | model.py:51 | inserting an unlisted index keeps the entries distinct |
| Selection.InsertSorted | model.py:51 | inserting keeps the keys ascending along the order |
| Selection.InsertTies | model.py:51 | inserting an index larger than every listed one keeps equal keys in index order |
| Selection.SortIndices | model.py:51 | the indices 0..n-1 each appear once, with keys ascending and equal keys in index order |
| Selection.Argsort | model.py:51 | every score vector has an order meeting what `numpy.argsort` promises (a permutation of the positions with ascending scores), so the `IsArgsort` precondition of the pre-filter can always be met |
| Selection.TailCount | model.py:51 | the slice `[-top_n:]` keeps `min(top_n, N)` entries for positive `top_n` and all `N` for `top_n == 0` |
| Selection.SuffixOfArgsort | model.py:50-51 | any suffix of any argsort lists distinct valid indices in ascending score order, and no dropped index scores above a kept one |
| Selection.SelectionOfAnyArgsort | model.py:50-51 | for every tie order of `argsort`, the pre-filter keeps `min(top_n, N)` distinct valid indices for positive `top_n`, in non-decreasing score order, each scoring at least as high as every dropped index |
| Selection.RankIsRanking | model.py:69 | the first `k` positions in descending score order are distinct valid positions, each ranked ahead of every later one and of every position left out |
| Selection.RankingUnique | model.py:69 | two results that both meet the ranking contract are equal, so the search result is determined by its inputs |
| SimilarityIndex.FlatIndex.constructor | model.py:67 | a new index holds no vectors and uses the given inner product |
| SimilarityIndex.FlatIndex.Add | model.py:68 | adding appends the vectors after the stored ones, so position i is the i-th vector added |
| SimilarityIndex.FlatIndex.Search | model.py:69 | the search returns the `k` best positions by descending inner product, ties by lower position, and is the ranking `Rank` defines |
| Recommender.JoinPart | model.py:18-28 | part k of the joined text sits at its offset, unchanged |
| Recommender.JoinAfterPart | model.py:18-28 | a single space follows every part but the last, and the last part ends the text |
| Recommender.OffsetStep | model.py:18-28 | consecutive parts start one separator apart |
| Recommender.CompositeLayout | model.py:18-28 | `job_text` holds workplace, working_mode, position, job_role_and_duties and requisite_skill in that order, each followed by a single space except the last |
| Recommender.CompositeLength | model.py:18-28 | `job_text` is exactly the five columns plus four separators long |
| Recommender.JobRecommendationSystem.constructor | model.py:15-39 | one entry per catalog row in row order: `jobs_texts[i]` is row i's composite text, `job_info` is the catalog with that column, `job_embeddings[i]` encodes `jobs_texts[i]`, and the catalog index holds all embeddings in row order |
| Recommender.JobRecommendationSystem.FilterTopJobs | model.py:45-56 | for any argsort `order` of the lexical scores, the texts, records and embeddings returned are equally long, position j of each comes from the same selected catalog row, there are `min(top_n, N)` distinct rows for positive `top_n`, and no dropped row scores above a kept one |
| Recommender.JobRecommendationSystem.RankedBySimilarity | model.py:67-70 | when each candidate embedding encodes its record's text, ranking the embeddings by inner product puts the records in non-increasing similarity to the query |
| Recommender.JobRecommendationSystem.RecommendJobs | model.py:58-71 | for any argsort `order` of the lexical scores of the cleaned résumé, returns `top_n` records at distinct search positions of a ranking of the candidates by inner product with the embedding of the cleaned résumé. Each record is the candidate record at that position, which is the catalog row the pre-filter selected there. Records come in non-increasing similarity. The same cleaned text feeds the lexical filter and the encoder. The catalog tables and index stay valid |

## Left out

- Loading the sentence encoder, its int8 quantisation and `encode` are not
  modelled (model.py:10-11, 32-34, 64-66). The encoder is the parameter `encode`.
- TF-IDF fitting and the sparse matrix product are not modelled
  (model.py:47-50). The parameter `lexical` gives the integer score vector
  directly.
- The float16 casts and the faiss internals are not modelled. Inner
  products are the abstract integer function `ip`. The search is an exhaustive
  ranking. Ties go to the lower position. faiss's own tie order is not
  visible in the code.
- The embedding dimension `self.dim` is not modelled. Embeddings are opaque.
- Recommender.JobRecommendationSystem.RecommendJobs: requires
  `0 < top_n <= min(100, N)`. The code passes `top_n` to the foreign search
  unchecked, and the model does not guess what that search does outside
  this range.
- `pd.read_csv`, the CSV columns other than the five the code reads, and
  the way `astype(str)` renders missing values are not modelled. Rows
  arrive as five strings.
- `to_dict(orient="records")` and the `{"recommended_jobs": ...}` wrapper
  are not modelled. The method returns the record sequence itself.
- Unicode case mapping and non-ASCII whitespace in `lower()` and `strip()`
  are not modelled. The model covers ASCII only.
- app.py is not part of this model. It holds the Streamlit page, PDF text
  extraction, caching and display.
