# Resume matcher keyword bookkeeping, in Dafny

This project models the keyword bookkeeping of the resume matcher's backend
(`backend/matcher/views.py`). It has four parts:

- **The skill catalog.** The rows of the skills table (job role, skill,
  weight) are grouped into an insertion-ordered dictionary from role to its
  list of (skill, weight). That dictionary is flattened into
  `keyword_phrases`, the list of all skill names (`catalog.dfy`, module
  `SkillCatalog`).
- **`get_missing_keywords`.** The catalog skills that the job description's
  keyword set has and the resume's lacks. Each is scored by its weight and by
  its position in its role's list. The list is stable-sorted by score, highest
  first, and cut to the first 15 (`gap_ranker.dfy`, module `GapRanker`).
- **`extract_keywords_simple`.** The words of at least three ASCII letters in
  the lowercased text, stopwords dropped. They are counted, ranked by count
  with ties in first-occurrence order, and cut to the first 30
  (`simple_keywords.dfy`, module `SimpleKeywords`).
- **The keyword comparison in `match_resume`.** The matched, missing, extra and
  unrecognized keyword sets, `total_keywords`, and the pie-chart percentages
  before rounding (`keyword_breakdown.dfy`, module `KeywordBreakdown`).

Shared pieces:

- `seqs.dfy` (`Seqs`): `list.index` with its ValueError case, the key order of
  a `dict` or `Counter`, and slicing.
- `stable_sort.dfy` (`StableSort`): Python's stable descending sort
  (`list.sort(key=…, reverse=True)` and `sorted(…, reverse=True)`). It is
  modelled as an insertion sort. `SortDescUnique` proves that any stable
  descending sort gives the same result.
- `text.dfy` (`Text`): `str.lower()` on ASCII.

How the source's code becomes Dafny:

- **Loops become methods.**
  - The grouping loop is `SkillCatalog.BuildCatalog`.
  - The two loops of `get_missing_keywords` are `GapRanker.CollectCandidates`
    (its inner loop is `GapRanker.CollectRole`) and
    `GapRanker.AssignPriorities`.
  - `GapRanker.GetMissingKeywords` runs both, sorts and slices.
  - Each method is proved equal to a specification function. The properties
    are proved about that function.
- **Comprehensions, `Counter`, `sorted` and set expressions become functions.**

Inputs that come from outside the core are parameters:

- The keyword sets produced by the embedding model are arbitrary
  `set<string>` values.
- The stopword list is a `set<string>`.
- The rows of the skills table are a `seq<Row>`.
- Python's Unicode word-character class `\w` is a predicate `isWord`.
  - `SimpleKeywords.WordClass` requires it to contain the ASCII letters,
    digits and underscore. This is all the regex's word boundary needs.
  - `SimpleKeywords.AgreesOnAscii` requires it to be exactly the ASCII word
    characters on ASCII. The examples use this.

`match_resume` (backend/matcher/views.py:168-249) calls neither
`get_missing_keywords` nor `extract_keywords_simple`. Its `missing` output is
`list(missing)` (lines 209 and 231): the set difference `KeywordBreakdown.Split`
models, unranked and in the set's iteration order. The ranked list of
`GapRanker` is what `get_missing_keywords` would return if called.

## Model

| member | source | states |
|---|---|---|
| SkillCatalog.Group | backend/matcher/views.py:34-41 | The dictionary the grouping loop builds: valid (each key once, exactly the map's keys), with every row's role a key and every key some row's role. `GroupRoleOrder` and the `RowsOf…` lemmas give its key order and lists. |
| SkillCatalog.BuildCatalog | backend/matcher/views.py:34-41 | The grouping loop builds `Group(rows)`: one key per role, each role's rows in table order, and a valid dictionary (keys once each, exactly the map's keys). |
| SkillCatalog.GroupRoleOrder | backend/matcher/views.py:34-41 | The dictionary is valid, every row's role is a key, and the keys are in order of first appearance in the table. |
| SkillCatalog.RowsOfSound | backend/matcher/views.py:39-41 | Every entry of a role's list comes from a row of that role. |
| SkillCatalog.RowsOfAppend | backend/matcher/views.py:39-41 | A role's list for two runs of rows is its list for the first run followed by its list for the second. With the one-row case `RowsOfStep` this fixes the list exactly: the role's entries, in table order, nothing else. |
| SkillCatalog.RowsOfComplete | backend/matcher/views.py:39-41 | Every row's (skill, weight) is in its role's list. |
| SkillCatalog.RowsOfOrder | backend/matcher/views.py:39-41 | Two rows of the same role appear in that role's list in table order. |
| SkillCatalog.KeywordPhrases | backend/matcher/views.py:44 | `keyword_phrases`: every name in it is a skill in the list of one of the dictionary's roles. `KeywordPhrasesCoverRows` gives the converse and the counts. |
| SkillCatalog.PhrasesSound | backend/matcher/views.py:44 | Flattening the lists of some roles yields only skills listed under one of those roles. |
| SkillCatalog.KeywordPhrasesCoverRows | backend/matcher/views.py:44 | `keyword_phrases` holds each row's skill name exactly as often as the table does, so its length is the number of rows. |
| Seqs.IndexOf | backend/matcher/views.py:109-112 | `.index` with its ValueError fallback: the first position of the element, or the length when it is absent (the position is below the length exactly when the element occurs). |
| Seqs.DedupFirstOccurrence | backend/matcher/views.py:79-80 | The `Counter`'s keys are the distinct words in order of first occurrence. |
| Seqs.Take | backend/matcher/views.py:117 | The slice `s[:n]` is the first `min(n, len(s))` elements. |
| StableSort.SortDesc | backend/matcher/views.py:116 | The sort returns a permutation of its input whose keys are non-increasing. |
| StableSort.SortDescStable | backend/matcher/views.py:116 | Stability: for every key, the elements with that key keep their input order. |
| StableSort.SortDescKeepsTies | backend/matcher/views.py:116 | Two output elements with equal keys occur in that order in the input. |
| StableSort.SortDescUnique | backend/matcher/views.py:116 | Any non-increasing rearrangement that keeps the order within each key equals the sort's result. |
| Text.Lower | backend/matcher/views.py:77 | `str.lower()` keeps the length and lowers each ASCII capital, leaving other characters alone. |
| GapRanker.MissingKeywords | backend/matcher/views.py:99-117 | The value `get_missing_keywords` returns: at most 15 keywords, exactly 15 unless fewer candidates were emitted, in which case all of them. `MissingKeywordsSound`, `MissingKeywordsTop` and `RankingComplete` state what they are. |
| GapRanker.Position | backend/matcher/views.py:109-112 | `keyword_position` is at most the list's length, and below it exactly when the keyword is in the role's lowercased list (otherwise the ValueError fallback gives the length). |
| GapRanker.Priority | backend/matcher/views.py:109-113 | A keyword absent from its role's lowercased list gets priority 0. A listed one with a non-negative weight gets at least its weight. |
| GapRanker.Ranking | backend/matcher/views.py:116 | The sorted `priority_map` is a rearrangement of the emitted pairs with non-increasing priorities. `RankingOrder` adds stability. |
| GapRanker.CollectCandidates | backend/matcher/views.py:101-105 | The nested loops emit, role by role and in list order, each skill whose lowercase form the job description has and the resume lacks. |
| GapRanker.CollectRole | backend/matcher/views.py:103-105 | The inner loop over one role's list emits, in list order, each skill whose lowercase form the job description has and the resume lacks, with its weight and role. |
| GapRanker.AssignPriorities | backend/matcher/views.py:107-114 | Each candidate gets `weight * (len(list) - first position of the keyword in the lowercased list)`, in candidate order. |
| GapRanker.GetMissingKeywords | backend/matcher/views.py:99-117 | Returns at most 15 keywords, each in the job description, not in the resume, and the lowercase form of a catalog skill. |
| GapRanker.MissingKeywordsSound | backend/matcher/views.py:116-117 | The result has length `min(15, number of candidates)` and is a prefix of the ranked keywords. Every keyword in it is missing from the resume and comes from the catalog. |
| GapRanker.RankingComplete | backend/matcher/views.py:102-105 | Every catalog entry whose lowercase skill the job description has and the resume lacks is ranked, with its priority. |
| GapRanker.MissingKeywordsTop | backend/matcher/views.py:116-117 | A missing catalog keyword left out of the result means 15 keywords were returned, each ranked at least as high as it. |
| GapRanker.RankingOrder | backend/matcher/views.py:116 | The ranking has the same candidates (none merged), non-increasing priorities, and equal priorities in emission order. |
| GapRanker.MissingKeywordsOfSorted | backend/matcher/views.py:116-117 | When the candidates are emitted with non-increasing priorities and number at most 15, the sort leaves them in place and the answer is their keywords in emission order. |
| GapRanker.CandidatePosition | backend/matcher/views.py:109-113 | A candidate's position is the first index of its keyword in its role's lowercased list. The ValueError fallback never happens, and `len - position >= 1`. |
| GapRanker.PriorityAt | backend/matcher/views.py:109-113 | A keyword first listed at position `i` of its role's lowercased list gets priority `weight * (len - i)`. |
| GapRanker.EarlierListingOutranks | backend/matcher/views.py:113 | With a positive weight no smaller than the other's, an earlier position in the same role gives a strictly higher priority. |
| GapRanker.BackendExample | backend/matcher/views.py:99-117 | A one-role catalog (python 5, sql 3), a job description with both and a resume with sql: the result is `["python"]` with priority 10. |
| GapRanker.DuplicateAcrossRolesExample | backend/matcher/views.py:101-117 | A skill missing under two roles is returned twice. |
| SimpleKeywords.Tokens | backend/matcher/views.py:77 | The words `re.findall` returns: each is at least three ASCII letters. `TokensSplit`, `TokensOfRun`, `TokensSound` and `TokensComplete` pin down which. |
| SimpleKeywords.TokensSplit | backend/matcher/views.py:77 | A non-word character splits the text: the words are those of the left side, then those of the right side. |
| SimpleKeywords.TokensOfRun | backend/matcher/views.py:77 | A run of word characters yields itself when it is at least three ASCII letters, and nothing otherwise. |
| SimpleKeywords.TokensSound | backend/matcher/views.py:77 | Every word found is a match of `\b[a-zA-Z]{3,}\b` in the text. |
| SimpleKeywords.TokensComplete | backend/matcher/views.py:77 | Every match of `\b[a-zA-Z]{3,}\b` in the text is found. |
| SimpleKeywords.DropStopwords | backend/matcher/views.py:78 | Filtering keeps every occurrence of each non-stopword and no occurrence of a stopword. `DropStopwordsAppend` and `DropOne` together fix the result exactly: the non-stopwords, each where it was. |
| SimpleKeywords.DropStopwordsAppend | backend/matcher/views.py:78 | Filtering two runs of words gives the filtered first run followed by the filtered second run. |
| SimpleKeywords.DropOne | backend/matcher/views.py:78 | A single word is kept exactly when it is not a stopword. |
| SimpleKeywords.DropNoStopwords | backend/matcher/views.py:78 | A word list without stopwords passes the filter unchanged. |
| SimpleKeywords.DropKeepsOrder | backend/matcher/views.py:78 | The filter keeps the order of the words it keeps: of two non-stopwords, the one first seen earlier in the word list is first seen earlier in the filtered list, and conversely. |
| SimpleKeywords.ByCount | backend/matcher/views.py:79-80 | The `Counter`'s keys sorted by count: each distinct filtered word once, nothing else, with non-increasing counts. `ExtractKeywordsOrder` adds the tie order. |
| SimpleKeywords.ExtractKeywordsSimple | backend/matcher/views.py:75-80 | The value `extract_keywords_simple` returns: at most 30 keywords, each one of the filtered words. The lemmas below say which ones and in what order. |
| SimpleKeywords.ExtractedWord | backend/matcher/views.py:77-80 | Each keyword is a word of the lowercased text, at least three small ASCII letters long, and not a stopword. |
| SimpleKeywords.ExtractKeywordsDistinct | backend/matcher/views.py:79-80 | No keyword is returned twice, and at most 30 are returned. |
| SimpleKeywords.ExtractKeywordsOrder | backend/matcher/views.py:79-80 | Counts in the filtered words never increase along the result. Keywords with equal counts appear in order of first occurrence in the filtered words. |
| SimpleKeywords.ExtractKeywordsTextOrder | backend/matcher/views.py:77-80 | Stated against the words of the lowercased text: counts never increase along the result, and keywords with equal counts appear in order of their first occurrence in the text. |
| SimpleKeywords.ExtractKeywordsTop | backend/matcher/views.py:79-80 | A counted word left out of the result means 30 keywords were returned, each at least as frequent. Each returned keyword exactly as frequent first occurs earlier in the filtered words. |
| SimpleKeywords.MoreFrequentFirst | backend/matcher/views.py:75-80 | The text `a b b` gives `[b, a]`: frequency outranks first occurrence. |
| KeywordBreakdown.Split | backend/matcher/views.py:208-214 | Matched plus missing is the job description's set, matched plus extra is the resume's, the three are pairwise disjoint, and unrecognized is empty. |
| KeywordBreakdown.Percents | backend/matcher/views.py:214-221 | With no keywords all four percentages are 0. Otherwise each percentage times `total_keywords` is 100 times its part's size. |
| KeywordBreakdown.SplitPartition | backend/matcher/views.py:208-214 | Matched, missing and extra are pairwise disjoint and cover both keyword sets. Matched plus missing is the job description's set; matched plus extra is the resume's. The sizes add up to `total_keywords`, and unrecognized is empty. |
| KeywordBreakdown.SplitMembership | backend/matcher/views.py:208-211 | A keyword is matched exactly when both sides have it, missing exactly when only the job description has it, and extra exactly when only the resume has it. |
| KeywordBreakdown.SplitEmpty | backend/matcher/views.py:214-215 | `total_keywords` is 0 exactly when both keyword sets are empty. |
| KeywordBreakdown.PercentsOfSplit | backend/matcher/views.py:214-221 | With keywords, the percentages are each between 0 and 100 and add up to 100, with unrecognized at 0. With none, all are 0. |

## Left out

- `extract_keywords_advanced`, the sentence-embedding model, cosine similarity and `torch.topk`. These are an external model and floating-point arithmetic. Their results enter the model as arbitrary keyword sets.
- The similarity score.
- KeywordBreakdown.PercentsOfSplit: the percentages are exact real numbers. Floating-point division and `round(…, 2)` are not modelled.
- Weights are integers. The table may hold non-integer weights, whose floating-point products are not modelled.
- `extract_text`: file reading through the PDF and DOCX libraries.
- `generate_donut_chart`: chart rendering to disk.
- The request handling of `match_resume`: upload saving, JSON responses and file clean-up. This includes the rejection of any resume whose text contains the substring "ERROR".
- Loading the skills table from CSV and downloading the stopword list. They are given as a sequence of rows and a set of words.
- Text.Lower: maps only the ASCII capitals. The Unicode case mappings of `str.lower()` (for instance the Kelvin sign, which lowers to an ASCII `k`) are not modelled.
- SimpleKeywords.TokensSound: Python's Unicode `\w` is the parameter `isWord`, so the regex's word boundary is modelled only as far as `WordClass` constrains it.
- The iteration order of `list(missing)` in `match_resume` is Python's set order, which is not modelled; `missing` is modelled as a set.
- `GetMissingKeywords` sorts `priority_map` in place. The model reassigns a sequence value, so aliasing of that list is not modelled.
- The `threshold` parameter of `get_missing_keywords` is unused by its body and is not modelled.
- `backend/matcher/forms.py` and `backend/matcher/urls.py` declare a form and a URL route and hold no logic.
