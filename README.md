# adzuna-pipeline-analysis, modelled in Dafny

The pipeline pulls "Data Engineer" job adverts from the Adzuna search API and
stores them in PostgreSQL. It then cleans the job locations and geocodes
them, and analyses the description texts: word frequencies and mentions of
technologies and soft skills. This project models the deterministic core of
that pipeline and proves what each step computes:

- `api_extraction.dfy` (module `ApiExtraction`): builds the search request for
  one result page and turns the `results` array of a successful response into
  flat job records.
- `data_clean_load.dfy` (module `DataCleanLoad`): covers the following steps.
  - The PostgreSQL URL built from the five `DB_*` variables.
  - The first-match city lookup over the ordered `city_map` table.
  - The cleaning of the location column: generic `UK` rows dropped, the rest
    lower-cased and mapped.
  - The per-row acceptance of geocoder answers: coordinates are kept only
    when the first candidate lies in Great Britain.
- `description_analysis.dfy` (module `DescriptionAnalysis`): covers the following steps.
  - Normalisation, tokenisation and stopword removal of the descriptions.
  - `top_words_counter`.
  - The two vocabulary counters: whole-token matching and non-overlapping
    substring matching.
  - The older root copy `description_analysis.py` holds three of the four
    functions: `process_data_frame` and the two vocabulary counters, but not
    `top_words_counter`. One set of members models both copies of those three.
- `text.dfy` (module `Text`): Python string behaviour restricted to ASCII, as
  the pipeline uses it:
  - `\s`, `\d` and `\w`
  - `lower`, `strip`
  - substring `in`
  - `str.count`, non-overlapping and scanned left to right
  - `' '.join`
  - `str(int)`
- `sequences.dfy` (module `Sequences`): occurrence counts, filtering,
  first-occurrence deduplication, a stable descending sort (Python's
  `sorted(..., reverse=True)`), and counters as maps to `nat`.
- `wrappers.dfy` (module `Wrappers`): `Option` and `Result`.

External pieces become parameters:

- The NLTK tokenizer is a function `string -> seq<string>`, and the stopword
  list is a set.
- `city_map` is a sequence of pairs, so its iteration order is explicit.
- The OpenCage geocoder is a function from the row index of the call and the
  location to an outcome: an exception, or a list of candidates. Each row's
  call has its own outcome, so two rows with the same location can fare
  differently, for example when one call is rate-limited.
- `requests.get` is a function from URL and parameters to a status code and
  an optional `results` array.
- Environment variables are `Option<string>` values.

Where the code and a natural reading of its comments and documentation
differ, the model follows the code:

- `multi_count_word_category` sorts its terms longest first, to prioritise
  matching multi-word phrases first. Every term is still counted independently with
  `str.count`, so the order changes no count. `"cloud"` is counted inside
  `"google cloud"`, and `"java"` inside `"javascript"`. See
  `CountTerms`, `LongerTermDoesNotShadow` and `SubstringInsideToken`.
- `single_count_word_category` lower-cases the vocabulary, not the tokens. A
  token matches only when it equals the lower-case form exactly.
- `clean_location_data` lower-cases the location before `map_city` but does
  not strip it. `map_city` itself changes nothing about its argument.
- The punctuation filter keeps `\w` characters, and those include the
  underscore.

## Model

| member | source | states |
|---|---|---|
| DescriptionAnalysis.NormalizeText | analysis/description_analysis.py:84-87 | The text handed to the tokenizer is no longer than its input and holds only lower-case letters, underscores and white space |
| DescriptionAnalysis.NormalizeChar | description_analysis.py:79-82 | One character survives normalisation, lower-cased, exactly when it is a letter, an underscore or white space; digits and punctuation vanish |
| DescriptionAnalysis.NormalizeAppend | analysis/description_analysis.py:84-87 | Normalisation works character by character, so it distributes over concatenation |
| DescriptionAnalysis.NormalizeIdempotent | analysis/description_analysis.py:84-87 | Normalising normalised text changes nothing |
| DescriptionAnalysis.NormalizeJoin | analysis/description_analysis.py:82-87 | Normalising the space-joined descriptions gives the normalised descriptions joined by one space, so words of neighbouring rows never fuse |
| DescriptionAnalysis.ProcessDataFrame | analysis/description_analysis.py:80-93 | The output has no stopword, is a subsequence of the tokens in their order, and holds every occurrence of each non-stopword token |
| DescriptionAnalysis.Ranking | analysis/description_analysis.py:98-99 | The `most_common` order is a rearrangement of the distinct words, sorted by descending occurrence count |
| DescriptionAnalysis.RankingCorrect | analysis/description_analysis.py:98-99 | The `most_common` order holds each distinct word once, ranked by descending occurrence count, and words with equal counts appear in the order of their first occurrence in the word list |
| DescriptionAnalysis.TopWords | analysis/description_analysis.py:99 | `most_common(n)` keeps `n` words, or every distinct word when there are fewer, and each of them occurs in the word list |
| DescriptionAnalysis.MostCommon | analysis/description_analysis.py:99 | `n` pairs, or one per distinct word when there are fewer; each pair is a word of the list with its occurrence count, no word twice, counts never increasing, and equal counts in order of first occurrence |
| DescriptionAnalysis.TopWordsOrdered | analysis/description_analysis.py:99 | The kept words are distinct, ordered by descending count, and tied words appear in order of first occurrence |
| DescriptionAnalysis.TopWordsMostFrequent | analysis/description_analysis.py:99 | The kept words are the most frequent ones: a word of the list that is left out occurs at most as often as any kept word, and a left-out word tied with a kept word first occurs after it |
| DescriptionAnalysis.MostCommonMostFrequent | analysis/description_analysis.py:99 | The pairs of `most_common(n)` hold the most frequent words: a word of the list in no pair occurs at most as often as any pair's count, and on a tie it first occurs after that pair's word |
| DescriptionAnalysis.TopWordsCounter | analysis/description_analysis.py:97-100 | At most `number_of_words` entries (default 10; all words when that many exist), each value the word's occurrence count. No word left out occurs more often than a word kept, and a word left out with the same count as a word kept first occurs later in the word list |
| DescriptionAnalysis.TopOneFirstOfTied | analysis/description_analysis.py:97-100 | `top_words_counter(words, 1)` is the most frequent word with its count, and among words tied for the top count the one that occurs first (for `b a a b c` it is `{"b": 2}`) |
| DescriptionAnalysis.CaseMap | analysis/description_analysis.py:127 | Each key of the lookup is the lower-case form of its value, and there are no more keys than vocabulary entries |
| DescriptionAnalysis.CaseMapCorrect | analysis/description_analysis.py:127 | The lower-case lookup has a key exactly for each entry's lower-case form, mapped to the last entry with that form |
| DescriptionAnalysis.CaseMapLowers | description_analysis.py:157 | Each kept spelling is a vocabulary entry whose lower-case form is its key |
| DescriptionAnalysis.KeptSpellingIsLast | description_analysis.py:181 | A kept spelling is the last vocabulary entry among those with the same lower-case form |
| DescriptionAnalysis.MapBack | analysis/description_analysis.py:141 | Re-keying the counts gives each kept original spelling the count of its lower-case form, and has no other keys |
| DescriptionAnalysis.SingleCountWordCategory | analysis/description_analysis.py:125-142 | Keys are the kept vocabulary spellings whose lower-case form occurs as a token. Each value is the number of tokens exactly equal to that form. Zero counts are absent, and the values add up to at most the number of tokens |
| DescriptionAnalysis.CountsAtDistinctKeysBounded | description_analysis.py:163-171 | Counts of tokens at pairwise different lower-case forms add up to the number of tokens in those forms, hence at most the token count |
| DescriptionAnalysis.LowerKeys | analysis/description_analysis.py:151-154 | The lookup's keys, each once |
| DescriptionAnalysis.SortedKeys | description_analysis.py:184 | The length-sorted terms are exactly the lookup's keys, each once |
| DescriptionAnalysis.CountTerms | description_analysis.py:190-197 | Each term present in the result has its `str.count` in the text, and only terms with a positive count are present; the order of the terms does not matter |
| DescriptionAnalysis.MultiCountWordCategory | analysis/description_analysis.py:148-172 | Keys are the kept vocabulary spellings whose lower-case form occurs in the space-joined tokens; each value is that form's non-overlapping occurrence count |
| DescriptionAnalysis.LongerTermDoesNotShadow | analysis/description_analysis.py:153-167 | Visiting `google cloud` first does not stop `cloud` from being counted in the same text |
| DescriptionAnalysis.SubstringInsideToken | analysis/description_analysis.py:160-165 | A term is counted inside a longer token (`java` in `javascript`) |
| Text.StrCount | analysis/description_analysis.py:165 | An empty term is counted once more than the text is long; a non-empty term at most once per character, and never in a shorter text (see `StrCountPositive` and `StrCountFits`) |
| Text.StrCountPositive | analysis/description_analysis.py:165-166 | `text.count(term)` is positive exactly when the term occurs in the text |
| Text.StrCountFits | analysis/description_analysis.py:165 | Occurrences counted are non-overlapping: count times term length is at most the text length |
| Text.JoinWithLayout | analysis/description_analysis.py:160 | In `' '.join(parts)` each part sits at its offset, followed by the separator, and the last part ends the string |
| Sequences.SortDescCorrect | analysis/description_analysis.py:154 | Sorting by descending key gives a sorted permutation of the input |
| Sequences.SortDescStable | analysis/description_analysis.py:99 | The sort is stable: elements of equal key keep their input order |
| Sequences.DistinctFirstOccurrence | analysis/description_analysis.py:98 | A `Counter` lists its keys in the order of their first occurrence |
| DataCleanLoad.GetDbUrl | analysis/data_clean_load.py:24-39 | An error exactly when some variable is missing or empty, otherwise a `postgresql://` URL |
| DataCleanLoad.GetDbUrlParses | analysis/data_clean_load.py:39 | The URL gives back user, password, host, port and database when they hold no separator characters |
| DataCleanLoad.MapCity | analysis/data_clean_load.py:72-76 | `None` exactly when no key is a substring of the location, otherwise the city of the first key, in table order, that is a substring |
| DataCleanLoad.MapCityAppend | analysis/data_clean_load.py:73-75 | Entries after the first matching one are never consulted |
| DataCleanLoad.MapCityCaseSensitive | analysis/data_clean_load.py:74 | The location is used as given: `London` does not match the key `london` |
| DataCleanLoad.CleanRow | analysis/data_clean_load.py:82-84 | The id is kept, the location is the input's lower-case form, not stripped (same length, no upper-case letter), and the city is unset exactly when no table key occurs in the lower-cased location, otherwise that of the first key that does |
| DataCleanLoad.CleanLocationData | analysis/data_clean_load.py:78-86 | No more rows than the input, and each row's city is the table lookup of its own lower-cased location (row membership, order and count: `CleanLocationDataRows`, `CleanLocationDataAppend`, `CleanLocationDataLength`) |
| DataCleanLoad.CleanLocationDataRows | analysis/data_clean_load.py:80-84 | The output rows are exactly the cleaned forms of the input rows whose stripped location is not `UK` |
| DataCleanLoad.CleanLocationDataAppend | analysis/data_clean_load.py:78-86 | Cleaning works row by row and keeps the row order |
| DataCleanLoad.CleanLocationDataLength | analysis/data_clean_load.py:80 | Exactly one row is dropped per row whose stripped location is `UK` |
| DataCleanLoad.CleanedLocationIsCity | analysis/data_clean_load.py:84 | Every cleaned location is unset or a city of the table |
| DataCleanLoad.CleanLocationDataExample | analysis/data_clean_load.py:78-86 | `"  UK  "` is dropped, `"Greater Manchester, England"` maps to `Manchester`, and a lower-case `uk` row survives unmapped |
| DataCleanLoad.AddGeocoordinates | analysis/data_clean_load.py:125-175 | Same rows, ids and locations. Latitude and longitude are both set or both unset. They are set exactly when the first candidate of that row's own geocoder call has country code `gb` and both coordinates, and then equal that candidate's coordinates |
| DataCleanLoad.AcceptedAnswerFirstOnly | analysis/data_clean_load.py:150-157 | Only the first candidate of an answer decides acceptance |
| DataCleanLoad.MissingCountryRejected | analysis/data_clean_load.py:152-156 | A candidate without components or without a country code is rejected |
| ApiExtraction.SearchUrl | extraction/api_extraction.py:32 | The request goes to the Adzuna GB search path |
| ApiExtraction.SearchUrlPage | extraction/api_extraction.py:32 | The page number is the decimal suffix of the URL and can be read back |
| ApiExtraction.SearchParams | extraction/api_extraction.py:34-41 | Parameters are the credentials, `results_per_page='50'`, `what='Data Engineer'` and `max_days_old` exactly when it is set and non-zero |
| ApiExtraction.BaseParams | extraction/api_extraction.py:34-39 | The fixed parameters never include `max_days_old` |
| ApiExtraction.BuildParams | extraction/api_extraction.py:34-41 | The dictionary built in place, with the conditional `max_days_old` entry, is exactly the parameter set described by `SearchParams` |
| ApiExtraction.ShapeResults | extraction/api_extraction.py:50-70 | The loop appends exactly one shaped record per job, in the order of `results` |
| ApiExtraction.ZeroDaysOmitted | extraction/api_extraction.py:40-41 | A zero age limit is treated like a missing one |
| ApiExtraction.ShapeJob | extraction/api_extraction.py:54-69 | `id`, `title` and the salaries pass through; description, company, location display name and redirect URL are stripped, or empty when missing |
| ApiExtraction.ShapeJobIdempotent | extraction/api_extraction.py:54-57 | Shaping an already shaped record changes nothing |
| ApiExtraction.ExtractAdzunaData | extraction/api_extraction.py:30-76 | `None` exactly when the status is not 200. Otherwise there is one shaped record per element of `results`, in order, and none when `results` is missing |
| Text.StripSpec | extraction/api_extraction.py:54-57 | `strip` removes a surrounding run of white space and leaves none at either end |
| Text.StripIdempotent | extraction/api_extraction.py:54-57 | Stripping twice is stripping once |
| Text.IntToStringRoundTrip | extraction/api_extraction.py:32 | The decimal form of an integer determines it |

## Left out

- Database I/O is not modelled, because it is PostgreSQL behaviour rather than pipeline logic. This covers:
  - `load_query` and `load_descriptions`, with their SQL file reading.
  - `update_cleaned_location`, `create_table` and `insert_jobs_to_db`.
  - `update_coordinates`, including its rule to write only rows with both coordinates set.
  - The `run_*_pipeline` functions.
- Other I/O is left out as well:
  - `load_data_from_file`.
  - The NLTK resource downloads.
  - The word-cloud and plotting code.
  - The Streamlit pages.
- The HTTP client, the OpenCage client, NLTK's `word_tokenize` and its English stopword list are foreign code. The model takes them as parameters.
- `time.sleep`, `time.time` and the progress prints are left out. They only pace and log the loop.
- Module-level script code and `extraction/run_extraction.py` are not part of this model. The latter extends its list with each page's result, and it would fail on a page that returned `None`.
- The contents of `city_map` and `DB_CONFIG` are not part of this model. The city table is a parameter.
- Character classes, `lower` and `strip` are restricted to ASCII. Python applies Unicode rules to other characters.
- Missing values inside the frames are left out. The rows carry strings, and a null description or location (which makes the source raise or propagate NaN) is not represented.
- Latitude, longitude and salaries are opaque `real` values. They are only copied, never computed.
- ApiExtraction.ShapeJob: a key present with a JSON `null` is treated like a missing key. In the source, `.strip()` on such a value raises.
- ApiExtraction.ExtractAdzunaData: the response body is assumed to be valid JSON. `requests` dropping parameters whose value is `None` is left to the `get` parameter. A body with `"results": null` is treated like one without `results` and gives an empty list; in the source, iterating over `None` raises `TypeError`.
- DescriptionAnalysis.TopWordsCounter: `number_of_words=None`, which `most_common` reads as "all words", is not modelled. The count is an integer.
- DataCleanLoad.AddGeocoordinates: exceptions other than a failed geocoder call or a missing coordinate key are not modelled. Those two are represented by `Raised` and by a missing `lat`/`lng`. A `lat` or `lng` present with a JSON `null` is treated like a missing key, so both coordinates stay unset; in the source the read succeeds and `None` is written, so with `"lat": null` the row gets a longitude without a latitude.
