# Keyword Generator — a Dafny model of its corpus and keyword core

The Keyword Generator reads a directory of text documents and a directory of
stop-word lists. It builds a bag-of-words corpus, fits a topic model (LDA) or
a TF-IDF model with gensim, and turns the model's output into a ranked list
of keywords. This project models the parts of that pipeline that are the
program's own code:

- `corpus.py`:
  - loading the documents, optionally cut into pieces of `doc_length` words (`get_documents`, `splitter`);
  - loading the stop-word lists (`get_stop_words`);
  - filtering each token stream against the stop list (`iter_docs`);
  - the `MyCorpus` object: its document list, its stop list, the pruning thresholds it hands to `filter_extremes`, and the bag of words it yields per document.
- `keywords_lda.py`:
  - removing topics the user names at the prompt (`exclude_topics`);
  - scoring each topic term by the sum of its topic weights times the log of its corpus frequency, then ranking (`generate_keywords`);
  - the text written by `export_keywords`.
- `keywords_tfidf.py`: summing each term's TF-IDF scores over the documents and ranking (`generate_keywords`).

The Dafny modules follow the source files:

| module | file | contents |
|---|---|---|
| `Wrappers` | wrappers.dfy | `Option` and `Result` |
| `Text` | text.dfy | Python's `str.split()`, `str.split(c)`, `" ".join`, `str.replace` and `int()` on text |
| `Ranking` | ranking.dfy | the shared "`d[key] += score`, then `sorted(d.items(), key=itemgetter(1), reverse=True)[:k]`" pattern |
| `Corpus` | corpus.dfy | `corpus.py` |
| `KeywordsLda` | keywords_lda.dfy | `keywords_lda.py` |
| `KeywordsTfidf` | keywords_tfidf.dfy | `keywords_tfidf.py` |

How the model stands in for what it cannot see:

- A directory is the sequence of its files (name and contents) in listing order.
- The prompt's answer is a string parameter.
- Gensim's tokenizer and `doc2bow` are function parameters.
- `math.log` is a function parameter `log` on reals.
- Scores are `real`.
- A corpus is a sequence of `(id, count)` bags.
- A dictionary is a sequence of `(id, term)` pairs in iteration order.
- Python 2's unspecified dictionary iteration order is a nondeterministic choice (`:|`) in the methods that iterate a dictionary.
- Equally scored items may come out of the ranking in any order.

Points of the code's behaviour the model keeps on purpose:

- **Stop words.** `get_stop_words` (corpus.py:61-65) splits on line breaks only, after turning `\r\n` and lone `\r` into `\n`. It keeps every line, empty lines and duplicates included, and does not lower-case or deduplicate.
- **Pruning thresholds.** `MyCorpus.__init__` (corpus.py:88-91) always passes `no_below = 2` and `keep_n = 100000`. It passes `no_above = 1` when there are fewer than 5 documents and `0.95` otherwise.
- **Decoding.** Every file is read as it is, as bytes, with no decoding step.
- **Byte strings against unicode.** The stop words are Python 2 byte strings and the tokens are unicode. `x not in stoplist` (corpus.py:74) decodes each stop word as ASCII to compare it; a stop word with a non-ASCII byte never compares equal, and the warning that raises is silenced (corpus.py:79). So only ASCII tokens are ever filtered out (`Corpus.IsStopWord`).
- **Export encoding.** `export_keywords` writes unicode terms to a file opened without an encoding (keywords_lda.py:106-111). Writing a term with a non-ASCII character raises `UnicodeEncodeError`; the model returns the lines written up to that term and a failure flag.
- **`int()`.** Python 2's `int()` skips whitespace around the text and also between the sign and the digits, and accepts leading zeros and a `+` sign.

## Model

| member | source | states |
|---|---|---|
| Text.WordsSplitAtSpace | corpus.py:49 | `s.split()` cuts at every whitespace character: the words of `a + c + b` are the words of `a` followed by those of `b` |
| Text.WordsOfWord | corpus.py:49 | a non-empty text without whitespace is one word; with the previous row and `"".split() == []` this fixes `split()` on every text |
| Text.Join | corpus.py:50 | `sep.join(parts)` has the parts' lengths plus one separator between each two, and starts with the first part |
| Text.WordsOfJoin | corpus.py:49-50 | splitting the space-join of whitespace-free words gives back exactly those words |
| Text.SplitOn | corpus.py:63 | `s.split(c)` has at least one piece and no piece contains `c` |
| Text.SplitOnNoSeparator | corpus.py:63 | a text without `c` splits into itself alone |
| Text.SplitOnCount | corpus.py:63 | `s.split(c)` has one more piece than `s` has occurrences of `c` |
| Text.JoinSplitOn | corpus.py:63 | joining the pieces of `s.split(c)` with `c` rebuilds `s` |
| Text.SplitOnJoin | corpus.py:63 | splitting the `c`-join of `c`-free parts gives back the parts |
| Text.ReplaceChar | corpus.py:62 | `s.replace(a, b)` keeps the length and changes exactly the positions holding `a` to `b` |
| Text.RemoveChar | keywords_lda.py:40 | `s.replace(" ", "")` leaves no space, is shorter by the number of spaces, and leaves a text without spaces unchanged |
| Text.RemoveCharAppend | keywords_lda.py:40 | removing works part by part over a concatenation, so every other character survives in its order |
| Text.ParseInt | keywords_lda.py:45 | `int("")` fails |
| Text.ParseIntAccepts | keywords_lda.py:45 | `int(s)` succeeds exactly when the stripped text is digits, or a sign, optional whitespace and digits |
| Text.ParseIntOfDigits | keywords_lda.py:45 | `int(ds)`, `int("+" + ds)` and `int("-" + ds)` give the value of the digits, positive or negated |
| Text.ParseIntSignSpace | keywords_lda.py:45 | a sign, any whitespace (tabs survive the space removal at keywords_lda.py:40), then digits gives the signed value: `int("-\t7") == -7` |
| Text.LeadingZero | keywords_lda.py:45 | a leading zero changes neither the digits' value nor what `int()` returns |
| Text.ParseIntIgnoresSpace | keywords_lda.py:45 | whitespace before and after the text does not change what `int()` returns |
| Text.ParseIntOfDecimal | keywords_lda.py:45 | `int(str(n)) == n` and `int("-" + str(n)) == -n` for every natural `n` |
| Text.JoinSnoc | keywords_lda.py:113-118 | adding a keyword to a query appends it directly when the query is empty and after the separator otherwise |
| Ranking.TotalAppend | keywords_tfidf.py:42-49 | a key's score sum over two runs of pairs is the sum of its sums over each |
| Ranking.TotalAbsent | keywords_tfidf.py:42-49 | a key that never occurs sums to zero |
| Ranking.AccumulateTotals | keywords_lda.py:69-76 | the dictionary built by `d[key] += score` has exactly the keys that occur, each mapped to the sum of its scores |
| Ranking.PrefixNegative | keywords_lda.py:93 | for `-len(xs) <= k < 0`, `xs[:k]` is `xs[:len(xs) + k]` and has `len(xs) + k` items |
| Ranking.PrefixBounds | keywords_lda.py:93 | `xs[:k]` is all of `xs` for `k >= len(xs)`, empty for `k <= -len(xs)`, has `k` items in between, and is always an initial part of `xs` |
| Ranking.Rank | keywords_lda.py:90 | `sorted(d.items(), key=itemgetter(1), reverse=True)` lists every entry of `d` exactly once, by non-increasing score |
| Ranking.TopOfRanking | keywords_lda.py:93 | `ranked[:k]` is sorted and duplicate-free, and every entry left out scores no higher than any entry kept |
| Corpus.PieceCountIsCeiling | corpus.py:50 | the number of pieces is the ceiling of words / `n`, and zero words give zero pieces |
| Corpus.PiecesCount | corpus.py:50 | the generator yields one piece per started group of `n` words |
| Corpus.PiecesAt | corpus.py:50 | piece `k` holds exactly the words `pieces[k*n : k*n+n]` |
| Corpus.SplitterShape | corpus.py:48-50 | `splitter(n, s)` yields ceil(words/`n`) pieces, each but the last of exactly `n` words and the last of 1 to `n` words |
| Corpus.Splitter | corpus.py:48-50 | the words of the pieces `splitter(n, s)` yields, in order, are the words of `s`: nothing lost, added or reordered |
| Corpus.GetDocuments | corpus.py:29-44 | `get_documents` yields, for each visible file in listing order, either its whole text or its `splitter` pieces |
| Corpus.DocumentsAppend | corpus.py:32-41 | the documents of two runs of files are the documents of the first followed by those of the second |
| Corpus.DocumentCountWhole | corpus.py:37-41 | with `doc_length <= 0` there is one document per visible file |
| Corpus.DocumentCountChunked | corpus.py:37-39 | with `doc_length > 0` there are ceil(words/`doc_length`) documents per visible file |
| Corpus.ReplaceCrCounts | corpus.py:62 | after replacing `\r` by `\n`, the line feeds number the line feeds and carriage returns of the text before |
| Text.ReplaceCrLf | corpus.py:61 | after `s.replace("\r\n", "\n")` the line feeds and carriage returns together count the text's line breaks, only carriage returns were removed, and a text without `\r` is unchanged |
| Text.ReplaceCrLfAppend | corpus.py:61 | the replacement works part by part over a concatenation whose cut is not inside a `"\r\n"` pair, so every other character keeps its place and order |
| Text.ReplaceCharAppend | corpus.py:62 | replacing one character works part by part over a concatenation |
| Corpus.NormalizeNewlines | corpus.py:61-62 | the normalised text has no `\r`, one `\n` per line break of the original, and a text without `\r` is unchanged |
| Corpus.NormalizeAppend | corpus.py:61-62 | normalising works part by part over a concatenation whose cut is not inside a `"\r\n"` pair |
| Corpus.NormalizeJoin | corpus.py:61-62 | lines separated by `"\r\n"`, `"\r"` or `"\n"` normalise to the same lines joined by `"\n"` |
| Corpus.FileStopWordsOfLines | corpus.py:59-65 | a file whose lines are `ls`, separated by any one of the three line breaks, contributes exactly the entries `ls` |
| Corpus.FileStopWordsLines | corpus.py:59-65 | a stop-word file contributes one entry per line (line breaks + 1), and the entries joined by `\n` are its normalised text |
| Corpus.GetStopWords | corpus.py:54-68 | `get_stop_words` collects the lines of every visible file in listing order |
| Corpus.StopWordsLines | corpus.py:54-68 | the stop list has one entry per line of the visible files and no entry holds `\r` or `\n` |
| Corpus.RemoveStopWords | corpus.py:74 | no token that survives the filter is an ASCII token equal to a stop word |
| Corpus.RemoveStopWordsCounts | corpus.py:74 | an ASCII stop word occurs zero times after the filter, and every other token, non-ASCII ones included, as often as before |
| Corpus.RemoveStopWordsOrder | corpus.py:74 | the surviving tokens keep their original order |
| Corpus.TokenStreams | corpus.py:72-74 | `iter_docs` yields one filtered token stream per document, in document order |
| Corpus.PruningThresholds | corpus.py:88-91 | `no_below` is 2 and `keep_n` 100000; `no_above` is 1 exactly when there are fewer than 5 documents and 0.95 otherwise |
| Corpus.MyCorpus.constructor | corpus.py:82-91 | a new corpus holds the loaded documents, the loaded stop list and the thresholds for its document count |
| Corpus.MyCorpus.Bags | corpus.py:99-101 | iterating the corpus yields, per document, the bag of words of its filtered tokens |
| KeywordsLda.DeleteAt | keywords_lda.py:48 | `del xs[k]` succeeds exactly for `-len <= k < len`; it removes the element at `k` (counted from the end when negative), keeps the earlier ones in place and moves the later ones down by one |
| KeywordsLda.ParseEntries | keywords_lda.py:44-45 | on success entry `i` parses to value `i`, one value per entry; a failure names the first entry `int()` rejects |
| KeywordsLda.SortDescending | keywords_lda.py:46 | `sort(reverse=True)` is a permutation in non-increasing order |
| KeywordsLda.ExcludeTopics | keywords_lda.py:36-49 | `exclude_topics` strips spaces, returns the topics unchanged on an empty answer, parses the comma-separated indices, sorts them largest first and deletes each 1-based index in turn |
| KeywordsLda.ExcludeBlank | keywords_lda.py:40-42 | an answer of spaces only keeps every topic |
| KeywordsLda.DeleteAllLength | keywords_lda.py:47-48 | when every deletion succeeds, one topic goes per index |
| KeywordsLda.DeleteDescending | keywords_lda.py:46-48 | deleting valid positions largest first removes exactly those positions and keeps the rest in order |
| KeywordsLda.SortDistinct | keywords_lda.py:46 | sorting distinct indices gives a strictly descending list of the same indices |
| KeywordsLda.ExcludeDistinct | keywords_lda.py:40-49 | distinct indices within 1..len(topics) remove exactly the named topics, leave the others in order, and shorten the list by the number of indices |
| KeywordsLda.ExcludeTooLarge | keywords_lda.py:46-48 | an index above the number of topics makes the deletion fail with `IndexError` |
| KeywordsLda.ExcludeNotInteger | keywords_lda.py:43-45 | a non-empty answer with a non-integer entry is rejected with `ValueError` |
| KeywordsLda.ExcludeTrailingComma | keywords_lda.py:43-45 | the answer "1," is rejected because its last entry is empty |
| KeywordsLda.ExcludeZero | keywords_lda.py:48 | the index 0 deletes the last topic (`del topics[-1]`) |
| KeywordsLda.ExcludeSecondOfThree | keywords_lda.py:36-49 | excluding "2" from three topics leaves the first and the third |
| KeywordsLda.SumWeights | keywords_lda.py:68-76 | the first loop maps each topic term, and nothing else, to the sum of its weights over all topics |
| KeywordsLda.TermWeightsKeys | keywords_lda.py:69-76 | the terms the loop visits are exactly the terms of the topics |
| KeywordsLda.FindTokenIndex | keywords_lda.py:81-84 | the search returns the id of the first dictionary entry whose term is the token |
| KeywordsLda.IdOfFirst | keywords_lda.py:81-84 | the first entry holding the term gives its id |
| KeywordsLda.Reweight | keywords_lda.py:78-87 | the second loop fails exactly when some term has a non-positive corpus frequency; otherwise each term's sum becomes sum × log(frequency) |
| KeywordsLda.GenerateKeywords | keywords_lda.py:64-94 | the result is the `num_keywords` best-scoring topic terms, best first, each once, each with its score; every term left out scores no higher than any term kept; it fails exactly when some topic term has a non-positive frequency |
| KeywordsLda.Frequency | keywords_lda.py:79-86 | the row sum of `corpus2csc` is zero for an id in no document and never negative when no count is |
| KeywordsLda.FrequencyAppend | keywords_lda.py:85-86 | a term's corpus frequency over two runs of documents is the sum of its frequencies over each |
| KeywordsLda.ScoreTwoTopics | keywords_lda.py:69-87 | a term with weights 0.3 and 0.2 in two topics, counted 4 times, scores (0.3 + 0.2) × log 4 |
| KeywordsLda.ExportBody | keywords_lda.py:104-121 | writing fails exactly when some keyword has a non-ASCII character, leaving the lines of the keywords before it; otherwise the text is each keyword on a line, an empty line, the keywords joined by " OR ", an empty line, and the keywords joined by spaces |
| KeywordsLda.AsciiRun | keywords_lda.py:110-111 | the number of keywords written before the first one that cannot be encoded: all before it are ASCII and it is not |
| KeywordsLda.ExportBodyLines | keywords_lda.py:110-120 | read back line by line, the export gives the keywords, "", the OR-query, "" and the space query |
| KeywordsLda.ExportQueryWords | keywords_lda.py:115-120 | the space query splits back into the keywords when each keyword is one word |
| KeywordsTfidf.SumScores | keywords_tfidf.py:41-49 | the loop maps each term id that occurs in some document, and nothing else, to the sum of its scores over the documents |
| KeywordsTfidf.GenerateKeywords | keywords_tfidf.py:37-55 | the result is the `num_keywords` ids with the highest sums, highest first, each once, each with its sum; every id left out sums no higher than any id kept |
| KeywordsTfidf.FlattenTotal | keywords_tfidf.py:42-49 | summing over the pairs in visiting order is summing document by document |
| KeywordsTfidf.FlattenKeys | keywords_tfidf.py:42-49 | the ids the loop visits are exactly the union of the documents' ids |
| KeywordsTfidf.DocSumAppend | keywords_tfidf.py:42-49 | an id's sum over two runs of documents is the sum of its sums over each |
| KeywordsTfidf.DocSumSkipsAbsent | keywords_tfidf.py:42-49 | a document without the id contributes nothing to its sum |
| KeywordsTfidf.DocSumOfUnknown | keywords_tfidf.py:42-49 | an id found in no document sums to zero |

## Left out

- File system access is left out: `os.listdir`, `open`/`read`, the model folder, `Dictionary.save`/`load`, `MmCorpus.serialize` and `MyCorpus.load`. Directory listings and file contents are inputs instead.
- Gensim's own algorithms are not modelled: `utils.tokenize` with `deacc` and `errors="replace"`, `Dictionary` and `filter_extremes`, `doc2bow`, `corpus2csc`, `LdaModel`, `LdaMallet` and `TfidfModel`. Their source is not part of this model. The tokenizer and `doc2bow` are parameters, and the model stops at the thresholds passed to `filter_extremes`.
- `print_topics`, `print_keywords`, the progress messages, `save_keywords` (CSV writing) and the command-line `main` blocks are left out. They are console and file output and argument parsing.
- `export_keywords` is modelled up to the text it writes. The timestamped file name and the write itself are I/O.
- `raw_input` is left out. The user's answer is the `input` parameter of `ExcludeTopics`.
- Floating point is not modelled. Scores are exact reals, and `math.log` is an uninterpreted parameter `log`.
- KeywordsLda.ExcludeTopics: the source deletes from the caller's list in place. The model returns the new list instead, so aliasing of `topics` is not captured.
- KeywordsLda.GenerateKeywords: requires every topic term to be a dictionary term, as it is when the topics come from a model trained over that dictionary. For a term missing from the dictionary the source would reuse the `token_index` left over from an earlier term, or raise `NameError` for the first term. That case is not modelled.
- Ranking.Rank: Python's `sorted` is stable over the dictionary's iteration order. The model leaves the relative order of equal scores unspecified.
- Encoding recovery and decode failures are not modelled, because the code performs none.
