# Coffee-article text mining: TF-IDF keywords and LDA topics, modelled in Dafny

This project models the text-mining core of a small Python pipeline. The
pipeline scrapes coffee news articles. It then ranks each article's keywords
by TF-IDF and groups the corpus into LDA topics. The model covers the parts
that decide what ends up in the result tables:

- `tokens.dfy` (module `Tokens`) is the token pipeline both scripts share.
  It lower-cases the text and deletes ASCII digit runs. It deletes every
  character that is neither a word character nor whitespace. It splits on
  whitespace and keeps tokens longer than two characters that are not
  stopwords. It lemmatizes each token and joins the result with single spaces.
- `ranking.dfy` (module `Ranking`) is the descending sort followed by a prefix
  (`sort_values(ascending=False).head(n)`, `argsort()[:-n-1:-1]`). It is
  proved to be a permutation in non-increasing order. The prefix is proved to
  dominate every entry it leaves out.
- `tfidf_keywords.dfy` (module `TfIdfKeywords`) models `Part02a_TF-IDF.py`:
  `process_text` and `preprocess`, the per-article top-N keywords, and the
  corpus-wide ranking. That ranking sums the columns, min-max normalises them,
  and merges the best `top_n // 2` words with the best `top_n // 2` phrases.
- `lda_topics.dfy` (module `LdaTopics`) models `Part02c_LDA.py`: `clean_text`,
  `prep_for_phrases` and `preprocess_for_lda`, and the averaged document-topic
  distribution. It also models `display_topics` (a method with the source's
  nested loops), `analyze_document_topics` (a method with the source's loops),
  the dominant-topic histogram with its percentages, and the choice of the
  input column.
- `results.dfy` (module `Results`) holds the `Result` type for the error paths.

Python's `str.lower`, the regex classes `\w` and `\s`, and the WordNet
lemmatizer are parameters (`Tokens.Chars`, `lem`). The lemmas name the few
facts about them that they rely on (`Tokens.WellFormed`,
`Tokens.LemmatizerOk`). The fitted TF-IDF matrix, the LDA components, the
document-topic matrices and the vocabularies are inputs. A table cell that
is not a string is `Tokens.Cell.NonText`.

Three facts about the code that the model makes explicit:

- The normaliser applies the length and stopword filter to the tokens
  *before* lemmatizing them. So an output token can be a lemma of two
  characters or fewer: `TfIdfKeywords.ShortLemma` shows that one kept word
  normalises to its lemma, whatever that lemma's length.
- `fit_transform` raises on a corpus that leaves no vocabulary term, so
  `keywords_allArticle` never reaches its score table then. The model
  returns `Failure(EmptyVocabulary)` for an empty vocabulary, whether or not
  `normalize` is set.
- `preprocess_for_lda` computes the `phrase_text` column, but both LDA
  vectorizers are fitted on `clean_text`. The model keeps both columns and
  proves how they relate (`LdaTopics.CleanTextLemmatizesPhraseText`).

## Model

| member | source | states |
|---|---|---|
| Tokens.FilterChars | Part02a_TF-IDF.py:24-25 | the result is an order-preserving subsequence of the input holding every occurrence of each passing character and no occurrence of any other (equal multiplicities) |
| Tokens.Lower | Part02a_TF-IDF.py:23 | `text.lower()` character by character; its use is stated by TokenizeChars and KeptTokensClean |
| Tokens.StripDigits | Part02a_TF-IDF.py:24 | `re.sub(r'[0-9]+', '', text)` as a FilterChars; its effect is stated by TokenizeChars |
| Tokens.StripNonWord | Part02a_TF-IDF.py:25 | `re.sub(r'[^\w\s]', '', text)` as a FilterChars; its effect is stated by TokenizeChars |
| Tokens.Split | Part02a_TF-IDF.py:26 | every token is non-empty and holds only non-whitespace characters of the input |
| Tokens.SplitChars | Part02a_TF-IDF.py:26 | the tokens of `split()`, concatenated, are exactly the non-whitespace characters of the input, in order: nothing but whitespace is lost |
| Tokens.SplitRuns | Part02a_TF-IDF.py:26 | every token of `split()` is a whole run of the input, with whitespace or an end of the input on either side |
| Tokens.Join | Part02a_TF-IDF.py:38 | `' '.join`; its inverse is stated by SplitJoin |
| Tokens.Tokenize | Part02c_LDA.py:24-30 | every token is a clean token (non-empty, word characters only, no whitespace, no ASCII digit) made of characters of the lower-cased text |
| Tokens.TokenizeChars | Part02c_LDA.py:24-30 | the tokens, concatenated, are exactly the word characters of the lower-cased text that are not ASCII digits, every occurrence, in order |
| Tokens.KeepTokens | Part02a_TF-IDF.py:35-36 | the kept tokens are an order-preserving subsequence of the input tokens holding every occurrence of each token longer than two characters that is not a stopword, and no occurrence of any other |
| Tokens.KeepTokensNoop | Part02c_LDA.py:47-48 | filtering tokens that all pass the filter changes nothing |
| Tokens.Lemmatize | Part02a_TF-IDF.py:35 | `[lemmatizer.lemmatize(word) for word in ...]`, one lemma per kept token in order; stated by ProcessTextSpec and CleanTextLemmatizesPhraseText |
| Tokens.SplitJoin | Part02a_TF-IDF.py:38 | splitting the single-space join of non-empty, space-free tokens gives back exactly those tokens |
| Tokens.SplitJoinLemmas | Part02c_LDA.py:37-40 | splitting the join of the lemmas of non-empty, space-free tokens gives back the lemmas |
| Tokens.KeptTokensClean | Part02c_LDA.py:36-38 | before lemmatizing, every kept token is clean, passes the filter and is already lower case |
| Tokens.TokenizeJoin | Part02c_LDA.py:24-30 | tokenizing the join of clean lower-case tokens gives back the same tokens, because each character step is then the identity |
| Ranking.Insert | Part02a_TF-IDF.py:117 | inserting into a non-increasing sequence gives a non-increasing sequence holding the old entries plus the new one |
| Ranking.SortDesc | Part02a_TF-IDF.py:117-118 | the descending sort is a permutation (same multiset) of its input in non-increasing score order |
| Ranking.SortDistinct | Part02a_TF-IDF.py:122 | sorting keeps keys distinct |
| Ranking.TopN | Part02a_TF-IDF.py:73 | `head(n)` of the descending sort has min(n, size) entries in non-increasing order |
| Ranking.TopNSelects | Part02a_TF-IDF.py:73 | the top n are a sub-multiset of the input (all of it when n is at least its size); no entry left out scores more than an entry taken; distinct keys stay distinct |
| Ranking.Zip | Part02a_TF-IDF.py:71 | the term/score series has one entry per term, with distinct keys when the terms are distinct |
| Ranking.TopOfZip | Part02a_TF-IDF.py:71-73 | the best n entries of a term/score series name distinct terms of the series, each with its own score, and no term left out scores more |
| TfIdfKeywords.ProcessText | Part02a_TF-IDF.py:18-38 | `process_text`: "" for a non-string cell, else the lemmas of the kept tokens joined by single spaces; stated by ProcessTextSpec and ShortLemma |
| TfIdfKeywords.ProcessTextSpec | Part02a_TF-IDF.py:18-38 | a non-string cell gives ""; otherwise the kept tokens are exactly the split tokens that pass the filter, in order, and clean; the output splits into one lemma per kept token; it is "" exactly when nothing is kept |
| TfIdfKeywords.ShortLemma | Part02a_TF-IDF.py:35-38 | one kept word normalises to its lemma, so a lemma shorter than three characters can reach the output |
| TfIdfKeywords.Preprocess | Part02a_TF-IDF.py:44 | one normalised string per row; non-string cells give "" |
| TfIdfKeywords.ArticleRow | Part02a_TF-IDF.py:70-80 | the row of one article: the `head(n)` of its term/score series sorted descending; stated by ArticleRowSpec |
| TfIdfKeywords.ArticleRowSpec | Part02a_TF-IDF.py:69-80 | article i's row has id i+1, its title, and min(n, vocabulary) distinct vocabulary terms with their own scores in non-increasing order; no term left out scores more |
| TfIdfKeywords.KeywordsPerArticle | Part02a_TF-IDF.py:69-80 | the loop builds one row per article, in article order, each equal to that article's top-N row |
| TfIdfKeywords.ColumnSum | Part02a_TF-IDF.py:102 | the column sum of non-negative weights is non-negative |
| TfIdfKeywords.GlobalScores | Part02a_TF-IDF.py:102 | one global score per vocabulary term |
| TfIdfKeywords.MinScore | Part02a_TF-IDF.py:105 | the result occurs in the scores and is at most every score |
| TfIdfKeywords.MaxScore | Part02a_TF-IDF.py:106 | the result occurs in the scores and is at least every score |
| TfIdfKeywords.Rescale | Part02a_TF-IDF.py:109 | a rescaled score lies in [0, 1]; it is 0 exactly at the minimum and 1 exactly at the maximum |
| TfIdfKeywords.RescaleMonotone | Part02a_TF-IDF.py:109 | rescaling preserves order in both directions |
| TfIdfKeywords.MinMax | Part02a_TF-IDF.py:104-109 | `(s - min) / (max - min)` when max > min, else the scores unchanged; stated by MinMaxSpec |
| TfIdfKeywords.MinMaxSpec | Part02a_TF-IDF.py:104-109 | equal scores are left unchanged; otherwise every score maps into [0, 1], exactly the minima to 0 and exactly the maxima to 1; order is preserved both ways |
| TfIdfKeywords.ScoreTable | Part02a_TF-IDF.py:98-114 | the `keyword`/`tfidf_score` table, an error for an empty vocabulary; stated by ScoreTableSpec |
| TfIdfKeywords.ScoreTableSpec | Part02a_TF-IDF.py:98-114 | the table fails exactly when the vocabulary is empty; otherwise it pairs each term with its column sum, or, when normalising, with the min-max rescaled column sum: in [0, 1], exactly the minima at 0 and the maxima at 1 when the sums differ, unchanged when all equal, and in the same order as the sums |
| TfIdfKeywords.ByClass | Part02a_TF-IDF.py:116-118 | the rows of one class are exactly the table rows whose key has (or lacks) a space; distinct keys stay distinct |
| TfIdfKeywords.Merge | Part02a_TF-IDF.py:116-123 | the best `top_n // 2` words and phrases, concatenated and sorted descending; stated by MergeSpec, MergeMembers and MergeSelects |
| TfIdfKeywords.MergeSpec | Part02a_TF-IDF.py:116-123 | the merge holds at most top_n // 2 words and at most top_n // 2 phrases, no keyword twice, all from the table, in non-increasing score order, as a permutation of the two selections |
| TfIdfKeywords.MergeMembers | Part02a_TF-IDF.py:122 | an entry is in the merge exactly when it is among the chosen words or the chosen phrases |
| TfIdfKeywords.MergeSelects | Part02a_TF-IDF.py:117-120 | every chosen entry scores at least as much as every unchosen entry of its own class |
| TfIdfKeywords.KeywordsAllArticle | Part02a_TF-IDF.py:86-125 | `keywords_allArticle`: the merge of the score table; stated by KeywordsAllArticleSpec |
| TfIdfKeywords.KeywordsAllArticleSpec | Part02a_TF-IDF.py:86-125 | the ranking fails exactly when the vocabulary is empty; otherwise it is the merge of the score table, drawn from the table; each keyword carries its own term's column sum, min-max rescaled when normalising, so in [0, 1] when normalised scores differ |
| LdaTopics.CleanText | Part02c_LDA.py:32-40 | `clean_text`: "" for a non-string cell, else the lemmas of the kept tokens joined by single spaces; stated by CleanTextLemmatizesPhraseText |
| LdaTopics.PrepForPhrases | Part02c_LDA.py:42-50 | `prep_for_phrases`: "" for a non-string cell, else the kept tokens joined by single spaces; stated by PrepForPhrasesTokens and PrepForPhrasesIdempotent |
| LdaTopics.PrepForPhrasesTokens | Part02c_LDA.py:42-50 | a non-string cell gives ""; otherwise the output splits back into the kept tokens, each longer than two characters, not a stopword and clean |
| LdaTopics.PrepForPhrasesIdempotent | Part02c_LDA.py:42-50 | applying `prep_for_phrases` to its own output changes nothing |
| LdaTopics.CleanTextLemmatizesPhraseText | Part02c_LDA.py:32-50 | a non-string cell gives ""; the tokens of `clean_text` are, one for one and in order, the lemmas of the tokens of `prep_for_phrases` |
| LdaTopics.PreprocessForLda | Part02c_LDA.py:52-57 | both new columns have one entry per row; non-string cells give "" in both |
| LdaTopics.Average | Part02c_LDA.py:108 | the element-wise mean of two rows of the same length, of that length; stated by AverageSpec |
| LdaTopics.AverageSpec | Part02c_LDA.py:108 | each averaged probability lies between the two it averages; the averaged row sums to the mean of the two row sums |
| LdaTopics.CombineTopics | Part02c_LDA.py:108 | one averaged row per article; stated by CombineTopicsSpec |
| LdaTopics.CombineTopicsSpec | Part02c_LDA.py:108 | the combined matrix keeps each row's length; when both rows are probability vectors, so is the combined row |
| LdaTopics.TopIndices | Part02c_LDA.py:126 | `argsort()[:-n-1:-1]` gives min(n, size) valid positions |
| LdaTopics.TopIndicesSpec | Part02c_LDA.py:126 | the positions are distinct, their weights are non-increasing, and no position left out has a larger weight |
| LdaTopics.TermRecords | Part02c_LDA.py:125-128 | one topic's `n` best terms of one model with their weights, min(n, vocabulary) rows; stated by TermRecordsSpec |
| LdaTopics.TermRecordsSpec | Part02c_LDA.py:125-165 | one topic's rows for one model carry its id and kind, pair a vocabulary term with that term's own weight (distinct terms when the vocabulary is), list weights non-increasing, and no term left out weighs more |
| LdaTopics.TopicRecords | Part02c_LDA.py:124-134 | the rows of one topic: its words, then its phrases, of the same number for every topic; stated by TopicRecordsSpec |
| LdaTopics.TopicRecordsSpec | Part02c_LDA.py:141-165 | every row of topic t has id t+1; the words come first, then the phrases |
| LdaTopics.Report | Part02c_LDA.py:118-165 | `topics_data`: the rows of every topic in topic order; stated by ReportLength, ReportBlock and ReportTopicIds |
| LdaTopics.ReportLength | Part02c_LDA.py:120-165 | the report holds the same number of rows for every topic |
| LdaTopics.ReportBlock | Part02c_LDA.py:120-165 | the rows of block t of the report are exactly the rows of topic t |
| LdaTopics.ReportTopicIds | Part02c_LDA.py:146 | every row names a topic between 1 and the number of topics |
| LdaTopics.FlattenBlock | Part02c_LDA.py:145-165 | with blocks of equal size b, block t sits at offset t·b of the appended rows |
| LdaTopics.AppendTopTerms | Part02c_LDA.py:141-165 | one inner loop appends exactly one topic's rows for one model |
| LdaTopics.ReportStep | Part02c_LDA.py:120-165 | appending topic t's words and then its phrases extends the report by exactly topic t |
| LdaTopics.DisplayTopics | Part02c_LDA.py:112-173 | the nested loops return exactly the report: every topic of the word model, in order, its best words then its best phrases |
| LdaTopics.ArgMax | Part02c_LDA.py:177 | the position holds a maximum, and every earlier position holds a strictly smaller value (first maximum) |
| LdaTopics.DocumentRow | Part02c_LDA.py:182-193 | the dominant topic is 1-based, is the first topic of largest probability, and its probability is the row maximum |
| LdaTopics.Histogram | Part02c_LDA.py:202 | `value_counts().sort_index()` of the dominant topics; stated by HistogramSpec |
| LdaTopics.HistogramSpec | Part02c_LDA.py:202 | the histogram lists each occurring topic once, ascending, with its positive count; the counts add up to the number of articles |
| LdaTopics.Percent | Part02c_LDA.py:207 | `count / len(df) * 100`; stated by PercentSumSpec and AnalyzeDocumentTopics |
| LdaTopics.PercentSumSpec | Part02c_LDA.py:206-207 | the percentages of a histogram add up to its total count's percentage |
| LdaTopics.AnalyzeDocumentTopics | Part02c_LDA.py:175-215 | one row per article with its dominant topic; the histogram of dominant topics, whose counts add up to the number of articles; one report line per histogram entry with its count and its percentage of all articles; the percentages add up to 100 when there is an article |
| LdaTopics.FirstContentLike | Part02c_LDA.py:224-226 | the first column whose lower-cased name contains "content" or "text", or none |
| LdaTopics.ContentColumn | Part02c_LDA.py:222-229 | "content" when present; otherwise the first content-like column; an error exactly when there is neither |

## Left out

- Vectorizer and LDA fitting (`TfidfVectorizer`, `CountVectorizer`, `LatentDirichletAllocation`, `perform_lda_analysis` apart from its averaging step): they are library numerics, and their outputs are inputs of the model.
- `str.lower`, `\w`, `\s` and the WordNet lemmatizer are parameters and are not interpreted. Lower-casing is modelled per character, so a Unicode lower-casing that changes a string's length is not captured, and neither is a context-dependent one (capital sigma lowers to `ς` at the end of a word and to `σ` elsewhere).
- `str.split()` splits on Python's whitespace. The model uses the same `isSpace` parameter as the `\s` class.
- Floating-point arithmetic: scores, sums, averages and percentages are exact reals. Rounding and the `:.3f`, `:.4f` and `:.1f` formatting are left out.
- The `',\n'` joins of `top_keywords` and `tfidf_scores` are kept as sequences of terms and scores.
- `topics_text` and the distribution text are left out, because they are report strings only. The model keeps `topics_data` and the distribution lines as values.
- CSV reading and writing, text-file writing, printing, `os.makedirs` and `exit(1)` are left out. The missing input column is modelled as `Failure(NoContentColumn)`.
- `keywords_perArticle` and `keywords_allArticle` call `preprocess` when `filtered_content` is missing. This only feeds the vectorizer, so it is not modelled apart from `Preprocess` itself.
- Ranking.SortDesc: pandas and numpy leave the order of tied scores open (numpy's default `argsort` is not stable). The model fixes one order, and no stated property depends on it.
- LdaTopics.DocumentRow: `article_id` is `idx`, the data-frame index label. The model uses the row position, which is the same for the default index that `read_csv` produces.
- TfIdfKeywords.ArticleRow: `tfidf_matrix[i]` and `article_id = i + 1` use the index label `i`. The model uses the row position, as above.
- TfIdfKeywords.KeywordsPerArticle: with an empty vocabulary, `fit_transform` raises at `Part02a_TF-IDF.py:63`. That state is unreachable in the program. The model takes the fitted matrix as input and returns rows with no terms there.
- LdaTopics.AnalyzeDocumentTopics: with zero articles the vectorizers raise at `Part02c_LDA.py:76-77`, and `value_counts` on the empty results frame would raise `KeyError` at line 202. That state is unreachable in the program. The model returns three empty sequences there.
- Tokens.Split: `SplitChars` and `SplitRuns` state that every token is a whole run of non-whitespace characters, and that the tokens, concatenated, are all the non-whitespace characters in order. That the tokens are the runs one for one is stated only for joins of tokens, by `SplitJoin`.
- The scraping scripts (`Part01a_Comparision.py`, `Part01b_bs.py`) and the plotting script (`Part02b_TF-IDF_visual.py`) are not part of this model.
