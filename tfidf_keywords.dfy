/**
 * The TF-IDF keyword script: the text normaliser `process_text`, the
 * per-article top-N keywords and the corpus-wide ranking of words and phrases.
 * The fitted TF-IDF matrix (one row per article, one column per vocabulary
 * term) and the vocabulary are inputs.
 */
module TfIdfKeywords {
  import opened Tokens
  import opened Ranking
  import opened Results

  /** The stopword list of `process_text`, in source order. */
  const Stopwords: seq<string> := [
    "the", "and", "to", "of", "a", "in", "that", "is", "it", "for", "with", "on", "by",
    "this", "as", "be", "at", "are", "was", "from", "has", "have", "had", "been", "but",
    "not", "what", "all", "were", "when", "we", "they", "their", "you", "your", "his",
    "her", "says", "said", "say", "one", "two", "three", "many", "much", "can", "will",
    "just", "would", "could", "should", "now", "then", "than", "our", "here", "there", "why",
    "these", "those", "year", "per", "about", "who", "report", "variety", "notes", "like", "she", "he",
    "other", "month", "daddy"]

  // ---------------------------------------------------------------------------
  // Normaliser

  /**
   * `process_text`: the empty string for a non-string cell; otherwise the
   * kept tokens, each lemmatized, joined by single spaces. The length and
   * stopword filter looks at the tokens before the lemmatizer does.
   */
  function ProcessText(cm: Chars, lem: string -> string, cell: Cell): string {
    match cell
    case NonText => ""
    case Text(s) => Join(Lemmatize(lem, KeptTokens(cm, Stopwords, s)))
  }

  /**
   * A non-string cell gives the empty string. For a string, the tokens the
   * filter keeps are clean lower-case tokens longer than two characters and
   * not stopwords, form an order-preserving subsequence of the split words and
   * include every split word that passes the filter; the output splits back
   * into exactly one lemma per kept token, in order, and is empty exactly
   * when no token is kept.
   */
  lemma ProcessTextSpec(cm: Chars, lem: string -> string, cell: Cell)
    requires WellFormed(cm) && LemmatizerOk(cm, lem)
    ensures cell.NonText? ==> ProcessText(cm, lem, cell) == ""
    ensures cell.Text? ==>
      var kept := KeptTokens(cm, Stopwords, cell.s);
      && Subsequence(kept, Tokenize(cm, cell.s))
      && (forall w | w in kept :: CleanToken(cm, w) && Kept(Stopwords, w))
      && (forall w | w in Tokenize(cm, cell.s) && Kept(Stopwords, w) :: w in kept)
      && Split(cm, ProcessText(cm, lem, cell)) == Lemmatize(lem, kept)
      && (ProcessText(cm, lem, cell) == "" <==> kept == [])
  {
    if cell.Text? {
      var kept := KeptTokens(cm, Stopwords, cell.s);
      KeptTokensClean(cm, Stopwords, cell.s);
      SplitJoinLemmas(cm, lem, kept);
    }
  }

  /**
   * The length filter looks at tokens before the lemmatizer, so the output can
   * hold a token of two characters or fewer: a single kept word (such as
   * "oxen") normalises to its lemma (such as "ox"), whatever its length.
   */
  lemma ShortLemma(cm: Chars, lem: string -> string, w: string)
    requires WellFormed(cm)
    requires CleanToken(cm, w) && (forall c | c in w :: cm.lower(c) == c) && Kept(Stopwords, w)
    ensures ProcessText(cm, lem, Text(w)) == lem(w)
  {
    TokenizeJoin(cm, [w]);
    assert Join([w]) == w;
    assert KeepTokens(Stopwords, [w]) == [w];
  }

  /** `df[content_col].apply(process_text)`: one normalised string per row. */
  function Preprocess(cm: Chars, lem: string -> string, column: seq<Cell>): (r: seq<string>)
    ensures |r| == |column|
    ensures forall i | 0 <= i < |column| && column[i].NonText? :: r[i] == ""
  {
    seq(|column|, i requires 0 <= i < |column| => ProcessText(cm, lem, column[i]))
  }

  // ---------------------------------------------------------------------------
  // Per-article keywords

  /** One row of the per-article table; the joined and formatted columns are kept as sequences. */
  datatype ArticleKeywords = ArticleKeywords(articleId: nat, title: string, topKeywords: seq<string>, tfidfScores: seq<real>)

  /** The row for the article at position `i`: its `n` best-scoring vocabulary terms. */
  function ArticleRow(i: nat, title: string, features: seq<string>, row: seq<real>, n: nat): ArticleKeywords
    requires |row| == |features|
  {
    var top := TopN(Zip(features, row), n);
    ArticleKeywords(i + 1, title, Keys(top), Scores(top))
  }

  /**
   * The row for article `i` carries id `i + 1` and its title, and lists
   * min(n, |vocabulary|) distinct vocabulary terms with their own scores in
   * non-increasing order; no term left out scores more than a term listed.
   */
  lemma ArticleRowSpec(i: nat, title: string, features: seq<string>, row: seq<real>, n: nat)
    requires |row| == |features| && Distinct(features)
    ensures var r := ArticleRow(i, title, features, row, n);
      && r.articleId == i + 1 && r.title == title
      && |r.topKeywords| == |r.tfidfScores| == Min(n, |features|)
      && Distinct(r.topKeywords)
      && (forall k, l | 0 <= k < l < |r.tfidfScores| :: r.tfidfScores[k] >= r.tfidfScores[l])
      && (forall k | 0 <= k < |r.topKeywords| :: r.topKeywords[k] in features)
      && (forall k, j | 0 <= k < |r.topKeywords| && 0 <= j < |features| && features[j] == r.topKeywords[k] ::
            r.tfidfScores[k] == row[j])
      && (forall k, j | 0 <= k < |r.tfidfScores| && 0 <= j < |features| && features[j] !in r.topKeywords ::
            r.tfidfScores[k] >= row[j])
  {
    TopOfZip(features, row, n);
  }

  /**
   * `keywords_perArticle`: one row per article, in article order, each the
   * `ArticleRow` of that article's row of the TF-IDF matrix.
   */
  method KeywordsPerArticle(titles: seq<string>, matrix: seq<seq<real>>, features: seq<string>, nKeywords: nat)
    returns (table: seq<ArticleKeywords>)
    requires |titles| <= |matrix|
    requires forall i | 0 <= i < |matrix| :: |matrix[i]| == |features|
    ensures |table| == |titles|
    ensures forall i | 0 <= i < |titles| :: table[i] == ArticleRow(i, titles[i], features, matrix[i], nKeywords)
  {
    table := [];
    for i := 0 to |titles|
      invariant |table| == i
      invariant forall k | 0 <= k < i :: table[k] == ArticleRow(k, titles[k], features, matrix[k], nKeywords)
    {
      var articleTfidf := Zip(features, matrix[i]);
      var topTerms := TopN(articleTfidf, nKeywords);
      table := table + [ArticleKeywords(i + 1, titles[i], Keys(topTerms), Scores(topTerms))];
    }
  }

  // ---------------------------------------------------------------------------
  // Corpus-wide keywords

  /** The sum of column `j` over all rows (`tfidf_matrix.sum(axis=0)[j]`). */
  function ColumnSum(matrix: seq<seq<real>>, j: nat): (r: real)
    requires forall i | 0 <= i < |matrix| :: j < |matrix[i]|
    ensures (forall i | 0 <= i < |matrix| :: matrix[i][j] >= 0.0) ==> r >= 0.0
  {
    if matrix == [] then 0.0 else matrix[0][j] + ColumnSum(matrix[1..], j)
  }

  /** The global score of every vocabulary term: its column sum. */
  function GlobalScores(matrix: seq<seq<real>>, width: nat): (r: seq<real>)
    requires forall i | 0 <= i < |matrix| :: |matrix[i]| == width
    ensures |r| == width
  {
    seq(width, j requires 0 <= j < width => ColumnSum(matrix, j))
  }

  function MinScore(s: seq<real>): (m: real)
    requires |s| > 0
    ensures m in s && forall x | x in s :: m <= x
  {
    if |s| == 1 then s[0]
    else
      var m := MinScore(s[1..]);
      assert s == [s[0]] + s[1..];
      if s[0] <= m then s[0] else m
  }

  function MaxScore(s: seq<real>): (m: real)
    requires |s| > 0
    ensures m in s && forall x | x in s :: x <= m
  {
    if |s| == 1 then s[0]
    else
      var m := MaxScore(s[1..]);
      assert s == [s[0]] + s[1..];
      if s[0] >= m then s[0] else m
  }

  /** `(x - min) / (max - min)`. */
  function Rescaled(x: real, lo: real, hi: real): real
    requires lo < hi
  {
    (x - lo) / (hi - lo)
  }

  /** Min-max normalisation, skipped when every score is the same (no division by zero). */
  function MinMax(s: seq<real>): (r: seq<real>)
    requires |s| > 0
    ensures |r| == |s|
  {
    var lo, hi := MinScore(s), MaxScore(s);
    if hi > lo then seq(|s|, i requires 0 <= i < |s| => Rescaled(s[i], lo, hi))
    else s
  }

  lemma Rescale(x: real, lo: real, hi: real)
    requires lo <= x <= hi && lo < hi
    ensures 0.0 <= Rescaled(x, lo, hi) <= 1.0
    ensures Rescaled(x, lo, hi) == 0.0 <==> x == lo
    ensures Rescaled(x, lo, hi) == 1.0 <==> x == hi
  {
    var d := hi - lo;
    var q := (x - lo) / d;
    assert q * d == x - lo;
    assert (1.0 - q) * d == hi - x;
  }

  lemma RescaleMonotone(x: real, y: real, lo: real, hi: real)
    requires lo < hi
    ensures x <= y <==> Rescaled(x, lo, hi) <= Rescaled(y, lo, hi)
  {
    var d := hi - lo;
    var p, q := (x - lo) / d, (y - lo) / d;
    assert p * d == x - lo && q * d == y - lo;
    if p <= q {
      assert (q - p) * d >= 0.0;
    } else {
      assert (p - q) * d > 0.0;
    }
  }

  /**
   * When the scores are not all equal, normalisation maps every score into
   * [0, 1], the minimum exactly to 0 and the maximum exactly to 1; when they
   * are all equal it leaves them unchanged. Either way it preserves order.
   */
  lemma MinMaxSpec(s: seq<real>)
    requires |s| > 0
    ensures MaxScore(s) == MinScore(s) ==> MinMax(s) == s
    ensures MaxScore(s) > MinScore(s) ==> forall i | 0 <= i < |s| ::
      && 0.0 <= MinMax(s)[i] <= 1.0
      && (MinMax(s)[i] == 0.0 <==> s[i] == MinScore(s))
      && (MinMax(s)[i] == 1.0 <==> s[i] == MaxScore(s))
    ensures forall i, j | 0 <= i < |s| && 0 <= j < |s| :: s[i] <= s[j] <==> MinMax(s)[i] <= MinMax(s)[j]
  {
    var lo, hi := MinScore(s), MaxScore(s);
    if hi > lo {
      forall i | 0 <= i < |s|
        ensures 0.0 <= MinMax(s)[i] <= 1.0
        ensures MinMax(s)[i] == 0.0 <==> s[i] == lo
        ensures MinMax(s)[i] == 1.0 <==> s[i] == hi
      {
        MinMaxAt(s, i);
        assert s[i] in s;
        Rescale(s[i], lo, hi);
      }
      forall i, j | 0 <= i < |s| && 0 <= j < |s| ensures s[i] <= s[j] <==> MinMax(s)[i] <= MinMax(s)[j] {
        MinMaxAt(s, i);
        MinMaxAt(s, j);
        RescaleMonotone(s[i], s[j], lo, hi);
      }
    }
  }

  lemma MinMaxAt(s: seq<real>, i: nat)
    requires i < |s| && MaxScore(s) > MinScore(s)
    ensures MinMax(s)[i] == Rescaled(s[i], MinScore(s), MaxScore(s))
  {
  }

  /** `fit_transform` raises on a corpus that leaves no vocabulary term. */
  datatype KeywordError = EmptyVocabulary

  /**
   * The `keyword`/`tfidf_score` table: every vocabulary term with its global
   * score, normalised when asked. The vectorizer raises when the vocabulary
   * is empty (before `min()` of the empty score vector could), so an empty
   * vocabulary is an error.
   */
  function ScoreTable(matrix: seq<seq<real>>, features: seq<string>, normalize: bool): Result<seq<Entry<string>>, KeywordError>
    requires forall i | 0 <= i < |matrix| :: |matrix[i]| == |features|
  {
    var sums := GlobalScores(matrix, |features|);
    if |features| == 0 then Failure(EmptyVocabulary)
    else Success(Zip(features, if normalize then MinMax(sums) else sums))
  }

  /** A keyword is a phrase exactly when it contains a space. */
  predicate IsPhrase(term: string) {
    ' ' in term
  }

  /** The rows of one class, words (`phrases == false`) or phrases, in table order. */
  function ByClass(table: seq<Entry<string>>, phrases: bool): (r: seq<Entry<string>>)
    ensures forall e | e in r :: e in table && IsPhrase(e.key) == phrases
    ensures forall e | e in table && IsPhrase(e.key) == phrases :: e in r
    ensures DistinctKeys(table) ==> DistinctKeys(r)
  {
    if table == [] then []
    else
      var rest := ByClass(table[1..], phrases);
      assert forall e | e in table[1..] :: e in table;
      assert DistinctKeys(table) ==> forall e | e in rest :: e.key != table[0].key;
      if IsPhrase(table[0].key) == phrases then [table[0]] + rest else rest
  }

  /** The `top_n // 2` best entries of one class. */
  function TopOfClass(table: seq<Entry<string>>, phrases: bool, topN: nat): seq<Entry<string>> {
    TopN(ByClass(table, phrases), topN / 2)
  }

  /** The chosen words and phrases, concatenated and re-sorted by score. */
  function Merge(table: seq<Entry<string>>, topN: nat): seq<Entry<string>> {
    SortDesc(TopOfClass(table, false, topN) + TopOfClass(table, true, topN))
  }

  /** `keywords_allArticle`: the best words and the best phrases of the score table, merged. */
  function KeywordsAllArticle(matrix: seq<seq<real>>, features: seq<string>, topN: nat, normalize: bool)
    : Result<seq<Entry<string>>, KeywordError>
    requires forall i | 0 <= i < |matrix| :: |matrix[i]| == |features|
  {
    match ScoreTable(matrix, features, normalize)
    case Failure(e) => Failure(e)
    case Success(table) => Success(Merge(table, topN))
  }

  /**
   * The score table fails exactly when the vocabulary is empty;
   * otherwise it pairs each term with its column sum, or, when normalising,
   * with the min-max rescaled column sum: in [0, 1] with the minima at 0 and
   * the maxima at 1 when the sums are not all equal, and in the same order
   * as the sums.
   */
  lemma ScoreTableSpec(matrix: seq<seq<real>>, features: seq<string>, normalize: bool)
    requires forall i | 0 <= i < |matrix| :: |matrix[i]| == |features|
    ensures ScoreTable(matrix, features, normalize).Failure? <==> |features| == 0
    ensures ScoreTable(matrix, features, normalize).Success? ==>
      var table := ScoreTable(matrix, features, normalize).value;
      var sums := GlobalScores(matrix, |features|);
      && |table| == |features|
      && (forall j | 0 <= j < |features| :: table[j].key == features[j])
      && (!normalize ==> forall j | 0 <= j < |features| :: table[j].score == ColumnSum(matrix, j))
      && (normalize && MaxScore(sums) == MinScore(sums) ==> forall j | 0 <= j < |features| :: table[j].score == sums[j])
      && (normalize ==> forall j | 0 <= j < |features| :: table[j].score == MinMax(sums)[j])
      && (normalize && MaxScore(sums) > MinScore(sums) ==> forall j | 0 <= j < |features| ::
            && 0.0 <= table[j].score <= 1.0
            && (table[j].score == 0.0 <==> sums[j] == MinScore(sums))
            && (table[j].score == 1.0 <==> sums[j] == MaxScore(sums)))
      && (normalize ==> forall i, j | 0 <= i < |features| && 0 <= j < |features| ::
            sums[i] <= sums[j] <==> table[i].score <= table[j].score)
  {
    var sums := GlobalScores(matrix, |features|);
    if normalize && |sums| > 0 {
      MinMaxSpec(sums);
    }
  }

  /**
   * The merge: at most `top_n // 2` words and at most `top_n // 2` phrases of
   * the table, each keyword at most once, in non-increasing score order.
   */
  lemma MergeSpec(table: seq<Entry<string>>, topN: nat)
    requires DistinctKeys(table)
    ensures var out := Merge(table, topN);
      && NonIncreasing(out)
      && DistinctKeys(out)
      && multiset(out) == multiset(TopOfClass(table, false, topN)) + multiset(TopOfClass(table, true, topN))
      && |TopOfClass(table, false, topN)| <= topN / 2
      && |TopOfClass(table, true, topN)| <= topN / 2
      && (forall e | e in out :: e in table)
  {
    var words, phrases := TopOfClass(table, false, topN), TopOfClass(table, true, topN);
    TopNSelects(ByClass(table, false), topN / 2);
    TopNSelects(ByClass(table, true), topN / 2);
    ClassOf(table, false, words);
    ClassOf(table, true, phrases);
    MergeMembers(table, topN);
    MergeDistinct(words, phrases);
    SortDistinct(words + phrases);
  }

  /** Every entry chosen scores at least as much as every entry of its own class that was not chosen. */
  lemma MergeSelects(table: seq<Entry<string>>, topN: nat)
    ensures var out := Merge(table, topN);
      forall e, t | e in table && e !in out && t in out && IsPhrase(e.key) == IsPhrase(t.key) :: t.score >= e.score
  {
    var words, phrases := TopOfClass(table, false, topN), TopOfClass(table, true, topN);
    var out := Merge(table, topN);
    TopNSelects(ByClass(table, false), topN / 2);
    TopNSelects(ByClass(table, true), topN / 2);
    ClassOf(table, false, words);
    ClassOf(table, true, phrases);
    MergeMembers(table, topN);
    forall e, t | e in table && e !in out && t in out && IsPhrase(e.key) == IsPhrase(t.key)
      ensures t.score >= e.score
    {
      var c := IsPhrase(e.key);
      assert e in ByClass(table, c);
      if c {
        assert t in phrases && e !in phrases;
      } else {
        assert t in words && e !in words;
      }
    }
  }

  /** The merge holds exactly the words and the phrases chosen. */
  lemma MergeMembers(table: seq<Entry<string>>, topN: nat)
    ensures var out := Merge(table, topN);
      forall e :: e in out <==> e in TopOfClass(table, false, topN) || e in TopOfClass(table, true, topN)
  {
    var words, phrases := TopOfClass(table, false, topN), TopOfClass(table, true, topN);
    var out := Merge(table, topN);
    assert multiset(out) == multiset(words) + multiset(phrases);
    forall e | e in out ensures e in words || e in phrases {
      assert e in multiset(out);
    }
    forall x | x in words || x in phrases ensures x in out {
      assert x in multiset(out);
    }
  }

  /** What `TopN` takes from one class belongs to that class. */
  lemma ClassOf(table: seq<Entry<string>>, phrases: bool, top: seq<Entry<string>>)
    requires multiset(top) <= multiset(ByClass(table, phrases))
    ensures forall e | e in top :: e in table && IsPhrase(e.key) == phrases
  {
    forall e | e in top ensures e in ByClass(table, phrases) {
      assert e in multiset(top);
    }
  }

  /** No keyword is both a word and a phrase, so the concatenation has distinct keys. */
  lemma MergeDistinct(words: seq<Entry<string>>, phrases: seq<Entry<string>>)
    requires DistinctKeys(words) && DistinctKeys(phrases)
    requires forall e | e in words :: !IsPhrase(e.key)
    requires forall e | e in phrases :: IsPhrase(e.key)
    ensures DistinctKeys(words + phrases)
  {
    var merged := words + phrases;
    forall i, j | 0 <= i < j < |merged| ensures merged[i].key != merged[j].key {
      if j < |words| {
        assert merged[i] == words[i] && merged[j] == words[j];
      } else if i >= |words| {
        assert merged[i] == phrases[i - |words|] && merged[j] == phrases[j - |words|];
      } else {
        assert merged[i] in words && merged[j] in phrases;
      }
    }
  }

  /**
   * The corpus-wide ranking fails exactly when the vocabulary is empty;
   * otherwise it is the merge of the score table's best words and phrases,
   * each with its own term's column sum, min-max rescaled when normalising,
   * so in [0, 1] when normalised scores are not all equal.
   */
  lemma KeywordsAllArticleSpec(matrix: seq<seq<real>>, features: seq<string>, topN: nat, normalize: bool)
    requires forall i | 0 <= i < |matrix| :: |matrix[i]| == |features|
    requires Distinct(features)
    ensures KeywordsAllArticle(matrix, features, topN, normalize).Failure? <==> |features| == 0
    ensures KeywordsAllArticle(matrix, features, topN, normalize).Success? ==>
      var table := ScoreTable(matrix, features, normalize).value;
      var out := KeywordsAllArticle(matrix, features, topN, normalize).value;
      var sums := GlobalScores(matrix, |features|);
      && out == Merge(table, topN)
      && (forall e | e in out :: e in table)
      && (normalize && MaxScore(sums) > MinScore(sums) ==> forall e | e in out :: 0.0 <= e.score <= 1.0)
      && (forall e | e in out :: exists j | 0 <= j < |features| ::
            e.key == features[j] && e.score == (if normalize then MinMax(sums)[j] else ColumnSum(matrix, j)))
  {
    ScoreTableSpec(matrix, features, normalize);
    var r := ScoreTable(matrix, features, normalize);
    if r.Success? {
      MergeSpec(r.value, topN);
      var sums := GlobalScores(matrix, |features|);
      if normalize && MaxScore(sums) > MinScore(sums) {
        forall e | e in r.value ensures 0.0 <= e.score <= 1.0 {
          var j :| 0 <= j < |r.value| && r.value[j] == e;
        }
      }
    }
  }
}
