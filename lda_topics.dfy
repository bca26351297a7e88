/**
 * The LDA topic script: the two normalisers (`clean_text`, `prep_for_phrases`),
 * the combined document-topic distribution, the per-topic top terms, the
 * dominant topic of each article with its histogram, and the choice of the
 * input column. The fitted LDA components and document-topic matrices are
 * inputs.
 */
module LdaTopics {
  import opened Tokens
  import opened Ranking
  import opened Results

  /** The stopword list of `preprocess_for_lda`, in source order ("variety" appears twice). */
  const Stopwords: seq<string> := [
    "the", "and", "to", "of", "a", "in", "that", "is", "it", "for", "with", "on", "by",
    "this", "as", "be", "at", "are", "was", "from", "has", "have", "had", "been", "but",
    "not", "what", "all", "were", "when", "we", "they", "their", "you", "your", "his",
    "her", "says", "said", "say", "one", "two", "three", "many", "much", "can", "will",
    "just", "would", "could", "should", "now", "then", "than", "our", "here", "there", "why",
    "these", "those", "year", "per", "about", "who", "report", "variety", "notes", "like", "she", "he",
    "variety"]

  // ---------------------------------------------------------------------------
  // Normalisers

  /** `clean_text`: the kept tokens, each lemmatized, joined by single spaces. */
  function CleanText(cm: Chars, lem: string -> string, cell: Cell): string {
    match cell
    case NonText => ""
    case Text(s) => Join(Lemmatize(lem, KeptTokens(cm, Stopwords, s)))
  }

  /** `prep_for_phrases`: the kept tokens, not lemmatized, joined by single spaces. */
  function PrepForPhrases(cm: Chars, cell: Cell): string {
    match cell
    case NonText => ""
    case Text(s) => Join(KeptTokens(cm, Stopwords, s))
  }

  /**
   * A non-string cell gives the empty string. Otherwise the output splits
   * back into the kept tokens; every one of them is longer than two
   * characters, is not a stopword, holds only word characters and no ASCII
   * digit.
   */
  lemma PrepForPhrasesTokens(cm: Chars, cell: Cell)
    requires WellFormed(cm)
    ensures cell.NonText? ==> PrepForPhrases(cm, cell) == ""
    ensures cell.Text? ==> Split(cm, PrepForPhrases(cm, cell)) == KeptTokens(cm, Stopwords, cell.s)
    ensures forall w | w in Split(cm, PrepForPhrases(cm, cell)) ::
              |w| > 2 && w !in Stopwords && CleanToken(cm, w)
  {
    if cell.Text? {
      var kept := KeptTokens(cm, Stopwords, cell.s);
      KeptTokensClean(cm, Stopwords, cell.s);
      SplitJoin(cm, kept);
    }
  }

  /** `prep_for_phrases` is idempotent: its output is a fixed point. */
  lemma PrepForPhrasesIdempotent(cm: Chars, cell: Cell)
    requires WellFormed(cm)
    ensures PrepForPhrases(cm, Text(PrepForPhrases(cm, cell))) == PrepForPhrases(cm, cell)
  {
    match cell
    case NonText =>
      assert Tokenize(cm, "") == [];
    case Text(s) =>
      var kept := KeptTokens(cm, Stopwords, s);
      KeptTokensClean(cm, Stopwords, s);
      TokenizeJoin(cm, kept);
      KeepTokensNoop(Stopwords, kept);
  }

  /**
   * The tokens of `clean_text` are the lemmas of the tokens of
   * `prep_for_phrases`, one for one and in order: both keep the same tokens.
   */
  lemma CleanTextLemmatizesPhraseText(cm: Chars, lem: string -> string, cell: Cell)
    requires WellFormed(cm) && LemmatizerOk(cm, lem)
    ensures cell.NonText? ==> CleanText(cm, lem, cell) == ""
    ensures Split(cm, CleanText(cm, lem, cell)) == Lemmatize(lem, Split(cm, PrepForPhrases(cm, cell)))
  {
    match cell
    case NonText =>
    case Text(s) =>
      var kept := KeptTokens(cm, Stopwords, s);
      KeptTokensClean(cm, Stopwords, s);
      SplitJoin(cm, kept);
      SplitJoinLemmas(cm, lem, kept);
  }

  /** The two text columns `preprocess_for_lda` adds. */
  datatype LdaColumns = LdaColumns(cleanText: seq<string>, phraseText: seq<string>)

  /**
   * `preprocess_for_lda`: both columns, row by row. Only `cleanText` feeds the
   * vectorizers; `phraseText` is computed and then not read.
   */
  function PreprocessForLda(cm: Chars, lem: string -> string, column: seq<Cell>): (r: LdaColumns)
    ensures |r.cleanText| == |r.phraseText| == |column|
    ensures forall i | 0 <= i < |column| && column[i].NonText? :: r.cleanText[i] == "" && r.phraseText[i] == ""
  {
    LdaColumns(
      seq(|column|, i requires 0 <= i < |column| => CleanText(cm, lem, column[i])),
      seq(|column|, i requires 0 <= i < |column| => PrepForPhrases(cm, column[i])))
  }

  // ---------------------------------------------------------------------------
  // Combined document-topic distribution

  function Sum(s: seq<real>): real {
    if s == [] then 0.0 else s[0] + Sum(s[1..])
  }

  function Mean(x: real, y: real): real {
    (x + y) / 2.0
  }

  /** `(word_row + phrase_row) / 2`, element by element. */
  function Average(a: seq<real>, b: seq<real>): (r: seq<real>)
    requires |a| == |b|
    ensures |r| == |a|
  {
    seq(|a|, i requires 0 <= i < |a| => Mean(a[i], b[i]))
  }

  /**
   * Each combined probability lies between the two model probabilities it
   * averages, and the combined row sums to the mean of the two row sums.
   */
  lemma {:induction false} AverageSpec(a: seq<real>, b: seq<real>)
    requires |a| == |b|
    ensures forall i | 0 <= i < |a| ::
      (a[i] <= Average(a, b)[i] <= b[i]) || (b[i] <= Average(a, b)[i] <= a[i])
    ensures Sum(Average(a, b)) == (Sum(a) + Sum(b)) / 2.0
  {
    if a != [] {
      AverageSpec(a[1..], b[1..]);
      assert Average(a, b)[1..] == Average(a[1..], b[1..]);
    }
  }

  /** A probability vector: non-negative entries summing to one. */
  ghost predicate IsDistribution(row: seq<real>) {
    (forall i | 0 <= i < |row| :: row[i] >= 0.0) && Sum(row) == 1.0
  }

  /** `combined_document_topics = (word_document_topics + phrase_document_topics) / 2`. */
  function CombineTopics(wordTopics: seq<seq<real>>, phraseTopics: seq<seq<real>>): (r: seq<seq<real>>)
    requires |wordTopics| == |phraseTopics|
    requires forall d | 0 <= d < |wordTopics| :: |wordTopics[d]| == |phraseTopics[d]|
    ensures |r| == |wordTopics|
  {
    seq(|wordTopics|, d requires 0 <= d < |wordTopics| => Average(wordTopics[d], phraseTopics[d]))
  }

  /** When both models give a probability vector for an article, so does their combination. */
  lemma CombineTopicsSpec(wordTopics: seq<seq<real>>, phraseTopics: seq<seq<real>>)
    requires |wordTopics| == |phraseTopics|
    requires forall d | 0 <= d < |wordTopics| :: |wordTopics[d]| == |phraseTopics[d]|
    ensures forall d | 0 <= d < |wordTopics| ::
      |CombineTopics(wordTopics, phraseTopics)[d]| == |wordTopics[d]| &&
      (IsDistribution(wordTopics[d]) && IsDistribution(phraseTopics[d]) ==>
         IsDistribution(CombineTopics(wordTopics, phraseTopics)[d]))
  {
    forall d | 0 <= d < |wordTopics| && IsDistribution(wordTopics[d]) && IsDistribution(phraseTopics[d])
      ensures IsDistribution(CombineTopics(wordTopics, phraseTopics)[d])
    {
      AverageSpec(wordTopics[d], phraseTopics[d]);
    }
  }

  // ---------------------------------------------------------------------------
  // Top terms per topic

  function Indices(n: nat): (r: seq<nat>)
    ensures |r| == n && forall i | 0 <= i < n :: r[i] == i
  {
    seq(n, i requires 0 <= i < n => i)
  }

  /** `weights.argsort()[:-n-1:-1]`: the positions of the `n` largest weights, largest first. */
  function TopIndices(weights: seq<real>, n: nat): (r: seq<nat>)
    ensures |r| == Min(n, |weights|)
    ensures forall k | 0 <= k < |r| :: r[k] < |weights|
  {
    var top := TopN(Zip(Indices(|weights|), weights), n);
    TopOfZip(Indices(|weights|), weights, n);
    Keys(top)
  }

  /**
   * The positions are distinct, their weights are non-increasing, and no
   * position left out has a larger weight than a position taken.
   */
  lemma TopIndicesSpec(weights: seq<real>, n: nat)
    ensures var r := TopIndices(weights, n);
      && Distinct(r)
      && (forall k, l | 0 <= k < l < |r| :: weights[r[k]] >= weights[r[l]])
      && (forall k, j | 0 <= k < |r| && 0 <= j < |weights| && j !in r :: weights[r[k]] >= weights[j])
  {
    var keys := Indices(|weights|);
    var top := TopN(Zip(keys, weights), n);
    TopOfZip(keys, weights, n);
    var r := TopIndices(weights, n);
    assert r == Keys(top);
    forall k | 0 <= k < |r| ensures weights[r[k]] == top[k].score {
      assert keys[r[k]] == top[k].key;
    }
    forall k, j | 0 <= k < |r| && 0 <= j < |weights| && j !in r ensures weights[r[k]] >= weights[j] {
      assert keys[j] == j;
    }
  }

  datatype TermKind = Word | Phrase

  /** One row of `topics_data`. */
  datatype TopicTerm = TopicTerm(topicId: nat, term: string, weight: real, kind: TermKind)

  /** The rows for one topic and one model: its `n` best terms with their weights. */
  function TermRecords(topicId: nat, features: seq<string>, weights: seq<real>, n: nat, kind: TermKind): (r: seq<TopicTerm>)
    requires |weights| == |features|
    ensures |r| == Min(n, |features|)
  {
    var idx := TopIndices(weights, n);
    seq(|idx|, k requires 0 <= k < |idx| => TopicTerm(topicId, features[idx[k]], weights[idx[k]], kind))
  }

  /**
   * The rows for one topic and one model carry that topic id and kind, pair
   * a vocabulary term with that term's own weight (distinct terms when the
   * vocabulary is), list weights in non-increasing order, and no term left
   * out has a larger weight.
   */
  lemma TermRecordsSpec(topicId: nat, features: seq<string>, weights: seq<real>, n: nat, kind: TermKind)
    requires |weights| == |features|
    ensures var r := TermRecords(topicId, features, weights, n, kind);
      && (forall k | 0 <= k < |r| :: r[k].topicId == topicId && r[k].kind == kind && r[k].term in features)
      && (forall k | 0 <= k < |r| :: exists j | 0 <= j < |features| :: features[j] == r[k].term && weights[j] == r[k].weight)
      && (forall k, l | 0 <= k < l < |r| :: r[k].weight >= r[l].weight)
      && (forall k, j | 0 <= k < |r| && 0 <= j < |weights| && j !in TopIndices(weights, n) :: r[k].weight >= weights[j])
      && (Distinct(features) ==> forall k, l | 0 <= k < l < |r| :: r[k].term != r[l].term)
  {
    TopIndicesSpec(weights, n);
  }

  /** The two fitted models' topic-term weights and the two vocabularies. */
  datatype TopicModels = TopicModels(
    wordComponents: seq<seq<real>>, phraseComponents: seq<seq<real>>,
    wordFeatures: seq<string>, phraseFeatures: seq<string>)

  /**
   * The phrase model has at least the topics of the word model, and every
   * weight row is as long as its vocabulary.
   */
  ghost predicate Shaped(m: TopicModels) {
    && |m.wordComponents| <= |m.phraseComponents|
    && (forall t | 0 <= t < |m.wordComponents| :: |m.wordComponents[t]| == |m.wordFeatures|)
    && (forall t | 0 <= t < |m.wordComponents| :: |m.phraseComponents[t]| == |m.phraseFeatures|)
  }

  /** The number of rows each topic contributes. */
  function BlockSize(m: TopicModels, nWords: nat, nPhrases: nat): nat {
    Min(nWords, |m.wordFeatures|) + Min(nPhrases, |m.phraseFeatures|)
  }

  /** The rows for topic `t` (reported as `t + 1`): its words, then its phrases. */
  function TopicRecords(m: TopicModels, t: nat, nWords: nat, nPhrases: nat): (r: seq<TopicTerm>)
    requires Shaped(m) && t < |m.wordComponents|
    ensures |r| == BlockSize(m, nWords, nPhrases)
  {
    TermRecords(t + 1, m.wordFeatures, m.wordComponents[t], nWords, Word)
      + TermRecords(t + 1, m.phraseFeatures, m.phraseComponents[t], nPhrases, Phrase)
  }

  /** Every row of topic `t` carries the id `t + 1`; its words come before its phrases. */
  lemma TopicRecordsSpec(m: TopicModels, t: nat, nWords: nat, nPhrases: nat)
    requires Shaped(m) && t < |m.wordComponents|
    ensures var r := TopicRecords(m, t, nWords, nPhrases);
      && (forall x | x in r :: x.topicId == t + 1)
      && (forall k | 0 <= k < |r| :: (r[k].kind == Word <==> k < Min(nWords, |m.wordFeatures|)))
  {
    var words := TermRecords(t + 1, m.wordFeatures, m.wordComponents[t], nWords, Word);
    var phrases := TermRecords(t + 1, m.phraseFeatures, m.phraseComponents[t], nPhrases, Phrase);
    TermRecordsSpec(t + 1, m.wordFeatures, m.wordComponents[t], nWords, Word);
    TermRecordsSpec(t + 1, m.phraseFeatures, m.phraseComponents[t], nPhrases, Phrase);
    var r := words + phrases;
    forall k | 0 <= k < |r| ensures r[k].topicId == t + 1 && (r[k].kind == Word <==> k < |words|) {
      if k < |words| {
        assert r[k] == words[k];
      } else {
        assert r[k] == phrases[k - |words|];
      }
    }
  }

  /** Where block `t` starts when every block holds `b` elements: `t * b`, by repeated addition. */
  function Offset(t: nat, b: nat): nat {
    if t == 0 then 0 else Offset(t - 1, b) + b
  }

  lemma {:induction false} FlattenLength<T>(blocks: seq<seq<T>>, b: nat)
    requires forall i | 0 <= i < |blocks| :: |blocks[i]| == b
    ensures |Flatten(blocks)| == Offset(|blocks|, b)
  {
    if blocks != [] {
      FlattenLength(blocks[..|blocks| - 1], b);
    }
  }

  /** With blocks of `b` elements, block `t` sits at offset `t * b` of the concatenation. */
  lemma {:induction false} FlattenBlock<T>(blocks: seq<seq<T>>, b: nat, t: nat)
    requires forall i | 0 <= i < |blocks| :: |blocks[i]| == b
    requires t < |blocks|
    ensures Offset(t, b) + b <= |Flatten(blocks)|
    ensures Flatten(blocks)[Offset(t, b) .. Offset(t, b) + b] == blocks[t]
  {
    var init := blocks[..|blocks| - 1];
    FlattenLength(init, b);
    FlattenLength(blocks, b);
    if t < |blocks| - 1 {
      FlattenBlock(init, b, t);
      assert init[t] == blocks[t];
      assert Flatten(blocks)[Offset(t, b) .. Offset(t, b) + b] == Flatten(init)[Offset(t, b) .. Offset(t, b) + b];
    } else {
      assert Flatten(blocks)[Offset(t, b) ..] == blocks[t];
    }
  }

  lemma FlattenSnoc<T>(blocks: seq<seq<T>>, block: seq<T>)
    ensures Flatten(blocks + [block]) == Flatten(blocks) + block
  {
    assert (blocks + [block])[..|blocks|] == blocks;
  }

  /** Every element of the concatenation comes from some block. */
  lemma {:induction false} FlattenMember<T>(blocks: seq<seq<T>>, x: T)
    requires x in Flatten(blocks)
    ensures exists t | 0 <= t < |blocks| :: x in blocks[t]
  {
    var init := blocks[..|blocks| - 1];
    if x !in blocks[|blocks| - 1] {
      FlattenMember(init, x);
      var t :| 0 <= t < |init| && x in init[t];
      assert init[t] == blocks[t];
    }
  }

  /** The rows of each of the first `topics` topics, one block per topic. */
  function TopicBlocks(m: TopicModels, topics: nat, nWords: nat, nPhrases: nat): (r: seq<seq<TopicTerm>>)
    requires Shaped(m) && topics <= |m.wordComponents|
    ensures |r| == topics
    ensures forall t | 0 <= t < topics :: r[t] == TopicRecords(m, t, nWords, nPhrases)
  {
    seq(topics, t requires 0 <= t < topics => TopicRecords(m, t, nWords, nPhrases))
  }

  lemma TopicBlocksSnoc(m: TopicModels, t: nat, nWords: nat, nPhrases: nat)
    requires Shaped(m) && t < |m.wordComponents|
    ensures TopicBlocks(m, t + 1, nWords, nPhrases) == TopicBlocks(m, t, nWords, nPhrases) + [TopicRecords(m, t, nWords, nPhrases)]
  {
  }

  /** `topics_data`: the rows of every topic of the word model, in topic order. */
  function Report(m: TopicModels, nWords: nat, nPhrases: nat): seq<TopicTerm>
    requires Shaped(m)
  {
    Flatten(TopicBlocks(m, |m.wordComponents|, nWords, nPhrases))
  }

  /** Every topic contributes the same number `b` of rows. */
  lemma ReportLength(m: TopicModels, nWords: nat, nPhrases: nat)
    requires Shaped(m)
    ensures |Report(m, nWords, nPhrases)| == Offset(|m.wordComponents|, BlockSize(m, nWords, nPhrases))
  {
    FlattenLength(TopicBlocks(m, |m.wordComponents|, nWords, nPhrases), BlockSize(m, nWords, nPhrases));
  }

  /** Rows `t * b` to `t * b + b` of the report are exactly those of topic `t`. */
  lemma ReportBlock(m: TopicModels, nWords: nat, nPhrases: nat, t: nat)
    requires Shaped(m) && t < |m.wordComponents|
    ensures var b := BlockSize(m, nWords, nPhrases);
      && Offset(t, b) + b <= |Report(m, nWords, nPhrases)|
      && Report(m, nWords, nPhrases)[Offset(t, b) .. Offset(t, b) + b] == TopicRecords(m, t, nWords, nPhrases)
  {
    FlattenBlock(TopicBlocks(m, |m.wordComponents|, nWords, nPhrases), BlockSize(m, nWords, nPhrases), t);
  }

  /** Every row of the report names one of the topics `1..T` of the word model. */
  lemma ReportTopicIds(m: TopicModels, nWords: nat, nPhrases: nat, k: nat)
    requires Shaped(m) && k < |Report(m, nWords, nPhrases)|
    ensures 1 <= Report(m, nWords, nPhrases)[k].topicId <= |m.wordComponents|
  {
    var blocks := TopicBlocks(m, |m.wordComponents|, nWords, nPhrases);
    var r := Flatten(blocks);
    FlattenMember(blocks, r[k]);
    var t :| 0 <= t < |blocks| && r[k] in blocks[t];
    TopicRecordsSpec(m, t, nWords, nPhrases);
  }

  /**
   * One inner loop of `display_topics`: appends a row for each of the `n`
   * best terms of one topic, best first.
   */
  method AppendTopTerms(data: seq<TopicTerm>, topicId: nat, features: seq<string>, weights: seq<real>, n: nat, kind: TermKind)
    returns (out: seq<TopicTerm>)
    requires |weights| == |features|
    ensures out == data + TermRecords(topicId, features, weights, n, kind)
  {
    var topIndices := TopIndices(weights, n);
    ghost var rows := TermRecords(topicId, features, weights, n, kind);
    out := data;
    for k := 0 to |topIndices|
      invariant out == data + rows[..k]
    {
      var i := topIndices[k];
      assert rows[..k + 1] == rows[..k] + [TopicTerm(topicId, features[i], weights[i], kind)];
      out := out + [TopicTerm(topicId, features[i], weights[i], kind)];
    }
    assert rows[..|rows|] == rows;
  }

  /** Appending the words and then the phrases of topic `t` extends the report by one topic. */
  lemma ReportStep(m: TopicModels, t: nat, nWords: nat, nPhrases: nat, data: seq<TopicTerm>)
    requires Shaped(m) && t < |m.wordComponents|
    requires data == Flatten(TopicBlocks(m, t, nWords, nPhrases))
    ensures data + TermRecords(t + 1, m.wordFeatures, m.wordComponents[t], nWords, Word)
                 + TermRecords(t + 1, m.phraseFeatures, m.phraseComponents[t], nPhrases, Phrase)
            == Flatten(TopicBlocks(m, t + 1, nWords, nPhrases))
  {
    var words := TermRecords(t + 1, m.wordFeatures, m.wordComponents[t], nWords, Word);
    var phrases := TermRecords(t + 1, m.phraseFeatures, m.phraseComponents[t], nPhrases, Phrase);
    assert data + words + phrases == data + (words + phrases);
    TopicBlocksSnoc(m, t, nWords, nPhrases);
    FlattenSnoc(TopicBlocks(m, t, nWords, nPhrases), TopicRecords(m, t, nWords, nPhrases));
  }

  /**
   * `display_topics`: for every topic of the word model, its best `nWords`
   * words and then its best `nPhrases` phrases, appended row by row.
   */
  method DisplayTopics(wordComponents: seq<seq<real>>, phraseComponents: seq<seq<real>>,
                       wordFeatures: seq<string>, phraseFeatures: seq<string>, nWords: nat, nPhrases: nat)
    returns (topicsData: seq<TopicTerm>)
    requires Shaped(TopicModels(wordComponents, phraseComponents, wordFeatures, phraseFeatures))
    ensures topicsData == Report(TopicModels(wordComponents, phraseComponents, wordFeatures, phraseFeatures), nWords, nPhrases)
  {
    ghost var m := TopicModels(wordComponents, phraseComponents, wordFeatures, phraseFeatures);
    topicsData := [];
    for t := 0 to |wordComponents|
      invariant topicsData == Flatten(TopicBlocks(m, t, nWords, nPhrases))
    {
      ReportStep(m, t, nWords, nPhrases, topicsData);
      topicsData := AppendTopTerms(topicsData, t + 1, wordFeatures, wordComponents[t], nWords, Word);
      topicsData := AppendTopTerms(topicsData, t + 1, phraseFeatures, phraseComponents[t], nPhrases, Phrase);
    }
  }

  // ---------------------------------------------------------------------------
  // Dominant topics

  /** `argmax`: the first position of the largest value. */
  function ArgMax(row: seq<real>): (k: nat)
    requires |row| > 0
    ensures k < |row|
    ensures forall j | 0 <= j < |row| :: row[j] <= row[k]
    ensures forall j | 0 <= j < k :: row[j] < row[k]
  {
    if |row| == 1 then 0
    else
      var k := ArgMax(row[..|row| - 1]);
      if row[|row| - 1] > row[k] then |row| - 1 else k
  }

  /** One row of the article-topic table. */
  datatype ArticleTopics = ArticleTopics(articleId: nat, title: string, dominantTopic: nat, dominantTopicProb: real, topicProbs: seq<real>)

  /**
   * The row for the article at position `i`: its dominant topic, reported
   * from 1, is the first topic of largest probability, and that probability
   * is the row's maximum.
   */
  function DocumentRow(i: nat, title: string, dist: seq<real>): (r: ArticleTopics)
    requires |dist| > 0
    ensures 1 <= r.dominantTopic <= |dist|
    ensures r.dominantTopicProb == dist[r.dominantTopic - 1]
    ensures forall j | 0 <= j < |dist| :: dist[j] <= r.dominantTopicProb
    ensures forall j | 0 <= j < r.dominantTopic - 1 :: dist[j] < r.dominantTopicProb
  {
    var k := ArgMax(dist);
    ArticleTopics(i, title, k + 1, dist[k], dist)
  }

  /** The number of times `x` occurs in `xs`. */
  function Count(xs: seq<nat>, x: nat): nat {
    if xs == [] then 0 else (if xs[0] == x then 1 else 0) + Count(xs[1..], x)
  }

  datatype TopicCount = TopicCount(topicId: nat, count: nat)

  /** The ids from `id` to `hi` that occur in `d`, ascending, with their counts. */
  function HistogramFrom(d: seq<nat>, id: nat, hi: nat): seq<TopicCount>
    decreases hi + 1 - id
  {
    if id > hi then []
    else (if Count(d, id) > 0 then [TopicCount(id, Count(d, id))] else []) + HistogramFrom(d, id + 1, hi)
  }

  /** `value_counts().sort_index()` of the dominant topics `1..nTopics`. */
  function Histogram(d: seq<nat>, nTopics: nat): seq<TopicCount> {
    HistogramFrom(d, 1, nTopics)
  }

  function TotalCount(h: seq<TopicCount>): nat {
    if h == [] then 0 else h[0].count + TotalCount(h[1..])
  }

  /** The number of elements of `d` between `lo` and `hi`. */
  function CountBetween(d: seq<nat>, lo: nat, hi: nat): nat {
    if d == [] then 0 else (if lo <= d[0] <= hi then 1 else 0) + CountBetween(d[1..], lo, hi)
  }

  lemma {:induction false} CountBetweenSplit(d: seq<nat>, lo: nat, hi: nat)
    requires lo <= hi
    ensures CountBetween(d, lo, hi) == Count(d, lo) + CountBetween(d, lo + 1, hi)
  {
    if d != [] {
      CountBetweenSplit(d[1..], lo, hi);
    }
  }

  lemma {:induction false} CountBetweenAll(d: seq<nat>, lo: nat, hi: nat)
    requires forall x | x in d :: lo <= x <= hi
    ensures CountBetween(d, lo, hi) == |d|
  {
    if d != [] {
      assert d[0] in d;
      assert forall x | x in d[1..] :: x in d;
      CountBetweenAll(d[1..], lo, hi);
    }
  }

  lemma {:induction false} HistogramFromTotal(d: seq<nat>, id: nat, hi: nat)
    ensures TotalCount(HistogramFrom(d, id, hi)) == (if id <= hi then CountBetween(d, id, hi) else 0)
    decreases hi + 1 - id
  {
    if id <= hi {
      HistogramFromTotal(d, id + 1, hi);
      var rest := HistogramFrom(d, id + 1, hi);
      var head := if Count(d, id) > 0 then [TopicCount(id, Count(d, id))] else [];
      assert HistogramFrom(d, id, hi) == head + rest;
      TotalCountAppend(head, rest);
      CountBetweenSplit(d, id, hi);
      if id == hi {
        CountBetweenEmpty(d, id + 1, hi);
      }
    }
  }

  lemma {:induction false} HistogramFromEntries(d: seq<nat>, id: nat, hi: nat)
    ensures forall e | e in HistogramFrom(d, id, hi) :: id <= e.topicId <= hi && e.count == Count(d, e.topicId) && e.count > 0
    ensures forall x | id <= x <= hi && Count(d, x) > 0 :: TopicCount(x, Count(d, x)) in HistogramFrom(d, id, hi)
    decreases hi + 1 - id
  {
    if id <= hi {
      HistogramFromEntries(d, id + 1, hi);
    }
  }

  lemma {:induction false} HistogramFromSorted(d: seq<nat>, id: nat, hi: nat)
    ensures forall k, l | 0 <= k < l < |HistogramFrom(d, id, hi)| ::
      HistogramFrom(d, id, hi)[k].topicId < HistogramFrom(d, id, hi)[l].topicId
    decreases hi + 1 - id
  {
    if id <= hi {
      HistogramFromSorted(d, id + 1, hi);
      HistogramFromEntries(d, id + 1, hi);
      var rest := HistogramFrom(d, id + 1, hi);
      var h := HistogramFrom(d, id, hi);
      if Count(d, id) > 0 {
        assert h == [TopicCount(id, Count(d, id))] + rest;
        forall k, l | 0 <= k < l < |h| ensures h[k].topicId < h[l].topicId {
          assert h[l] == rest[l - 1];
          if k > 0 {
            assert h[k] == rest[k - 1];
          } else {
            assert rest[l - 1] in rest;
          }
        }
      } else {
        assert h == rest;
      }
    }
  }

  lemma {:induction false} CountBetweenEmpty(d: seq<nat>, lo: nat, hi: nat)
    requires lo > hi
    ensures CountBetween(d, lo, hi) == 0
  {
    if d != [] {
      CountBetweenEmpty(d[1..], lo, hi);
    }
  }

  lemma {:induction false} TotalCountAppend(a: seq<TopicCount>, b: seq<TopicCount>)
    ensures TotalCount(a + b) == TotalCount(a) + TotalCount(b)
  {
    if a == [] {
      assert a + b == b;
    } else {
      assert (a + b)[0] == a[0];
      assert (a + b)[1..] == a[1..] + b;
      TotalCountAppend(a[1..], b);
    }
  }

  /**
   * When every dominant topic is in `1..nTopics`, the histogram lists the
   * topics that occur, each once, ascending, with their (positive) counts, and
   * the counts add up to the number of articles.
   */
  lemma HistogramSpec(d: seq<nat>, nTopics: nat)
    requires forall x | x in d :: 1 <= x <= nTopics
    ensures TotalCount(Histogram(d, nTopics)) == |d|
    ensures forall e | e in Histogram(d, nTopics) :: 1 <= e.topicId <= nTopics && e.count == Count(d, e.topicId) && e.count > 0
    ensures forall k, l | 0 <= k < l < |Histogram(d, nTopics)| :: Histogram(d, nTopics)[k].topicId < Histogram(d, nTopics)[l].topicId
    ensures forall x | x in d :: TopicCount(x, Count(d, x)) in Histogram(d, nTopics)
  {
    HistogramFromTotal(d, 1, nTopics);
    HistogramFromEntries(d, 1, nTopics);
    HistogramFromSorted(d, 1, nTopics);
    if d == [] {
    } else {
      assert d[0] in d;
      CountBetweenAll(d, 1, nTopics);
    }
    forall x | x in d ensures Count(d, x) > 0 {
      CountPositive(d, x);
    }
  }

  lemma {:induction false} CountPositive(d: seq<nat>, x: nat)
    requires x in d
    ensures Count(d, x) > 0
  {
    if d[0] != x {
      CountPositive(d[1..], x);
    }
  }

  /** One line of the distribution report, with the percentage left unformatted. */
  datatype DistributionLine = DistributionLine(topicId: nat, count: nat, percentage: real)

  function Percent(count: nat, total: nat): real
    requires total > 0
  {
    count as real / total as real * 100.0
  }

  function PercentSum(lines: seq<DistributionLine>): real {
    if lines == [] then 0.0 else lines[0].percentage + PercentSum(lines[1..])
  }

  lemma PercentWhole(total: nat)
    requires total > 0
    ensures Percent(total, total) == 100.0
  {
    assert total as real / total as real == 1.0;
  }

  /** The dominant topic of every article, as reported (from 1). */
  function DominantTopics(results: seq<ArticleTopics>): (r: seq<nat>)
    ensures |r| == |results|
  {
    seq(|results|, i requires 0 <= i < |results| => results[i].dominantTopic)
  }

  /**
   * The percentages of a histogram over `total` articles add up to the
   * counts' share of them.
   */
  lemma {:induction false} PercentSumSpec(h: seq<TopicCount>, lines: seq<DistributionLine>, total: nat)
    requires total > 0 && |lines| == |h|
    requires forall k | 0 <= k < |h| :: lines[k] == DistributionLine(h[k].topicId, h[k].count, Percent(h[k].count, total))
    ensures PercentSum(lines) == Percent(TotalCount(h), total)
  {
    if h != [] {
      PercentSumSpec(h[1..], lines[1..], total);
      PercentAdd(h[0].count, TotalCount(h[1..]), total);
    }
  }

  lemma PercentAdd(a: nat, b: nat, total: nat)
    requires total > 0
    ensures Percent(a, total) + Percent(b, total) == Percent(a + b, total)
  {
    var t := total as real;
    assert a as real / t + b as real / t == (a + b) as real / t;
  }

  /**
   * `analyze_document_topics`: one row per article with its dominant topic,
   * the histogram of dominant topics, and one report line per histogram
   * entry giving its count's share of the articles; the shares add up to 100
   * when there is an article.
   */
  method AnalyzeDocumentTopics(docTopics: seq<seq<real>>, titles: seq<string>, nTopics: nat)
    returns (results: seq<ArticleTopics>, topicCounts: seq<TopicCount>, lines: seq<DistributionLine>)
    requires nTopics > 0
    requires |titles| <= |docTopics|
    requires forall d | 0 <= d < |docTopics| :: |docTopics[d]| == nTopics
    ensures |results| == |titles|
    ensures forall i | 0 <= i < |titles| :: results[i] == DocumentRow(i, titles[i], docTopics[i])
    ensures topicCounts == Histogram(DominantTopics(results), nTopics)
    ensures TotalCount(topicCounts) == |titles|
    ensures |lines| == |topicCounts|
    ensures forall k | 0 <= k < |lines| :: lines[k].topicId == topicCounts[k].topicId && lines[k].count == topicCounts[k].count
    ensures forall k | 0 <= k < |lines| :: |titles| > 0 && lines[k].percentage == Percent(lines[k].count, |titles|)
    ensures |titles| > 0 ==> PercentSum(lines) == 100.0
  {
    results := [];
    for i := 0 to |titles|
      invariant |results| == i
      invariant forall k | 0 <= k < i :: results[k] == DocumentRow(k, titles[k], docTopics[k])
    {
      var topicDist := docTopics[i];
      var dominantTopic := ArgMax(topicDist);
      results := results + [ArticleTopics(i, titles[i], dominantTopic + 1, topicDist[dominantTopic], topicDist)];
    }
    var dominant := DominantTopics(results);
    forall x | x in dominant ensures 1 <= x <= nTopics {
      var i :| 0 <= i < |dominant| && dominant[i] == x;
    }
    HistogramSpec(dominant, nTopics);
    topicCounts := Histogram(dominant, nTopics);
    lines := [];
    for k := 0 to |topicCounts|
      invariant |lines| == k
      invariant forall j | 0 <= j < k :: lines[j] == DistributionLine(topicCounts[j].topicId, topicCounts[j].count,
                                                                      Percent(topicCounts[j].count, |titles|))
    {
      assert topicCounts[k] in topicCounts;
      assert dominant != [];
      var percentage := Percent(topicCounts[k].count, |titles|);
      lines := lines + [DistributionLine(topicCounts[k].topicId, topicCounts[k].count, percentage)];
    }
    if |titles| > 0 {
      PercentSumSpec(topicCounts, lines, |titles|);
      PercentWhole(|titles|);
    }
  }

  // ---------------------------------------------------------------------------
  // Input column

  /** `sub in s` for strings. */
  predicate Contains(s: string, sub: string) {
    sub <= s || (s != [] && Contains(s[1..], sub))
  }

  /** A column whose lower-cased name mentions "content" or "text". */
  predicate IsContentLike(cm: Chars, name: string) {
    Contains(Lower(cm, name), "content") || Contains(Lower(cm, name), "text")
  }

  /** The position of the first content-like column, or `|columns|` when there is none. */
  function FirstContentLike(cm: Chars, columns: seq<string>): (k: nat)
    ensures k <= |columns|
    ensures forall j | 0 <= j < k :: !IsContentLike(cm, columns[j])
    ensures k < |columns| ==> IsContentLike(cm, columns[k])
  {
    if columns == [] then 0
    else if IsContentLike(cm, columns[0]) then 0
    else 1 + FirstContentLike(cm, columns[1..])
  }

  datatype ColumnError = NoContentColumn

  /** The column the main block reads: `content`, else the first content-like column, else an error. */
  function ContentColumn(cm: Chars, columns: seq<string>): (r: Result<string, ColumnError>)
    ensures "content" in columns ==> r == Success("content")
    ensures r.Failure? <==> "content" !in columns && forall c | c in columns :: !IsContentLike(cm, c)
    ensures r.Success? ==> r.value in columns
    ensures r.Success? && "content" !in columns ==>
      exists k | 0 <= k < |columns| :: columns[k] == r.value && IsContentLike(cm, columns[k]) &&
        forall j | 0 <= j < k :: !IsContentLike(cm, columns[j])
  {
    if "content" in columns then Success("content")
    else
      var k := FirstContentLike(cm, columns);
      if k < |columns| then Success(columns[k]) else Failure(NoContentColumn)
  }
}
