/**
 * The token pipeline shared by both text normalisers: lower-casing, deletion of
 * ASCII digit runs, deletion of everything that is neither a word nor a
 * whitespace character, whitespace splitting, the length/stopword filter, the
 * lemmatizer map and the single-space join.
 *
 * Python's `str.lower`, the regex classes `\w` and `\s`, and the WordNet
 * lemmatizer are not interpreted: they are parameters, and the lemmas state
 * the few facts about them they rely on (WellFormed, LemmatizerOk).
 */
module Tokens {

  /** A table cell: a string, or anything else (a missing value, NaN, a number). */
  datatype Cell = Text(s: string) | NonText

  /** Abstract character semantics: `str.lower` per character, `\w`, `\s`. */
  datatype Chars = Chars(lower: char -> char, isWord: char -> bool, isSpace: char -> bool)

  /**
   * What the normalisers rely on: the space character is whitespace and is its
   * own lower case, lower-casing is idempotent, and no character is both a
   * word character and a whitespace character.
   */
  ghost predicate WellFormed(cm: Chars) {
    && cm.isSpace(' ')
    && cm.lower(' ') == ' '
    && (forall c :: cm.lower(cm.lower(c)) == cm.lower(c))
    && (forall c :: !(cm.isWord(c) && cm.isSpace(c)))
  }

  /**
   * On a non-empty word without whitespace, the lemmatizer returns a
   * non-empty word without whitespace.
   */
  ghost predicate LemmatizerOk(cm: Chars, lem: string -> string) {
    forall w | w != [] && NoSpace(cm, w) :: lem(w) != [] && NoSpace(cm, lem(w))
  }

  predicate IsAsciiDigit(c: char) {
    '0' <= c <= '9'
  }

  ghost predicate NoSpace(cm: Chars, w: string) {
    forall c | c in w :: !cm.isSpace(c)
  }

  /** A token as the splitter leaves it once digits and punctuation are gone. */
  ghost predicate CleanToken(cm: Chars, w: string) {
    && w != []
    && forall c | c in w :: cm.isWord(c) && !cm.isSpace(c) && !IsAsciiDigit(c)
  }

  /** `a` is an order-preserving subsequence of `b`. */
  ghost predicate Subsequence<T>(a: seq<T>, b: seq<T>)
    decreases |b|
  {
    a == [] || (b != [] && (Subsequence(a, b[1..]) || (a[0] == b[0] && Subsequence(a[1..], b[1..]))))
  }

  /**
   * Keeps, in order, the characters that satisfy `keep`: the result is a
   * subsequence of `s` holding every occurrence of a kept character and no
   * occurrence of any other.
   */
  function FilterChars(keep: char -> bool, s: string): (r: string)
    ensures |r| <= |s|
    ensures Subsequence(r, s)
    ensures forall c | c in r :: c in s && keep(c)
    ensures forall c | c in s && keep(c) :: c in r
    ensures forall c :: multiset(r)[c] == (if keep(c) then multiset(s)[c] else 0)
  {
    if s == [] then []
    else
      assert s == [s[0]] + s[1..];
      var rest := FilterChars(keep, s[1..]);
      if keep(s[0]) then assert ([s[0]] + rest)[1..] == rest; [s[0]] + rest
      else rest
  }

  lemma {:induction false} FilterCharsNoop(keep: char -> bool, s: string)
    requires forall c | c in s :: keep(c)
    ensures FilterChars(keep, s) == s
  {
    if s != [] {
      FilterCharsNoop(keep, s[1..]);
    }
  }

  /** `text.lower()`, one character at a time. */
  function Lower(cm: Chars, s: string): string {
    seq(|s|, i requires 0 <= i < |s| => cm.lower(s[i]))
  }

  /** `re.sub(r'[0-9]+', '', s)`: every ASCII digit goes. */
  function StripDigits(s: string): string {
    FilterChars(c => !IsAsciiDigit(c), s)
  }

  /** `re.sub(r'[^\w\s]', '', s)`: what is neither `\w` nor `\s` goes. */
  function StripNonWord(cm: Chars, s: string): string {
    FilterChars(c => cm.isWord(c) || cm.isSpace(c), s)
  }

  /** Length of the leading run of non-whitespace characters. */
  function WordLen(cm: Chars, s: string): (n: nat)
    ensures n <= |s|
    ensures forall i | 0 <= i < n :: !cm.isSpace(s[i])
    ensures n < |s| ==> cm.isSpace(s[n])
  {
    if s == [] || cm.isSpace(s[0]) then 0 else 1 + WordLen(cm, s[1..])
  }

  /**
   * `s.split()`: the maximal runs of non-whitespace characters, in order;
   * leading, trailing and repeated whitespace yield no empty token.
   */
  function Split(cm: Chars, s: string): (r: seq<string>)
    ensures forall w | w in r :: w != [] && forall c | c in w :: c in s && !cm.isSpace(c)
    decreases |s|
  {
    if s == [] then []
    else if cm.isSpace(s[0]) then Split(cm, s[1..])
    else
      var n := WordLen(cm, s);
      [s[..n]] + Split(cm, s[n..])
  }

  /** `' '.join(ws)`. */
  function Join(ws: seq<string>): string {
    if ws == [] then ""
    else if |ws| == 1 then ws[0]
    else ws[0] + " " + Join(ws[1..])
  }

  /**
   * The character steps and the split, as `textprocess` in the LDA script and
   * the first four statements of `process_text` in the TF-IDF script do them.
   */
  function Tokenize(cm: Chars, s: string): (r: seq<string>)
    ensures forall w | w in r :: CleanToken(cm, w)
    ensures forall w | w in r :: forall c | c in w :: c in Lower(cm, s)
  {
    Split(cm, StripNonWord(cm, StripDigits(Lower(cm, s))))
  }

  /** The filter of both list comprehensions: longer than two and not a stopword. */
  predicate Kept(stop: seq<string>, w: string) {
    |w| > 2 && w !in stop
  }

  /**
   * `[w for w in ws if len(w) > 2 and w not in stop]`: every occurrence of a
   * passing token is kept, in order, and no occurrence of another.
   */
  function KeepTokens(stop: seq<string>, ws: seq<string>): (r: seq<string>)
    ensures Subsequence(r, ws)
    ensures forall w | w in r :: w in ws && Kept(stop, w)
    ensures forall w | w in ws && Kept(stop, w) :: w in r
    ensures forall w :: multiset(r)[w] == (if Kept(stop, w) then multiset(ws)[w] else 0)
  {
    assert ws != [] ==> ws == [ws[0]] + ws[1..];
    if ws == [] then []
    else if Kept(stop, ws[0]) then [ws[0]] + KeepTokens(stop, ws[1..])
    else KeepTokens(stop, ws[1..])
  }

  lemma {:induction false} KeepTokensNoop(stop: seq<string>, ws: seq<string>)
    requires forall w | w in ws :: Kept(stop, w)
    ensures KeepTokens(stop, ws) == ws
  {
    if ws != [] {
      KeepTokensNoop(stop, ws[1..]);
    }
  }

  /** `[lem(w) for w in ws]`. */
  function Lemmatize(lem: string -> string, ws: seq<string>): seq<string> {
    seq(|ws|, i requires 0 <= i < |ws| => lem(ws[i]))
  }

  /** The tokens the filter keeps from a string: what both normalisers join or lemmatize. */
  function KeptTokens(cm: Chars, stop: seq<string>, s: string): seq<string> {
    KeepTokens(stop, Tokenize(cm, s))
  }

  // ---------------------------------------------------------------------------
  // Lemmas about the pipeline

  lemma {:induction false} WordLenPrefix(cm: Chars, w: string, t: string)
    requires NoSpace(cm, w)
    requires t == [] || cm.isSpace(t[0])
    ensures WordLen(cm, w + t) == |w|
  {
    if w != [] {
      assert (w + t)[1..] == w[1..] + t;
      WordLenPrefix(cm, w[1..], t);
    } else {
      assert w + t == t;
    }
  }

  lemma {:induction false} SplitWordPrefix(cm: Chars, w: string, t: string)
    requires w != [] && NoSpace(cm, w)
    requires t == [] || cm.isSpace(t[0])
    ensures Split(cm, w + t) == [w] + Split(cm, t)
  {
    WordLenPrefix(cm, w, t);
    assert w[0] in w;
    assert (w + t)[0] == w[0];
    assert (w + t)[..|w|] == w;
    assert (w + t)[|w|..] == t;
  }

  /** Splitting a single-space join gives back the tokens: `' '.join` and `str.split` are inverse. */
  lemma {:induction false} SplitJoin(cm: Chars, ws: seq<string>)
    requires cm.isSpace(' ')
    requires forall w | w in ws :: w != [] && NoSpace(cm, w)
    ensures Split(cm, Join(ws)) == ws
  {
    if ws == [] {
    } else if |ws| == 1 {
      assert ws[0] in ws;
      SplitWordPrefix(cm, ws[0], "");
      assert ws[0] + "" == ws[0];
      assert [ws[0]] == ws;
    } else {
      assert ws[0] in ws;
      var rest := " " + Join(ws[1..]);
      assert ws[0] + " " + Join(ws[1..]) == ws[0] + rest;
      SplitWordPrefix(cm, ws[0], rest);
      assert rest[1..] == Join(ws[1..]);
      assert forall w | w in ws[1..] :: w in ws;
      SplitJoin(cm, ws[1..]);
      assert [ws[0]] + ws[1..] == ws;
    }
  }

  /** Splitting the join of the lemmas of non-empty, space-free words gives back the lemmas. */
  lemma SplitJoinLemmas(cm: Chars, lem: string -> string, ws: seq<string>)
    requires cm.isSpace(' ') && LemmatizerOk(cm, lem)
    requires forall w | w in ws :: w != [] && NoSpace(cm, w)
    ensures Split(cm, Join(Lemmatize(lem, ws))) == Lemmatize(lem, ws)
  {
    var lemmas := Lemmatize(lem, ws);
    forall w | w in lemmas ensures w != [] && NoSpace(cm, w) {
      var i :| 0 <= i < |lemmas| && lemmas[i] == w;
      assert ws[i] in ws;
    }
    SplitJoin(cm, lemmas);
  }

  /** Every character of a join is a separator or a character of some token. */
  lemma {:induction false} JoinChars(ws: seq<string>, p: char -> bool)
    requires p(' ')
    requires forall w | w in ws :: forall c | c in w :: p(c)
    ensures forall c | c in Join(ws) :: p(c)
  {
    if |ws| > 1 {
      assert ws[0] in ws;
      assert forall w | w in ws[1..] :: w in ws;
      JoinChars(ws[1..], p);
      forall c | c in Join(ws) ensures p(c) {
        assert c in ws[0] + " " + Join(ws[1..]);
      }
    } else if |ws| == 1 {
      assert ws[0] in ws;
    }
  }

  /** Before the lemmatizer runs, every kept token is a clean, lower-case token. */
  lemma KeptTokensClean(cm: Chars, stop: seq<string>, s: string)
    requires WellFormed(cm)
    ensures forall w | w in KeptTokens(cm, stop, s) ::
              CleanToken(cm, w) && Kept(stop, w) && forall c | c in w :: cm.lower(c) == c
  {
    var ts := Tokenize(cm, s);
    forall w, c | w in ts && c in w ensures cm.lower(c) == c {
      var l := Lower(cm, s);
      assert c in l;
      var i :| 0 <= i < |l| && l[i] == c;
      assert c == cm.lower(s[i]);
    }
  }

  /**
   * Joining clean lower-case tokens and tokenizing the result again gives the
   * same tokens: each character step is then the identity.
   */
  lemma {:induction false} TokenizeJoin(cm: Chars, ws: seq<string>)
    requires WellFormed(cm)
    requires forall w | w in ws :: CleanToken(cm, w) && forall c | c in w :: cm.lower(c) == c
    ensures Tokenize(cm, Join(ws)) == ws
  {
    var t := Join(ws);
    JoinChars(ws, c => cm.lower(c) == c);
    forall i | 0 <= i < |t| ensures Lower(cm, t)[i] == t[i] {
      assert t[i] in t;
    }
    assert Lower(cm, t) == t;
    JoinChars(ws, c => !IsAsciiDigit(c));
    FilterCharsNoop(c => !IsAsciiDigit(c), t);
    JoinChars(ws, c => cm.isWord(c) || cm.isSpace(c));
    FilterCharsNoop(c => cm.isWord(c) || cm.isSpace(c), t);
    forall w | w in ws ensures w != [] && NoSpace(cm, w) { }
    SplitJoin(cm, ws);
  }

  // ---------------------------------------------------------------------------
  // No character is lost by the split

  /** The concatenation of `blocks`, in order. */
  function Flatten<T>(blocks: seq<seq<T>>): seq<T> {
    if blocks == [] then [] else Flatten(blocks[..|blocks| - 1]) + blocks[|blocks| - 1]
  }

  lemma {:induction false} FlattenCons<T>(b: seq<T>, blocks: seq<seq<T>>)
    ensures Flatten([b] + blocks) == b + Flatten(blocks)
    decreases |blocks|
  {
    var bs := [b] + blocks;
    if blocks == [] {
      assert bs[..|bs| - 1] == [];
    } else {
      assert bs[..|bs| - 1] == [b] + blocks[..|blocks| - 1];
      FlattenCons(b, blocks[..|blocks| - 1]);
    }
  }

  lemma {:induction false} FilterAppend(keep: char -> bool, a: string, b: string)
    ensures FilterChars(keep, a + b) == FilterChars(keep, a) + FilterChars(keep, b)
  {
    if a == [] {
      assert a + b == b;
    } else {
      assert (a + b)[0] == a[0];
      assert (a + b)[1..] == a[1..] + b;
      FilterAppend(keep, a[1..], b);
    }
  }

  /** Filtering by `q` and then by `p` is filtering by both. */
  lemma {:induction false} FilterCompose(p: char -> bool, q: char -> bool, both: char -> bool, s: string)
    requires forall c :: both(c) == (q(c) && p(c))
    ensures FilterChars(p, FilterChars(q, s)) == FilterChars(both, s)
  {
    if s != [] {
      FilterCompose(p, q, both, s[1..]);
      var head := if q(s[0]) then [s[0]] else [];
      assert FilterChars(q, s) == head + FilterChars(q, s[1..]);
      FilterAppend(p, head, FilterChars(q, s[1..]));
      if q(s[0]) {
        assert FilterChars(p, head) == (if p(s[0]) then [s[0]] else []);
      }
    }
  }

  lemma FilterKeptPrefix(keep: char -> bool, w: string, t: string)
    requires forall i | 0 <= i < |w| :: keep(w[i])
    ensures FilterChars(keep, w + t) == w + FilterChars(keep, t)
  {
    FilterAppend(keep, w, t);
    FilterCharsNoop(keep, w);
  }

  /**
   * `s.split()` loses no character but whitespace: its tokens, concatenated,
   * are the non-whitespace characters of `s`, in order.
   */
  lemma {:induction false} SplitChars(cm: Chars, nonSpace: char -> bool, s: string)
    requires forall c :: nonSpace(c) == !cm.isSpace(c)
    ensures Flatten(Split(cm, s)) == FilterChars(nonSpace, s)
    decreases |s|
  {
    if s != [] {
      if cm.isSpace(s[0]) {
        SplitChars(cm, nonSpace, s[1..]);
      } else {
        var n := WordLen(cm, s);
        var w, t := s[..n], s[n..];
        SplitChars(cm, nonSpace, t);
        FlattenCons(w, Split(cm, t));
        assert s == w + t;
        FilterKeptPrefix(nonSpace, w, t);
      }
    }
  }

  /** `w` occurs in `s` at `i` as a whole run: whitespace or an end of `s` on either side. */
  ghost predicate RunAt(cm: Chars, s: string, w: string, i: nat) {
    && i + |w| <= |s| && s[i..i + |w|] == w
    && (i == 0 || cm.isSpace(s[i - 1]))
    && (i + |w| == |s| || cm.isSpace(s[i + |w|]))
  }

  /** `w` is a whole run of `s`. */
  ghost predicate IsRun(cm: Chars, s: string, w: string) {
    exists i: nat :: RunAt(cm, s, w, i)
  }

  lemma RunShift(cm: Chars, s: string, off: nat, w: string)
    requires off <= |s| && IsRun(cm, s[off..], w)
    requires w != [] && !cm.isSpace(w[0])
    requires off == 0 || cm.isSpace(s[off]) || cm.isSpace(s[off - 1])
    ensures IsRun(cm, s, w)
  {
    var i: nat :| RunAt(cm, s[off..], w, i);
    assert s[off + i..off + i + |w|] == s[off..][i..i + |w|];
    assert s[off + i] == w[0];
    assert RunAt(cm, s, w, off + i);
  }

  /** Every token of `s.split()` is a whole run of non-whitespace characters of `s`. */
  lemma {:induction false} SplitRuns(cm: Chars, s: string)
    ensures forall w | w in Split(cm, s) :: IsRun(cm, s, w)
    decreases |s|
  {
    if s == [] {
    } else if cm.isSpace(s[0]) {
      SplitRuns(cm, s[1..]);
      forall w | w in Split(cm, s[1..]) ensures IsRun(cm, s, w) {
        RunShift(cm, s, 1, w);
      }
    } else {
      var n := WordLen(cm, s);
      var rest := Split(cm, s[n..]);
      SplitRuns(cm, s[n..]);
      assert Split(cm, s) == [s[..n]] + rest;
      assert RunAt(cm, s, s[..n], 0);
      forall w | w in rest ensures IsRun(cm, s, w) {
        RunShift(cm, s, n, w);
      }
    }
  }

  /** The characters a token may hold: word characters other than ASCII digits. */
  predicate TokenChar(cm: Chars, c: char) {
    cm.isWord(c) && !IsAsciiDigit(c)
  }

  /**
   * No token character is lost: the tokens, concatenated, are exactly the
   * word characters of the lower-cased text that are not ASCII digits, every
   * occurrence of them, in order.
   */
  lemma TokenizeChars(cm: Chars, s: string)
    requires WellFormed(cm)
    ensures Flatten(Tokenize(cm, s)) == FilterChars(c => TokenChar(cm, c), Lower(cm, s))
  {
    var l := Lower(cm, s);
    var notDigit := c => !IsAsciiDigit(c);
    var wordOrSpace := c => cm.isWord(c) || cm.isSpace(c);
    var kept := c => !IsAsciiDigit(c) && (cm.isWord(c) || cm.isSpace(c));
    var nonSpace := c => !cm.isSpace(c);
    var tokenChar := c => TokenChar(cm, c);
    assert StripDigits(l) == FilterChars(notDigit, l);
    assert StripNonWord(cm, StripDigits(l)) == FilterChars(wordOrSpace, FilterChars(notDigit, l));
    FilterCompose(wordOrSpace, notDigit, kept, l);
    FilterCompose(nonSpace, kept, tokenChar, l);
    SplitChars(cm, nonSpace, FilterChars(kept, l));
  }
}
