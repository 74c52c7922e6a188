/** The FAQ matcher (`faq_match` in chatbot_core.py): a linear scan over the
    knowledge base that keeps the best Jaccard score seen so far, replacing it
    only on strict improvement, then applies a threshold. */
module Matcher {
  import opened Normalizer
  import opened Similarity

  datatype Option<T> = None | Some(value: T)

  /** One knowledge-base entry: a normalised question and its canned answer. */
  datatype Entry = Entry(question: set<string>, answer: string)

  /** The state of the scan: the best score so far and the index of the entry
      that set it (None while nothing has beaten the initial 0). */
  datatype Best = Best(score: real, at: Option<nat>)

  /** The similarity of a normalised query to one entry's question: in [0, 1],
      0 when they share no term, 1 exactly when the query is the question. */
  function Score(query: set<string>, e: Entry): (s: real)
    ensures 0.0 <= s <= 1.0
    ensures s == 0.0 <==> query * e.question == {}
    ensures s == 1.0 <==> query == e.question && query != {}
  {
    Jaccard(query, e.question)
  }

  /** The scan of the loop over `kb`, as a function of the entries scanned:
      an entry replaces the best only when its score is strictly greater. */
  function Scan(query: set<string>, kb: seq<Entry>): (b: Best)
    ensures 0.0 <= b.score
    ensures b.at.None? ==> b.score == 0.0
    ensures b.at.Some? ==> b.at.value < |kb| && 0.0 < b.score == Score(query, kb[b.at.value])
    decreases |kb|
  {
    if kb == [] then Best(0.0, None)
    else
      var prev := Scan(query, kb[..|kb| - 1]);
      var s := Score(query, kb[|kb| - 1]);
      if s > prev.score then Best(s, Some(|kb| - 1)) else prev
  }

  /** Entry `i` is the first entry with the highest score, and that score is
      positive. */
  ghost predicate IsFirstBest(query: set<string>, kb: seq<Entry>, i: int) {
    && 0 <= i < |kb|
    && 0.0 < Score(query, kb[i])
    && (forall j :: 0 <= j < |kb| ==> Score(query, kb[j]) <= Score(query, kb[i]))
    && (forall j :: 0 <= j < i ==> Score(query, kb[j]) < Score(query, kb[i]))
  }

  /** The scan's best score is at least every entry's score. */
  lemma {:induction false} ScanIsUpperBound(query: set<string>, kb: seq<Entry>)
    ensures forall j :: 0 <= j < |kb| ==> Score(query, kb[j]) <= Scan(query, kb).score
  {
    if kb != [] {
      var init := kb[..|kb| - 1];
      ScanIsUpperBound(query, init);
      forall j | 0 <= j < |kb| ensures Score(query, kb[j]) <= Scan(query, kb).score {
        if j < |init| {
          assert init[j] == kb[j];
        }
      }
    }
  }

  /** Every entry before the scan's winner scores strictly less than it. */
  lemma {:induction false} ScanWinnerIsFirst(query: set<string>, kb: seq<Entry>)
    ensures Scan(query, kb).at.Some? ==>
              forall j :: 0 <= j < Scan(query, kb).at.value ==> Score(query, kb[j]) < Scan(query, kb).score
  {
    if kb != [] {
      var init := kb[..|kb| - 1];
      var prev := Scan(query, init);
      ScanWinnerIsFirst(query, init);
      ScanIsUpperBound(query, init);
      if Scan(query, kb) == prev && prev.at.Some? {
        forall j | 0 <= j < prev.at.value ensures Score(query, kb[j]) < prev.score {
          assert init[j] == kb[j];
        }
      } else if Scan(query, kb) != prev {
        forall j | 0 <= j < |init| ensures Score(query, kb[j]) < Scan(query, kb).score {
          assert init[j] == kb[j];
        }
      }
    }
  }

  /** The scan picks exactly the first entry with the highest positive score,
      and picks none exactly when every entry scores 0; its score is the
      maximum of 0 and all entry scores. */
  lemma ScanFindsFirstBest(query: set<string>, kb: seq<Entry>)
    ensures forall j :: 0 <= j < |kb| ==> Score(query, kb[j]) <= Scan(query, kb).score
    ensures forall i :: Scan(query, kb).at == Some(i) <==> IsFirstBest(query, kb, i)
    ensures Scan(query, kb).at.None? <==> forall j :: 0 <= j < |kb| ==> Score(query, kb[j]) == 0.0
  {
    ScanIsUpperBound(query, kb);
    ScanWinnerIsFirst(query, kb);
    var b := Scan(query, kb);
    if b.at.Some? {
      assert IsFirstBest(query, kb, b.at.value);
    }
    forall i | IsFirstBest(query, kb, i) ensures b.at == Some(i) {
      if b.at.Some? {
        assert IsFirstBest(query, kb, b.at.value);
      }
    }
  }

  /** Tie-break: of two entries with the same score, the later one never wins. */
  lemma EarliestWinsTies(query: set<string>, kb: seq<Entry>, i: nat, j: nat)
    requires i < j < |kb|
    requires Score(query, kb[i]) == Score(query, kb[j])
    ensures Scan(query, kb).at != Some(j)
  {
    ScanFindsFirstBest(query, kb);
  }

  /** What `faq_match` returns for a normalised query: the answer of the scan's
      winner when the best score reaches the threshold, and None otherwise
      (also when no entry beat the initial 0). */
  function Match(query: set<string>, kb: seq<Entry>, threshold: real): (r: Option<string>)
    ensures r.Some? ==> exists i :: 0 <= i < |kb| && kb[i].answer == r.value
                                   && 0.0 < Score(query, kb[i]) && threshold <= Score(query, kb[i])
    ensures Scan(query, kb).score < threshold ==> r == None
  {
    var b := Scan(query, kb);
    if b.score >= threshold then
      match b.at
      case None => None
      case Some(i) => Some(kb[i].answer)
    else None
  }

  /** The first best-scoring entry is answered when its score reaches the
      threshold. */
  lemma FirstBestMatches(query: set<string>, kb: seq<Entry>, i: nat, threshold: real)
    requires IsFirstBest(query, kb, i) && Score(query, kb[i]) >= threshold
    ensures Match(query, kb, threshold) == Some(kb[i].answer)
  {
    ScanFindsFirstBest(query, kb);
  }

  /** A query equal to the first entry's (non-empty) question gets that
      entry's answer at any threshold up to 1. */
  lemma FirstEntryExactMatch(query: set<string>, kb: seq<Entry>, threshold: real)
    requires 0 < |kb| && kb[0].question == query && query != {}
    requires threshold <= 1.0
    ensures Match(query, kb, threshold) == Some(kb[0].answer)
  {
    assert Score(query, kb[0]) == 1.0;
    FirstBestMatches(query, kb, 0, threshold);
  }

  /** Two entries with the same non-empty question: the earlier one's answer
      is returned for that question, at any threshold up to 1. */
  lemma SameQuestionEarlierAnswer(q: set<string>, a1: string, a2: string, threshold: real)
    requires q != {} && threshold <= 1.0
    ensures Match(q, [Entry(q, a1), Entry(q, a2)], threshold) == Some(a1)
  {
    FirstEntryExactMatch(q, [Entry(q, a1), Entry(q, a2)], threshold);
  }

  /** A match is the answer of the first best-scoring entry, whose score
      reaches the threshold. */
  lemma MatchIsFirstBest(query: set<string>, kb: seq<Entry>, threshold: real, a: string)
    requires Match(query, kb, threshold) == Some(a)
    ensures exists i :: IsFirstBest(query, kb, i) && kb[i].answer == a && Score(query, kb[i]) >= threshold
  {
    ScanFindsFirstBest(query, kb);
    var i := Scan(query, kb).at.value;
    assert IsFirstBest(query, kb, i);
  }

  /** There is a match exactly when some entry scores above 0 and at least the
      threshold. */
  lemma MatchExistsIff(query: set<string>, kb: seq<Entry>, threshold: real)
    ensures Match(query, kb, threshold).Some?
        <==> exists j :: 0 <= j < |kb| && 0.0 < Score(query, kb[j]) && threshold <= Score(query, kb[j])
  {
    ScanFindsFirstBest(query, kb);
    var b := Scan(query, kb);
    if b.at.Some? && b.score >= threshold {
      assert 0.0 < Score(query, kb[b.at.value]);
    }
  }

  /** When every entry scores 0 there is no match, whatever the threshold. */
  lemma AllZeroNeverMatches(query: set<string>, kb: seq<Entry>, threshold: real)
    requires forall j :: 0 <= j < |kb| ==> Score(query, kb[j]) == 0.0
    ensures Match(query, kb, threshold) == None
  {
    ScanFindsFirstBest(query, kb);
  }

  /** `faq_match`: normalise the user's text, scan the knowledge base keeping
      the best score on strict improvement only, and return its answer when
      the best score reaches the threshold. */
  method FaqMatch(userText: string, tokenize: string -> seq<string>, stopwords: set<string>,
                  kb: seq<Entry>, threshold: real)
    returns (r: Option<string>)
    ensures r == Match(Normalize(tokenize(userText), stopwords), kb, threshold)
    ensures r.Some? ==> exists i :: IsFirstBest(Normalize(tokenize(userText), stopwords), kb, i)
                                   && kb[i].answer == r.value
                                   && Score(Normalize(tokenize(userText), stopwords), kb[i]) >= threshold
    ensures r.Some? <==> exists j :: 0 <= j < |kb| && 0.0 < Score(Normalize(tokenize(userText), stopwords), kb[j])
                                     && threshold <= Score(Normalize(tokenize(userText), stopwords), kb[j])
  {
    var userNorm := Normalize(tokenize(userText), stopwords);
    var bestScore, bestAnswer := 0.0, None;
    ghost var bestAt: Option<nat> := None;
    for i := 0 to |kb|
      invariant Scan(userNorm, kb[..i]) == Best(bestScore, bestAt)
      invariant bestAt.None? ==> bestAnswer == None
      invariant bestAt.Some? ==> bestAt.value < i && bestAnswer == Some(kb[bestAt.value].answer)
    {
      assert kb[..i + 1][..i] == kb[..i];
      var score := Jaccard(userNorm, kb[i].question);
      if score > bestScore {
        bestScore, bestAnswer := score, Some(kb[i].answer);
        bestAt := Some(i);
      }
    }
    assert kb[..|kb|] == kb;
    r := if bestScore >= threshold then bestAnswer else None;
    MatchExistsIff(userNorm, kb, threshold);
    if r.Some? {
      MatchIsFirstBest(userNorm, kb, threshold, r.value);
    }
  }
}
