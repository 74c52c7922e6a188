/** The text normaliser of the FAQ chatbot (`normalize` in chatbot_core.py).
    The word tokeniser and the English stopword list are library data the
    model cannot see: the tokeniser's output is taken as a sequence of tokens
    and the stopword list as a set. Characters are classified as ASCII. */
module Normalizer {

  predicate IsUpper(c: char) {
    'A' <= c <= 'Z'
  }

  predicate IsLetter(c: char) {
    'a' <= c <= 'z' || 'A' <= c <= 'Z'
  }

  /** `str.lower()` on one character. */
  function LowerChar(c: char): (d: char)
    ensures !IsUpper(d)
    ensures IsLetter(d) <==> IsLetter(c)
    ensures !IsUpper(c) ==> d == c
    ensures IsUpper(c) ==> d as int - 'a' as int == c as int - 'A' as int
  {
    if IsUpper(c) then (c as int + 32) as char else c
  }

  /** No character of `s` is an upper-case letter. */
  predicate IsLowercase(s: string) {
    forall i :: 0 <= i < |s| ==> !IsUpper(s[i])
  }

  /** `str.isalpha()`: true of a non-empty string of letters only; false of "". */
  predicate IsAlpha(s: string)
    ensures s == "" ==> !IsAlpha(s)
    ensures (exists i :: 0 <= i < |s| && !IsLetter(s[i])) ==> !IsAlpha(s)
  {
    |s| > 0 && forall i :: 0 <= i < |s| ==> IsLetter(s[i])
  }

  /** `str.lower()`. */
  function Lower(s: string): (r: string)
    ensures |r| == |s|
    ensures IsLowercase(r)
    ensures IsAlpha(r) <==> IsAlpha(s)
    ensures IsLowercase(s) ==> r == s
    ensures forall i :: 0 <= i < |s| ==> r[i] == LowerChar(s[i])
  {
    var r := seq(|s|, i requires 0 <= i < |s| => LowerChar(s[i]));
    assert forall i :: 0 <= i < |s| ==> (IsLetter(r[i]) <==> IsLetter(s[i]));
    r
  }

  /** Case folding of a capitalised knowledge-base word. */
  lemma LowerFoldsCase()
    ensures Lower("Refund") == "refund"
  {
    assert LowerChar('R') == 'r';
  }

  /** The filter applied to a lower-cased token: alphabetic and not a stopword. */
  predicate Kept(w: string, stopwords: set<string>) {
    IsAlpha(w) && w !in stopwords
  }

  /** A term of a normalised set: lower case, alphabetic, not a stopword. */
  predicate IsTerm(w: string, stopwords: set<string>) {
    IsLowercase(w) && Kept(w, stopwords)
  }

  /** `normalize`: lower-case every token, keep the alphabetic non-stopwords,
      and collect them into a set. Every element comes from some token, and
      every token that passes the filter is in the set. */
  function Normalize(tokens: seq<string>, stopwords: set<string>): (r: set<string>)
    ensures forall w :: w in r ==> IsTerm(w, stopwords)
    ensures forall w :: w in r ==> exists i :: 0 <= i < |tokens| && Lower(tokens[i]) == w
    ensures forall i :: 0 <= i < |tokens| && Kept(Lower(tokens[i]), stopwords) ==> Lower(tokens[i]) in r
  {
    set i | 0 <= i < |tokens| && Kept(Lower(tokens[i]), stopwords) :: Lower(tokens[i])
  }

  /** Normalising a concatenation is the union of normalising each part. */
  lemma NormalizeConcat(xs: seq<string>, ys: seq<string>, stopwords: set<string>)
    ensures Normalize(xs + ys, stopwords) == Normalize(xs, stopwords) + Normalize(ys, stopwords)
  {
    var l, r := Normalize(xs + ys, stopwords), Normalize(xs, stopwords) + Normalize(ys, stopwords);
    forall w | w in l ensures w in r {
      var i :| 0 <= i < |xs + ys| && Lower((xs + ys)[i]) == w;
      if i < |xs| {
        assert (xs + ys)[i] == xs[i];
      } else {
        assert (xs + ys)[i] == ys[i - |xs|];
      }
    }
    forall w | w in r ensures w in l {
      if w in Normalize(xs, stopwords) {
        var i :| 0 <= i < |xs| && Lower(xs[i]) == w;
        assert (xs + ys)[i] == xs[i];
      } else {
        var i :| 0 <= i < |ys| && Lower(ys[i]) == w;
        assert (xs + ys)[|xs| + i] == ys[i];
      }
    }
  }

  /** Token order and repetition do not matter: two token sequences with the
      same elements normalise to the same set. */
  lemma NormalizeOrderFree(xs: seq<string>, ys: seq<string>, stopwords: set<string>)
    requires forall t :: t in xs <==> t in ys
    ensures Normalize(xs, stopwords) == Normalize(ys, stopwords)
  {
    forall w | w in Normalize(xs, stopwords) ensures w in Normalize(ys, stopwords) {
      var i :| 0 <= i < |xs| && Lower(xs[i]) == w;
      assert xs[i] in ys;
      var j :| 0 <= j < |ys| && ys[j] == xs[i];
    }
    forall w | w in Normalize(ys, stopwords) ensures w in Normalize(xs, stopwords) {
      var j :| 0 <= j < |ys| && Lower(ys[j]) == w;
      assert ys[j] in xs;
      var i :| 0 <= i < |xs| && xs[i] == ys[j];
    }
  }

  /** A single token gives at most one term. */
  lemma NormalizeOneToken(t: string, stopwords: set<string>)
    ensures |Normalize([t], stopwords)| <= 1
  {
    assert Normalize([t], stopwords) <= {Lower(t)} by {
      assert [t][0] == t;
    }
    assert Normalize([t], stopwords) == {} || Normalize([t], stopwords) == {Lower(t)};
  }

  /** Duplicates collapse: there are never more terms than tokens. */
  lemma {:induction false} NormalizeSize(tokens: seq<string>, stopwords: set<string>)
    ensures |Normalize(tokens, stopwords)| <= |tokens|
  {
    if tokens != [] {
      var init, last := tokens[..|tokens| - 1], tokens[|tokens| - 1];
      assert tokens == init + [last];
      NormalizeConcat(init, [last], stopwords);
      NormalizeSize(init, stopwords);
      NormalizeOneToken(last, stopwords);
      var x, y := Normalize(init, stopwords), Normalize([last], stopwords);
      assert |x + y| <= |x| + |y| by {
        assert |x + y| + |x * y| == |x| + |y|;
      }
    }
  }

  /** A single token that passes the filter normalises to itself. */
  lemma NormalizeSingleton(w: string, stopwords: set<string>)
    requires IsLowercase(w) && Kept(w, stopwords)
    ensures Normalize([w], stopwords) == {w}
  {
    assert [w][0] == w;
  }
}
