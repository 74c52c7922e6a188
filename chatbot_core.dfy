/** The chatbot's reply function (`get_response` in chatbot_core.py) together
    with its fixed data: the FAQ knowledge base, normalised once, the
    prompt for empty input and the fallback message. */
module ChatbotCore {
  import opened Normalizer
  import opened Matcher

  /** The similarity a knowledge-base entry must reach to be answered: 0.3. */
  const Threshold: real := 0.3

  /** The reply to an empty or blank message. */
  const PromptMessage: string := "\U{26A0}\U{FE0F} Please type a message."

  /** The reply when no entry matches well enough. */
  const FallbackMessage: string :=
    "I couldn\U{2019}t understand that. Please choose one of the options below:\n\n\U{27A1}\U{FE0F} Support hours\n\U{27A1}\U{FE0F} Reset password\n\U{27A1}\U{FE0F} Contact support\n\U{27A1}\U{FE0F} Refund policy\n\U{27A1}\U{FE0F} Update profile\n\U{27A1}\U{FE0F} Orders"

  /** The raw knowledge base: (question, answer) pairs, in order. */
  const FaqKb: seq<(string, string)> := [
    ("hello", "Hello! How can I help you today?"),
    ("hi", "Hello! How can I help you today?"),
    ("hey", "Hello! How can I help you today?"),
    ("support hours", "Our support team is available 24/7 to assist you."),
    ("reset password", "To reset your password, go to Settings > Security > Reset Password with you Credentials."),
    ("contact support", "You can contact support at support@example.com or contact +91 xxxxx xxxxx for your querry."),
    ("Refund policy", "Our refund policy allows refunds within 30 days of purchase *My Orders > Help > raise a Refund querry or Contact Support."),
    ("Return policy", "Our return policy allows return within 07 days of purchase *My Orders > Help > raise a Return querry or Contact Support."),
    ("update profile", "To update your profile, go to Settings > Profile and make changes."),
    ("orders", "You can view your orders in the 'My Orders' section of your account."),
    ("goodbye", "Goodbye! Have a great day."),
    ("bye", "Goodbye! Have a great day.")
  ]

  /** Every canned answer is a non-empty string, shorter than the fallback and
      so distinct from it: a matched answer is always returned as it is. */
  lemma FaqAnswersDistinct()
    ensures forall i :: 0 <= i < |FaqKb| ==> FaqKb[i].1 != "" && FaqKb[i].1 != FallbackMessage
  {
    assert |FallbackMessage| == 167;
    forall i | 0 <= i < |FaqKb| ensures FaqKb[i].1 != "" && FaqKb[i].1 != FallbackMessage {
      assert i == 0 || i == 1 || i == 2 || i == 3 || i == 4 || i == 5 || i == 6 || i == 7 || i == 8 || i == 9 || i == 10 || i == 11;
      assert 0 < |FaqKb[i].1| < 167;
    }
  }

  /** The knowledge base the matcher scans: each question normalised once,
      paired with its answer, in the original order. */
  function Kb(tokenize: string -> seq<string>, stopwords: set<string>): (kb: seq<Entry>)
    ensures |kb| == |FaqKb|
    ensures forall i :: 0 <= i < |kb| ==> kb[i].answer == FaqKb[i].1
    ensures forall i, w :: 0 <= i < |kb| && w in kb[i].question ==> IsTerm(w, stopwords)
  {
    seq(|FaqKb|, i requires 0 <= i < |FaqKb| => Entry(Normalize(tokenize(FaqKb[i].0), stopwords), FaqKb[i].1))
  }

  /** Python's `str.isspace()`. */
  predicate IsSpace(c: char)
    ensures c in " \t\n\r" ==> IsSpace(c)
    ensures IsLetter(c) || '0' <= c <= '9' ==> !IsSpace(c)
  {
    || '\t' <= c <= '\r'
    || '\U{1C}' <= c <= ' '
    || c == '\U{85}' || c == '\U{A0}' || c == '\U{1680}'
    || '\U{2000}' <= c <= '\U{200A}'
    || c == '\U{2028}' || c == '\U{2029}' || c == '\U{202F}' || c == '\U{205F}' || c == '\U{3000}'
  }

  /** `not message or not message.strip()`: empty or whitespace only. */
  predicate IsBlank(message: string)
    ensures message == "" ==> IsBlank(message)
    ensures (exists i :: 0 <= i < |message| && IsLetter(message[i])) ==> !IsBlank(message)
  {
    forall i :: 0 <= i < |message| ==> IsSpace(message[i])
  }

  /** `get_response`: the prompt for a blank message, otherwise the matched
      answer at the 0.3 threshold, or the fallback message when there is none
      (an empty answer counts as none). Blank input never reaches the matcher,
      so its reply does not depend on the tokeniser or the stopwords; any
      other reply is the fallback or one of the knowledge base's answers. */
  function GetResponse(message: string, tokenize: string -> seq<string>, stopwords: set<string>): (r: string)
    ensures IsBlank(message) ==> r == PromptMessage
    ensures !IsBlank(message) ==> r == FallbackMessage || exists i :: 0 <= i < |FaqKb| && r == FaqKb[i].1
  {
    if IsBlank(message) then PromptMessage
    else
      var kb := Kb(tokenize, stopwords);
      var answer := Match(Normalize(tokenize(message), stopwords), kb, Threshold);
      if answer.Some? && answer.value != "" then
        MatchIsFirstBest(Normalize(tokenize(message), stopwords), kb, Threshold, answer.value);
        answer.value
      else FallbackMessage
  }

  /** A non-blank message gets the fallback exactly when the matcher finds
      nothing. */
  lemma FallbackIffNoMatch(message: string, tokenize: string -> seq<string>, stopwords: set<string>)
    requires !IsBlank(message)
    ensures GetResponse(message, tokenize, stopwords) == FallbackMessage
        <==> Match(Normalize(tokenize(message), stopwords), Kb(tokenize, stopwords), Threshold) == None
  {
    FaqAnswersDistinct();
  }

  /** A non-blank message with a match is answered with the matched answer. */
  lemma MatchedAnswerReturned(message: string, tokenize: string -> seq<string>, stopwords: set<string>)
    requires !IsBlank(message)
    ensures var m := Match(Normalize(tokenize(message), stopwords), Kb(tokenize, stopwords), Threshold);
            m.Some? ==> GetResponse(message, tokenize, stopwords) == m.value
  {
    FaqAnswersDistinct();
  }

  /** Any reply to a non-blank message other than the fallback is the answer
      of the first best-scoring entry, whose score reaches the threshold. */
  lemma GetResponseIsBestAnswer(message: string, tokenize: string -> seq<string>, stopwords: set<string>)
    requires !IsBlank(message)
    ensures var query, kb := Normalize(tokenize(message), stopwords), Kb(tokenize, stopwords);
            GetResponse(message, tokenize, stopwords) != FallbackMessage ==>
              exists i :: IsFirstBest(query, kb, i) && kb[i].answer == GetResponse(message, tokenize, stopwords)
                          && Score(query, kb[i]) >= Threshold
  {
    var query, kb := Normalize(tokenize(message), stopwords), Kb(tokenize, stopwords);
    FallbackIffNoMatch(message, tokenize, stopwords);
    MatchedAnswerReturned(message, tokenize, stopwords);
    var answer := Match(query, kb, Threshold);
    if answer.Some? {
      MatchIsFirstBest(query, kb, Threshold, answer.value);
    }
  }

  /** The first entry of the knowledge base is the greeting "hello": a
      one-word greeting that the tokeniser keeps as it is, and that is not a
      stopword, is exactly that entry's question. */
  lemma GreetingEntry(tokenize: string -> seq<string>, stopwords: set<string>)
    requires tokenize("hello") == ["hello"]
    requires "hello" !in stopwords
    ensures Kb(tokenize, stopwords)[0].question == Normalize(tokenize("hello"), stopwords) == {"hello"}
    ensures Kb(tokenize, stopwords)[0].answer == "Hello! How can I help you today?"
  {
    assert IsAlpha("hello") && Lower("hello") == "hello";
    NormalizeSingleton("hello", stopwords);
    assert FaqKb[0] == ("hello", "Hello! How can I help you today?");
  }

  /** "hello", tokenised as itself and not a stopword, gets the greeting. */
  lemma HelloIsGreeted(tokenize: string -> seq<string>, stopwords: set<string>)
    requires tokenize("hello") == ["hello"]
    requires "hello" !in stopwords
    ensures GetResponse("hello", tokenize, stopwords) == "Hello! How can I help you today?"
  {
    GreetingEntry(tokenize, stopwords);
    FirstEntryExactMatch(Normalize(tokenize("hello"), stopwords), Kb(tokenize, stopwords), Threshold);
    assert !IsSpace("hello"[0]);
    MatchedAnswerReturned("hello", tokenize, stopwords);
  }
}
