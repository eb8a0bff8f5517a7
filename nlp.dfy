/** Query understanding: the keyword classifier that routes a tokenized
    query to search, recommendation or a general answer, and the token
    filter that ends English preprocessing. Tokenizers and normalizers are
    library calls outside this model; their output is the input here. */
module Nlp {

  /** Search keywords per language table. */
  const SearchKeywords: map<string, seq<string>> := map[
    // "labho" (find), "khoj" (search), "sabad" (shabad)
    "pa" := ["\U{0A32}\U{0A71}\U{0A2D}\U{0A4B}", "\U{0A16}\U{0A4B}\U{0A1C}", "\U{0A38}\U{0A2C}\U{0A26}"],
    "en" := ["find", "search", "shabad"]]

  /** Recommend keywords per language table. */
  const RecommendKeywords: map<string, seq<string>> := map[
    // "sifaras" (recommend), "hor" (more)
    "pa" := ["\U{0A38}\U{0A3F}\U{0A2B}\U{0A3E}\U{0A30}\U{0A38}", "\U{0A39}\U{0A4B}\U{0A30}"],
    "en" := ["recommend", "similar"]]

  /** The keyword table used for `language`: Punjabi for "pa", English for
      every other value. */
  function TableFor(language: string): (key: string)
    ensures key in SearchKeywords && key in RecommendKeywords
    ensures key == "pa" <==> language == "pa"
  {
    if language == "pa" then "pa" else "en"
  }

  /** Python's `any(t in keywords for t in tokens)`. */
  function AnyKeyword(tokens: seq<string>, keywords: seq<string>): (b: bool)
    ensures b <==> exists i :: 0 <= i < |tokens| && tokens[i] in keywords
  {
    if tokens == [] then false
    else if tokens[0] in keywords then true
    else
      assert forall i :: 1 <= i < |tokens| ==> tokens[i] == tokens[1..][i - 1];
      AnyKeyword(tokens[1..], keywords)
  }

  /** The intent of a tokenized query: "search" if any token is a search
      keyword of the language's table, else "recommend" if any is a
      recommend keyword, else "general". */
  function DetectIntent(tokens: seq<string>, language: string): (intent: string)
    ensures intent == "search" || intent == "recommend" || intent == "general"
    ensures intent == "search" <==>
      exists i :: 0 <= i < |tokens| && tokens[i] in SearchKeywords[TableFor(language)]
    ensures intent == "recommend" <==>
      && (forall i :: 0 <= i < |tokens| ==> tokens[i] !in SearchKeywords[TableFor(language)])
      && (exists i :: 0 <= i < |tokens| && tokens[i] in RecommendKeywords[TableFor(language)])
    ensures intent == "general" <==>
      forall i :: 0 <= i < |tokens| ==>
        tokens[i] !in SearchKeywords[TableFor(language)] && tokens[i] !in RecommendKeywords[TableFor(language)]
  {
    var table := TableFor(language);
    if AnyKeyword(tokens, SearchKeywords[table]) then "search"
    else if AnyKeyword(tokens, RecommendKeywords[table]) then "recommend"
    else "general"
  }

  /** The intent depends only on which tokens occur: reordering or
      repeating tokens leaves it unchanged. */
  lemma {:induction false} IntentDependsOnlyOnTokenSet(a: seq<string>, b: seq<string>, language: string)
    requires forall t :: t in a <==> t in b
    ensures DetectIntent(a, language) == DetectIntent(b, language)
  {
    var table := TableFor(language);
    forall keywords: seq<string> ensures AnyKeyword(a, keywords) == AnyKeyword(b, keywords) {
      if AnyKeyword(a, keywords) {
        var i :| 0 <= i < |a| && a[i] in keywords;
        assert a[i] in b;
        var j :| 0 <= j < |b| && b[j] == a[i];
      }
      if AnyKeyword(b, keywords) {
        var j :| 0 <= j < |b| && b[j] in keywords;
        assert b[j] in a;
        var i :| 0 <= i < |a| && a[i] == b[j];
      }
    }
  }

  /** Every language other than "pa" is classified as English. */
  lemma OtherLanguagesUseEnglish(tokens: seq<string>, language: string)
    requires language != "pa"
    ensures DetectIntent(tokens, language) == DetectIntent(tokens, "en")
  {
  }

  /** A search keyword wins over any recommend keyword in the same query. */
  lemma SearchWins(tokens: seq<string>, language: string, i: nat, j: nat)
    requires i < |tokens| && j < |tokens|
    requires tokens[i] in SearchKeywords[TableFor(language)]
    requires tokens[j] in RecommendKeywords[TableFor(language)]
    ensures DetectIntent(tokens, language) == "search"
  {
  }

  /** In the English table, "find similar" is a search and "similar" alone
      a recommendation; a query with no keyword, or no token, is general. */
  lemma EnglishExamples()
    ensures DetectIntent(["find", "similar"], "en") == "search"
    ensures DetectIntent(["similar"], "en") == "recommend"
    ensures DetectIntent(["waheguru"], "en") == "general"
    ensures DetectIntent([], "pa") == "general"
  {
    assert ["find", "similar"][0] in SearchKeywords["en"];
    assert ["similar"][0] in RecommendKeywords["en"];
  }

  // ---------------------------------------------------------------------
  // The token filter of English preprocessing
  // ---------------------------------------------------------------------

  /** An ASCII letter or digit. */
  predicate IsAlnumChar(c: char)
  {
    ('a' <= c <= 'z') || ('A' <= c <= 'Z') || ('0' <= c <= '9')
  }

  /** Python's `str.isalnum` on the ASCII range: non-empty and made of
      letters and digits only. */
  predicate IsAlnum(t: string)
  {
    |t| > 0 && forall i :: 0 <= i < |t| ==> IsAlnumChar(t[i])
  }

  /** The tokens that are alphanumeric, in their original order. */
  function KeepAlnum(tokens: seq<string>): (kept: seq<string>)
    ensures |kept| <= |tokens|
    ensures forall k :: 0 <= k < |kept| ==> IsAlnum(kept[k])
    ensures forall t :: IsAlnum(t) ==> multiset(kept)[t] == multiset(tokens)[t]
  {
    if tokens == [] then []
    else
      var rest := KeepAlnum(tokens[1..]);
      assert multiset(tokens) == multiset{tokens[0]} + multiset(tokens[1..]) by {
        assert tokens == [tokens[0]] + tokens[1..];
      }
      if IsAlnum(tokens[0]) then [tokens[0]] + rest else rest
  }

  /** Filtering distributes over concatenation, so the kept tokens stay in
      the order of the input. */
  lemma {:induction false} KeepAlnumAppend(a: seq<string>, b: seq<string>)
    ensures KeepAlnum(a + b) == KeepAlnum(a) + KeepAlnum(b)
  {
    if a == [] {
      assert a + b == b;
    } else {
      assert (a + b)[0] == a[0];
      assert (a + b)[1..] == a[1..] + b;
      KeepAlnumAppend(a[1..], b);
    }
  }

  /** Filtering a filtered list changes nothing. */
  lemma {:induction false} KeepAlnumIdempotent(tokens: seq<string>)
    ensures KeepAlnum(KeepAlnum(tokens)) == KeepAlnum(tokens)
  {
    if tokens != [] {
      KeepAlnumIdempotent(tokens[1..]);
      var rest := KeepAlnum(tokens[1..]);
      if IsAlnum(tokens[0]) {
        assert ([tokens[0]] + rest)[1..] == rest;
      }
    }
  }
}
