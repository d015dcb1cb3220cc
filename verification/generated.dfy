/** Text that comes back from the generative-text service, and the filter the
    Love Jar and the Q&A screen apply to it before showing it. The service
    itself is outside the model: its reply is an input string. */
module Generated {
  import opened Text

  /** The phrase the filters look for, written in lower case. */
  const Unavailable: string := "n\U{00E3}o foi poss\U{00ED}vel"

  /** `text && !text.includes("não foi possível")`: a reply is used when it
      is non-empty and does not contain the phrase, compared case-sensitively.
      An `undefined` reply is falsy like the empty string. */
  predicate Usable(text: string) {
    text != "" && !Contains(text, Unavailable)
  }

  // The services' fallback replies. Long literals are written as short
  // concatenated pieces so that the verifier can inspect them piece by piece.

  /** What the in-browser service returns for a question when the call fails. */
  const QuestionFallback: string :=
    "N\U{00E3}" + "o foi poss\U{00ED}vel gerar " + "uma pergunta. Verifique sua " + "chave de API e tente novamente."

  /** What the proxy-backed service returns for a date idea on failure. */
  const ProxyIdeaFallback: string := "Desculpe, " + Unavailable + " gerar uma ideia agora."

  /** A text whose first character differs from the pattern's and which has
      the pattern's second character only at index 1 cannot contain it. */
  lemma NotContainedWhenSecondCharOnlyAtOne(head: string, tail: string, pat: string)
    requires |pat| >= 2 && |head| == 2 && head[0] != pat[0] && pat[1] !in tail
    ensures !Contains(head + tail, pat)
  {
    var s := head + tail;
    forall i | 0 <= i && i + |pat| <= |s| ensures !OccursAt(s, pat, i) {
      assert s[i..i + |pat|][1] == s[i + 1];
      if i > 0 { assert s[i + 1] == tail[i - 1]; }
    }
  }

  /** A text that embeds the phrase contains it. */
  lemma ContainedWhenEmbedded(before: string, after: string)
    ensures Contains(before + Unavailable + after, Unavailable)
  {
    var s := before + Unavailable + after;
    assert s[|before|..|before| + |Unavailable|] == Unavailable;
    assert OccursAt(s, Unavailable, |before|);
  }

  /** The filter is case-sensitive, so the in-browser service's question
      fallback, which starts with a capital "N", passes it. */
  lemma QuestionFallbackPassesFilter()
    ensures Usable(QuestionFallback)
  {
    NotContainedWhenSecondCharOnlyAtOne(
      "N\U{00E3}",
      "o foi poss\U{00ED}vel gerar " + "uma pergunta. Verifique sua " + "chave de API e tente novamente.",
      Unavailable);
  }

  /** The proxy-backed fallbacks embed the lower-case phrase and are rejected. */
  lemma ProxyFallbacksAreFiltered()
    ensures !Usable(ProxyIdeaFallback)
  {
    ContainedWhenEmbedded("Desculpe, ", " gerar uma ideia agora.");
  }
}
