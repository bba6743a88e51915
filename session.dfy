/** The "Translate & Explain" action: checks the input, resolves the two
    languages, translates the whole sentence and, only if that worked,
    builds the word-by-word gloss. */
module Session {
  import opened PyText
  import opened Languages
  import opened Gloss

  /** What the user is shown once the action ends. */
  datatype Shown =
    | InputRequired                         // the "Please enter a sentence." warning
    | UnknownLanguage(name: string)         // the table has no entry for this display name
    | TranslationError(message: string)     // the error dialog, with the service's message
    | Displayed(translated: string, explanation: string)

  /** The outcome, with every text sent to the translator, in order. */
  datatype Response = Response(shown: Shown, requests: seq<string>)

  /** `translate_full_sentence`: one call to the translation service. */
  function TranslateFullSentence(text: string, src: string, target: string, translate: Translator): (result: Outcome)
  {
    translate(text, src, target)
  }

  /** `translate_and_explain`, with the input box's content, the two picked
      display names, the tokenizer and the translator as parameters.
      Blank input is refused before any lookup or call; a failed sentence
      translation is reported and no word is sent; otherwise the sentence
      goes first and then each clean word of its tokens. */
  method TranslateAndExplain(input: string, srcName: string, targetName: string,
                             tokenize: Tokenizer, translate: Translator)
    returns (r: Response)
    ensures Strip(input, Whitespace) == [] ==> r == Response(InputRequired, [])
    ensures Strip(input, Whitespace) != [] && LookupCode(srcName).None? ==>
      r == Response(UnknownLanguage(srcName), [])
    ensures Strip(input, Whitespace) != [] && LookupCode(srcName).Some? && LookupCode(targetName).None? ==>
      r == Response(UnknownLanguage(targetName), [])
    ensures var text := Strip(input, Whitespace);
      text != [] && LookupCode(srcName).Some? && LookupCode(targetName).Some? ==>
      var src, target := LookupCode(srcName).value, LookupCode(targetName).value;
      match translate(text, src, target)
      case Err(message) =>
        r == Response(TranslationError(message), [text])
      case Ok(translated) =>
        r == Response(Displayed(translated, Explanation(tokenize(text), src, target, translate)),
                      [text] + CleanWords(tokenize(text)))
  {
    var text := Strip(input, Whitespace);
    if text == [] {
      return Response(InputRequired, []);
    }
    var srcCode := LookupCode(srcName);
    if srcCode.None? {
      return Response(UnknownLanguage(srcName), []);
    }
    var targetCode := LookupCode(targetName);
    if targetCode.None? {
      return Response(UnknownLanguage(targetName), []);
    }
    var src, target := srcCode.value, targetCode.value;
    match TranslateFullSentence(text, src, target, translate) {
      case Err(message) =>
        r := Response(TranslationError(message), [text]);
      case Ok(translated) =>
        var explanation, words := ExplainWordsWordByWord(text, src, target, tokenize, translate);
        r := Response(Displayed(translated, explanation), [text] + words);
    }
  }
}
