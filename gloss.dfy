/** The word-by-word gloss: every token of a sentence, stripped of surrounding
    punctuation, translated on its own and reported as one
    `"<word> : <translation>"` line. */
module Gloss {
  import opened PyText

  /** What one call to the translation service gives back. */
  datatype Outcome = Ok(text: string) | Err(message: string)

  /** The translation service, `(text, source code, target code)`. */
  type Translator = (string, string, string) -> Outcome

  /** The word tokenizer: a text to its tokens, in order. */
  type Tokenizer = string -> seq<string>

  /** Stands in a gloss line for a translation that failed. */
  const ErrorMarker: string := "[Translation error]"

  /** `token.strip(string.punctuation)`. */
  function CleanWord(token: string): (word: string)
  {
    Strip(token, Punctuation)
  }

  /** The tokens that are not all punctuation, cleaned, in token order. */
  function CleanWords(tokens: seq<string>): (words: seq<string>)
  {
    if |tokens| == 0 then []
    else
      var word := CleanWord(tokens[|tokens| - 1]);
      CleanWords(tokens[..|tokens| - 1]) + (if word == [] then [] else [word])
  }

  /** The positions of those tokens. */
  function KeptIndices(tokens: seq<string>): (kept: seq<nat>)
  {
    if |tokens| == 0 then []
    else
      var last := |tokens| - 1;
      KeptIndices(tokens[..last]) + (if CleanWord(tokens[last]) == [] then [] else [last])
  }

  /** The text a gloss line shows for the outcome of one translation. */
  function Rendered(result: Outcome): (shown: string)
  {
    match result
    case Ok(translated) => translated
    case Err(_) => ErrorMarker
  }

  /** One line of the gloss. */
  function GlossLine(word: string, result: Outcome): (line: string)
  {
    word + " : " + Rendered(result)
  }

  /** The gloss lines: one per clean word, that word translated on its own. */
  function GlossLines(tokens: seq<string>, src: string, target: string, translate: Translator): (lines: seq<string>)
  {
    var words := CleanWords(tokens);
    seq(|words|, k requires 0 <= k < |words| => GlossLine(words[k], translate(words[k], src, target)))
  }

  /** Appending a token appends the line of its clean word, if it has one. */
  lemma GlossLinesSnoc(tokens: seq<string>, token: string, src: string, target: string, translate: Translator)
    ensures GlossLines(tokens + [token], src, target, translate) ==
      GlossLines(tokens, src, target, translate) +
      (if CleanWord(token) == [] then []
       else [GlossLine(CleanWord(token), translate(CleanWord(token), src, target))])
  {
    CleanWordsSnoc(tokens, token);
  }

  /** The gloss as one string. */
  function Explanation(tokens: seq<string>, src: string, target: string, translate: Translator): (explanation: string)
  {
    JoinLines(GlossLines(tokens, src, target, translate))
  }

  /** `explain_words_word_by_word`: tokenizes `text`, skips the tokens that
      strip to nothing, asks the translator for each remaining word (a failure
      becomes the error marker on that word's line) and joins the lines with
      newlines. `requests` lists the words sent to the translator, in the
      order they were sent. */
  method ExplainWordsWordByWord(text: string, src: string, target: string,
                                tokenize: Tokenizer, translate: Translator)
    returns (explanation: string, requests: seq<string>)
    ensures requests == CleanWords(tokenize(text))
    ensures explanation == Explanation(tokenize(text), src, target, translate)
  {
    var words := tokenize(text);
    var explanationLines: seq<string> := [];
    requests := [];
    for i := 0 to |words|
      invariant requests == CleanWords(words[..i])
      invariant explanationLines == GlossLines(words[..i], src, target, translate)
    {
      assert words[..i + 1] == words[..i] + [words[i]];
      CleanWordsSnoc(words[..i], words[i]);
      GlossLinesSnoc(words[..i], words[i], src, target, translate);
      var wordClean := Strip(words[i], Punctuation);
      if wordClean == [] {
        continue;
      }
      requests := requests + [wordClean];
      var translatedWord;
      match translate(wordClean, src, target) {
        case Ok(translated) => translatedWord := translated;
        case Err(_) => translatedWord := ErrorMarker;
      }
      explanationLines := explanationLines + [wordClean + " : " + translatedWord];
    }
    assert words[..|words|] == words;
    explanation := JoinLines(explanationLines);
  }

  /** Appending a token appends its clean word, if it has one. */
  lemma CleanWordsSnoc(tokens: seq<string>, token: string)
    ensures CleanWords(tokens + [token]) ==
      CleanWords(tokens) + (if CleanWord(token) == [] then [] else [CleanWord(token)])
    ensures KeptIndices(tokens + [token]) ==
      KeptIndices(tokens) + (if CleanWord(token) == [] then [] else [|tokens|])
  {
    assert (tokens + [token])[..|tokens|] == tokens;
  }

  /** The clean words come from the tokens that do not strip to nothing,
      exactly those, one each, in the order of the tokens. */
  lemma {:induction false} CleanWordsAligned(tokens: seq<string>)
    ensures |KeptIndices(tokens)| == |CleanWords(tokens)|
    ensures forall k :: 0 <= k < |KeptIndices(tokens)| ==>
      KeptIndices(tokens)[k] < |tokens| &&
      CleanWords(tokens)[k] == CleanWord(tokens[KeptIndices(tokens)[k]])
    ensures forall k1, k2 :: 0 <= k1 < k2 < |KeptIndices(tokens)| ==>
      KeptIndices(tokens)[k1] < KeptIndices(tokens)[k2]
    ensures forall j :: 0 <= j < |tokens| ==>
      (j in KeptIndices(tokens) <==> CleanWord(tokens[j]) != [])
  {
    if |tokens| > 0 {
      var last := |tokens| - 1;
      var front, token := tokens[..last], tokens[last];
      assert tokens == front + [token];
      CleanWordsAligned(front);
      CleanWordsSnoc(front, token);
      var kept, words := KeptIndices(tokens), CleanWords(tokens);
      var kept0, words0 := KeptIndices(front), CleanWords(front);
      assert |kept| == |words|;
      forall k | 0 <= k < |kept|
        ensures kept[k] < |tokens| && words[k] == CleanWord(tokens[kept[k]])
      {
        if k < |kept0| {
          assert kept[k] == kept0[k] && words[k] == words0[k];
          assert front[kept0[k]] == tokens[kept0[k]];
        }
      }
      forall k1, k2 | 0 <= k1 < k2 < |kept|
        ensures kept[k1] < kept[k2]
      {
        assert kept[k1] == kept0[k1];
        if k2 == |kept0| {
          assert kept0[k1] < |front|;
        }
      }
      forall j | 0 <= j < |tokens|
        ensures j in kept <==> CleanWord(tokens[j]) != []
      {
        if j < last {
          assert front[j] == tokens[j];
          assert last !in kept0 by {
            forall k | 0 <= k < |kept0| ensures kept0[k] != last { }
          }
          assert j in kept <==> j in kept0;
        } else {
          assert last !in kept0 by {
            forall k | 0 <= k < |kept0| ensures kept0[k] != last { }
          }
        }
      }
    }
  }

  /** Every clean word is non-empty, neither starts nor ends with
      punctuation, and is left unchanged by stripping it again. */
  lemma CleanWordsAreClean(tokens: seq<string>)
    ensures forall k :: 0 <= k < |CleanWords(tokens)| ==>
      var word := CleanWords(tokens)[k];
      word != [] && word[0] !in Punctuation && word[|word| - 1] !in Punctuation &&
      CleanWord(word) == word
  {
    CleanWordsAligned(tokens);
    var words, kept := CleanWords(tokens), KeptIndices(tokens);
    forall k | 0 <= k < |words|
      ensures words[k] != [] && words[k][0] !in Punctuation && words[k][|words[k]| - 1] !in Punctuation
      ensures CleanWord(words[k]) == words[k]
    {
      assert kept[k] in kept;
      StripIdempotent(tokens[kept[k]], Punctuation);
      StripSpec(tokens[kept[k]], Punctuation);
    }
  }

  /** Gloss line `k` belongs to the `k`-th kept token: it shows that token
      stripped, then `" : "`, then what the translator made of the stripped
      word (the error marker when it failed). */
  lemma GlossLinesAligned(tokens: seq<string>, src: string, target: string, translate: Translator)
    ensures |GlossLines(tokens, src, target, translate)| == |KeptIndices(tokens)|
    ensures forall k :: 0 <= k < |KeptIndices(tokens)| ==>
      KeptIndices(tokens)[k] < |tokens| &&
      var word := CleanWord(tokens[KeptIndices(tokens)[k]]);
      GlossLines(tokens, src, target, translate)[k] ==
        word + " : " + (match translate(word, src, target)
                        case Ok(translated) => translated
                        case Err(_) => "[Translation error]")
  {
    CleanWordsAligned(tokens);
  }

  /** A failure is isolated to its own word: two translators that agree on
      every word but one give the same number of lines, and the same line for
      every other word. */
  lemma FailureIsolation(tokens: seq<string>, src: string, target: string,
                         translate: Translator, other: Translator, word: string)
    requires forall w :: w != word ==> other(w, src, target) == translate(w, src, target)
    ensures |GlossLines(tokens, src, target, other)| == |GlossLines(tokens, src, target, translate)|
    ensures forall k :: 0 <= k < |CleanWords(tokens)| && CleanWords(tokens)[k] != word ==>
      GlossLines(tokens, src, target, other)[k] == GlossLines(tokens, src, target, translate)[k]
  {
    var words := CleanWords(tokens);
    var lines, otherLines := GlossLines(tokens, src, target, translate), GlossLines(tokens, src, target, other);
    forall k | 0 <= k < |words| && words[k] != word
      ensures otherLines[k] == lines[k]
    {
      assert other(words[k], src, target) == translate(words[k], src, target);
    }
  }

  /** Where the translator fails on a word, that word's line carries the
      error marker in place of a translation. */
  lemma FailureMarked(tokens: seq<string>, src: string, target: string, translate: Translator, k: nat)
    requires k < |CleanWords(tokens)|
    requires translate(CleanWords(tokens)[k], src, target).Err?
    ensures GlossLines(tokens, src, target, translate)[k] == CleanWords(tokens)[k] + " : " + "[Translation error]"
  {
  }

  /** The explanation is empty exactly when no token survives stripping,
      whatever the translations hold: every gloss line carries at least the
      `" : "` separator. */
  lemma ExplanationEmpty(tokens: seq<string>, src: string, target: string, translate: Translator)
    ensures Explanation(tokens, src, target, translate) == "" <==> CleanWords(tokens) == []
  {
    var words, lines := CleanWords(tokens), GlossLines(tokens, src, target, translate);
    if lines != [] {
      assert lines[0] == words[0] + " : " + Rendered(translate(words[0], src, target));
      assert |lines[0]| >= 3;
    }
  }

  /** The explanation splits back into its gloss lines, one per clean word,
      when there is at least one and no word or translation holds a newline:
      the lines are joined with no newline after the last one. */
  lemma ExplanationLines(tokens: seq<string>, src: string, target: string, translate: Translator)
    requires forall k :: 0 <= k < |CleanWords(tokens)| ==>
      '\n' !in CleanWords(tokens)[k] &&
      '\n' !in Rendered(translate(CleanWords(tokens)[k], src, target))
    ensures CleanWords(tokens) != [] ==>
      SplitLines(Explanation(tokens, src, target, translate)) == GlossLines(tokens, src, target, translate)
  {
    var lines := GlossLines(tokens, src, target, translate);
    if lines != [] {
      SplitJoin(lines);
    }
  }

  /** The identity translator. */
  function Identity(text: string, src: string, target: string): (result: Outcome)
  {
    Ok(text)
  }

  /** The two word tokens of `Hello , world !` strip to themselves. */
  lemma HelloWorldKept()
    ensures CleanWord("Hello") == "Hello" && CleanWord("world") == "world"
  {
    WordUnchanged("Hello");
    WordUnchanged("world");
  }

  /** A token whose first and last characters are not punctuation strips
      to itself. */
  lemma WordUnchanged(token: string)
    requires |token| > 0 && token[0] !in Punctuation && token[|token| - 1] !in Punctuation
    ensures CleanWord(token) == token
  {
    assert token[..0] == [] && token[|token|..] == [];
    StripUnique(token, Punctuation, 0, |token|);
    assert token[0..|token|] == token;
  }

  /** The two punctuation tokens of `Hello , world !` strip to nothing. */
  lemma HelloWorldDropped()
    ensures CleanWord(",") == "" && CleanWord("!") == ""
  {
    StripUnique(",", Punctuation, 1, 1);
    StripUnique("!", Punctuation, 1, 1);
  }

  /** The clean words of `Hello , world !` are `Hello` and `world`. */
  lemma HelloWorldWords()
    ensures CleanWords(["Hello", ",", "world", "!"]) == ["Hello", "world"]
  {
    HelloWorldKept();
    HelloWorldDropped();
    WordPunctWordPunct("Hello", ",", "world", "!");
  }

  /** Four tokens, a word and a punctuation mark twice over, leave the two
      words. */
  lemma WordPunctWordPunct(a: string, b: string, c: string, d: string)
    requires CleanWord(a) == a != [] && CleanWord(b) == []
    requires CleanWord(c) == c != [] && CleanWord(d) == []
    ensures CleanWords([a, b, c, d]) == [a, c]
  {
    var t1 := [a];
    var t2 := t1 + [b];
    var t3 := t2 + [c];
    assert [] + [a] == t1;
    assert t3 + [d] == [a, b, c, d];
    CleanWordsSnoc([], a);
    CleanWordsSnoc(t1, b);
    CleanWordsSnoc(t2, c);
    CleanWordsSnoc(t3, d);
  }

  /** `Hello , world !` with the identity translator glosses as two lines. */
  lemma HelloWorld()
    ensures Explanation(["Hello", ",", "world", "!"], "en", "en", Identity) ==
      "Hello : Hello\nworld : world"
  {
    HelloWorldWords();
    HelloWorldLines(["Hello", ",", "world", "!"]);
  }

  /** Any tokens whose clean words are `Hello` and `world` gloss as two
      lines under the identity translator. */
  lemma HelloWorldLines(tokens: seq<string>)
    requires CleanWords(tokens) == ["Hello", "world"]
    ensures Explanation(tokens, "en", "en", Identity) == "Hello : Hello\nworld : world"
  {
    var lines := GlossLines(tokens, "en", "en", Identity);
    assert |lines| == 2;
    assert lines[0] == "Hello" + " : " + "Hello";
    assert lines[1] == "world" + " : " + "world";
    assert JoinLines(lines) == lines[0] + "\n" + lines[1];
    assert lines[0] + "\n" + lines[1] == "Hello : Hello\nworld : world";
  }
}
