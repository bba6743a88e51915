/** The "Save to File" action: lays out the three sections and picks the
    output format from the chosen file name. */
module Export {
  import opened PyText

  /** The first section: the original text under its heading. */
  function OriginalSection(srcName: string, original: string): (section: string)
  {
    "Original (" + srcName + "): " + original + "\n"
  }

  /** The second section: the translation under its heading. */
  function TranslatedSection(targetName: string, translated: string): (section: string)
  {
    "Translated (" + targetName + "): " + translated + "\n"
  }

  /** The third section: the gloss under its heading. */
  function ExplanationSection(targetName: string, explanation: string): (section: string)
  {
    "Word-by-word Explanation (to " + targetName + "):\n" + explanation
  }

  /** The saved text: the three sections, in order. The three text
      arguments are the contents of the three text boxes. */
  function Content(srcName: string, original: string, targetName: string,
                   translated: string, explanation: string): (content: string)
  {
    OriginalSection(srcName, original) + TranslatedSection(targetName, translated) +
    ExplanationSection(targetName, explanation)
  }

  /** What the action writes. */
  datatype Written =
    | NothingWritten
    | TextFile(path: string, text: string)
    | PdfFile(path: string, cells: seq<string>)   // one cell per line, in order

  /** `save_output`, with the chosen path as a parameter (empty when the
      dialog is cancelled). A `.txt` path gets the content as text, a `.pdf`
      path gets one cell per line of the content, which the cells give back
      in full when joined; any other path gets nothing. */
  function SaveOutput(srcName: string, original: string, targetName: string,
                      translated: string, explanation: string, path: string): (w: Written)
    ensures w.TextFile? <==> EndsWith(path, ".txt")
    ensures w.PdfFile? <==> EndsWith(path, ".pdf")
    ensures w.NothingWritten? <==> !EndsWith(path, ".txt") && !EndsWith(path, ".pdf")
    ensures w.TextFile? ==>
      w.path == path && w.text == Content(srcName, original, targetName, translated, explanation)
    ensures w.PdfFile? ==>
      w.path == path &&
      JoinLines(w.cells) == Content(srcName, original, targetName, translated, explanation) &&
      forall k :: 0 <= k < |w.cells| ==> '\n' !in w.cells[k]
  {
    var content := Content(srcName, original, targetName, translated, explanation);
    if path == [] then
      NothingWritten
    else if EndsWith(path, ".txt") then
      TextFile(path, content)
    else if EndsWith(path, ".pdf") then
      JoinSplit(content);
      PdfFile(path, SplitLines(content))
    else
      NothingWritten
  }

  /** A line without a newline, a newline, and the rest: the line is the
      first piece. */
  lemma SplitLineThen(line: string, rest: string)
    requires '\n' !in line
    ensures SplitLines(line + "\n" + rest) == [line] + SplitLines(rest)
  {
    SplitSingle(line);
    SplitAtNewline(line, rest);
  }

  /** A section whose text box ends in a newline splits into its one line
      and a blank one, followed by what comes after it. */
  lemma {:induction false} SplitSection(line: string, rest: string)
    requires '\n' !in line
    ensures SplitLines(line + "\n" + "\n" + rest) == [line, ""] + SplitLines(rest)
  {
    assert line + "\n" + "\n" + rest == line + "\n" + ("" + "\n" + rest);
    SplitLineThen(line, "" + "\n" + rest);
    SplitLineThen("", rest);
    assert "" + "\n" + rest == "\n" + rest;
  }

  /** Two sections of one line each, then a heading line and the rest. */
  lemma SplitSections(first: string, third: string, fifth: string, tail: string)
    requires '\n' !in first && '\n' !in third && '\n' !in fifth
    ensures SplitLines(first + "\n" + "\n" + (third + "\n" + "\n" + (fifth + "\n" + tail))) ==
      [first, "", third, "", fifth] + SplitLines(tail)
  {
    SplitSection(first, third + "\n" + "\n" + (fifth + "\n" + tail));
    SplitSection(third, fifth + "\n" + tail);
    SplitLineThen(fifth, tail);
  }

  /** None of the three heading lines holds a newline when the names and
      the two boxes do not. */
  lemma HeadingLines(srcName: string, original: string, targetName: string, translated: string)
    requires '\n' !in srcName && '\n' !in targetName
    requires '\n' !in original && '\n' !in translated
    ensures '\n' !in "Original (" + srcName + "): " + original
    ensures '\n' !in "Translated (" + targetName + "): " + translated
    ensures '\n' !in "Word-by-word Explanation (to " + targetName + "):"
  {
  }

  /** The content, when each text box ends in a newline, regrouped as five
      lines and the gloss. */
  lemma ContentRegrouped(srcName: string, original: string, targetName: string,
                         translated: string, explanation: string)
    ensures Content(srcName, original + "\n", targetName, translated + "\n", explanation + "\n") ==
      ("Original (" + srcName + "): " + original) + "\n" + "\n" +
      (("Translated (" + targetName + "): " + translated) + "\n" + "\n" +
       ("Word-by-word Explanation (to " + targetName + "):" + "\n" + (explanation + "\n" + "")))
  {
    var first := "Original (" + srcName + "): " + original;
    var third := "Translated (" + targetName + "): " + translated;
    var fifth := "Word-by-word Explanation (to " + targetName + "):";
    assert OriginalSection(srcName, original + "\n") == first + "\n" + "\n";
    assert TranslatedSection(targetName, translated + "\n") == third + "\n" + "\n";
    assert ExplanationSection(targetName, explanation + "\n") == fifth + "\n" + (explanation + "\n" + "");
  }

  /** The PDF lines, when each text box ends in a newline (as a Tk text box
      does) and the names and the first two boxes hold one line each: the
      original, a blank, the translation, a blank, the gloss heading, the
      gloss lines, and a final blank. */
  lemma PdfLayout(srcName: string, original: string, targetName: string,
                  translated: string, explanation: string)
    requires '\n' !in srcName && '\n' !in targetName
    requires '\n' !in original && '\n' !in translated
    ensures SplitLines(Content(srcName, original + "\n", targetName, translated + "\n", explanation + "\n")) ==
      ["Original (" + srcName + "): " + original, "",
       "Translated (" + targetName + "): " + translated, "",
       "Word-by-word Explanation (to " + targetName + "):"] +
      SplitLines(explanation) + [""]
  {
    ContentRegrouped(srcName, original, targetName, translated, explanation);
    HeadingLines(srcName, original, targetName, translated);
    SplitSections("Original (" + srcName + "): " + original,
                  "Translated (" + targetName + "): " + translated,
                  "Word-by-word Explanation (to " + targetName + "):",
                  explanation + "\n" + "");
    SplitAtNewline(explanation, "");
    SplitSingle("");
  }
}
