/**
 * The markdown body both versions write: one fenced block per file, in file
 * order, after a header (`formatFileContent` and `generateMarkdown` in
 * src/v2-core.ts and dist/index.js, which agree).
 */
module Render {
  import opened Strings
  import opened Seqs
  import FileTypes

  /** `===  <path>` and the opening fence with the file's language. */
  function Opening(path: string, extension: string): string {
    "===  " + path + "\n" + "```" + FileTypes.LanguageOf(extension) + "\n"
  }

  /** The closing fence and the `=== EOF: <path>` line. */
  function Closing(path: string): string {
    "```\n" + "=== EOF: " + path + "\n\n"
  }

  /** `formatFileContent`: the content between the two frames, with a
      newline added only when it does not already end with one, so that the
      closing fence starts a line. */
  function FormatFileContent(path: string, extension: string, text: string): (r: string)
    ensures Opening(path, extension) <= r
    ensures EndsWith(r, Closing(path))
    ensures |r| == |Opening(path, extension)| + |text| + (if EndsWith(text, "\n") then 0 else 1) + |Closing(path)|
    ensures r[|Opening(path, extension)|..|Opening(path, extension)| + |text|] == text
    ensures r[|r| - |Closing(path)| - 1] == '\n'
  {
    var open, close := Opening(path, extension), Closing(path);
    var body := text + (if EndsWith(text, "\n") then "" else "\n");
    assert body[|body| - 1] == '\n' by {
      if EndsWith(text, "\n") {
        assert text[|text| - 1..][0] == text[|text| - 1];
      }
    }
    Framed(open, text, body, close);
    open + body + close
  }

  /** Where the parts of a framed body sit. */
  lemma Framed(open: string, text: string, body: string, close: string)
    requires text <= body && |body| > 0
    ensures var r := open + body + close;
      && open <= r
      && EndsWith(r, close)
      && |r| == |open| + |body| + |close|
      && r[|open|..|open| + |text|] == text
      && r[|r| - |close| - 1] == body[|body| - 1]
  {
    var r := open + body + close;
    assert r[|open|..|open| + |text|] == body[..|text|];
    assert r[|r| - |close|..] == close;
  }

  /** A text without a final newline renders as the same text with one. */
  lemma NewlineAdded(path: string, extension: string, text: string)
    requires !EndsWith(text, "\n")
    ensures FormatFileContent(path, extension, text) == FormatFileContent(path, extension, text + "\n")
  {
    var t := text + "\n";
    assert EndsWith(t, "\n") by {
      assert t[|t| - 1..] == "\n";
    }
  }

  /** Between texts that end in a newline, the rendering tells them apart. */
  lemma FormatInjective(path: string, extension: string, t1: string, t2: string)
    requires EndsWith(t1, "\n") && EndsWith(t2, "\n")
    requires FormatFileContent(path, extension, t1) == FormatFileContent(path, extension, t2)
    ensures t1 == t2
  {
    var o := |Opening(path, extension)|;
    var r := FormatFileContent(path, extension, t1);
    assert |t1| == |t2|;
    assert t1 == r[o..o + |t1|] == t2;
  }

  /** `header + blocks.join("")`, the blocks being the files' renderings. */
  function GenerateMarkdown(header: string, blocks: seq<string>): (r: string)
    ensures header <= r
    ensures |blocks| == 0 ==> r == header
  {
    header + Concat(blocks)
  }

  /** The blocks follow the header in order: the markdown of more blocks
      extends the markdown of fewer. */
  lemma MarkdownAppend(header: string, a: seq<string>, b: seq<string>)
    ensures GenerateMarkdown(header, a + b) == GenerateMarkdown(header, a) + Concat(b)
  {
    ConcatAppend(a, b);
  }
}
