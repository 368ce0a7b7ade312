/** The line loop of the Markdown renderer (scripts/md2html.py,
    `convert_markdown`): the input is split on newlines, a flag records
    whether the loop is inside a fenced code block, and exactly one output
    line is produced per input line before the lines are joined again. */
module MarkdownRender {
  import opened Strings
  import opened Markdown

  /** The fence test: the line starts with three backticks, with no trimming. */
  predicate IsFence(line: string)
  {
    "```" <= line
  }

  /** The language named after an opening fence, `plaintext` when there is none. */
  function Lang(line: string): (r: string)
    requires IsFence(line)
    ensures r != []
    ensures '\n' !in line ==> '\n' !in r
  {
    var t := Strip(line[3..]);
    if t == [] then PlainText else t
  }

  const PlainText := "plaintext"

  /** The line that opens a code block. */
  function CodeOpen(lang: string): string
  {
    PreTag + CodeTagHead + lang + CodeTagTail
  }

  const PreTag := "<pre class=\"code-block\">"
  const CodeTagHead := "<code class=\"language-"
  const CodeTagTail := "\">"

  /** The line that closes a code block. */
  const CodeClose := "</code></pre>"

  lemma CodeTagsFacts(lang: string)
    ensures '\n' !in lang ==> '\n' !in CodeOpen(lang)
    ensures '\n' !in CodeClose
  {
    assert '\n' !in PreTag;
    assert '\n' !in CodeTagHead;
    assert '\n' !in CodeTagTail;
  }

  /** Number of fence lines among the first `k` lines. */
  function FenceCount(lines: seq<string>, k: nat): (n: nat)
    requires k <= |lines|
    ensures n <= k
  {
    if k == 0 then 0
    else FenceCount(lines, k - 1) + (if IsFence(lines[k - 1]) then 1 else 0)
  }

  /** Whether line `k` is read inside a code block: the flag starts cleared
      and each fence line before `k` flips it. */
  predicate InCode(lines: seq<string>, k: nat)
    requires k <= |lines|
  {
    if k == 0 then false
    else InCode(lines, k - 1) != IsFence(lines[k - 1])
  }

  /** The flag is set exactly when an odd number of fences has been read. */
  lemma {:induction false} InCodeIsOdd(lines: seq<string>, k: nat)
    requires k <= |lines|
    ensures InCode(lines, k) <==> FenceCount(lines, k) % 2 == 1
  {
    if k > 0 {
      InCodeIsOdd(lines, k - 1);
    }
  }

  /** What the renderer emits for line `k`, given the rewrite it applies to a
      line outside a code block: a fence closes an open block whatever
      follows it, or opens one; inside a block a line is copied unchanged;
      elsewhere it is rewritten. */
  function BlockLine(rewrite: string -> string, lines: seq<string>, k: nat): string
    requires k < |lines|
  {
    var line := lines[k];
    if IsFence(line) then
      if InCode(lines, k) then CodeClose else CodeOpen(Lang(line))
    else if InCode(lines, k) then line
    else rewrite(line)
  }

  /** The output lines for the first `k` input lines, one per line. */
  function RenderedWith(rewrite: string -> string, lines: seq<string>, k: nat): (r: seq<string>)
    requires k <= |lines|
    ensures |r| == k
  {
    if k == 0 then [] else RenderedWith(rewrite, lines, k - 1) + [BlockLine(rewrite, lines, k - 1)]
  }

  /** Output line `j` is what the renderer emits for input line `j`. */
  lemma {:induction false} RenderedWithAt(rewrite: string -> string, lines: seq<string>, k: nat, j: nat)
    requires j < k <= |lines|
    ensures RenderedWith(rewrite, lines, k)[j] == BlockLine(rewrite, lines, j)
    decreases k
  {
    var prev := RenderedWith(rewrite, lines, k - 1);
    assert RenderedWith(rewrite, lines, k) == prev + [BlockLine(rewrite, lines, k - 1)];
    if j < k - 1 {
      RenderedWithAt(rewrite, lines, k - 1, j);
      assert prev[j] == BlockLine(rewrite, lines, j);
    }
  }

  /** What the renderer emits for line `k` of the input. */
  function OutputLine(lines: seq<string>, k: nat): (r: string)
    requires k < |lines|
    ensures '\n' !in lines[k] ==> '\n' !in r
  {
    if IsFence(lines[k]) then
      CodeTagsFacts(Lang(lines[k]));
      BlockLine(RenderLine, lines, k)
    else BlockLine(RenderLine, lines, k)
  }

  /** The output lines, one per input line. */
  function Rendered(lines: seq<string>): (r: seq<string>)
    ensures |r| == |lines|
  {
    RenderedWith(RenderLine, lines, |lines|)
  }

  lemma RenderedAt(lines: seq<string>, j: nat)
    requires j < |lines|
    ensures Rendered(lines)[j] == OutputLine(lines, j)
  {
    RenderedWithAt(RenderLine, lines, |lines|, j);
  }

  /** `convert_markdown`: a loop over the lines of `text` with the flag
      `inCodeBlock` and the growing list `htmlLines`, each non-code line
      rewritten step by step. */
  method ConvertMarkdown(text: string) returns (html: string)
    ensures html == Join(Rendered(Split(text, '\n')), '\n')
    ensures Split(html, '\n') == Rendered(Split(text, '\n'))
    ensures |Split(html, '\n')| == |Split(text, '\n')|
  {
    var lines := Split(text, '\n');
    var htmlLines: seq<string> := [];
    var inCodeBlock := false;
    var i := 0;
    while i < |lines|
      invariant 0 <= i <= |lines|
      invariant htmlLines == RenderedWith(RenderLine, lines, i)
      invariant inCodeBlock == InCode(lines, i)
    {
      var out;
      out, inCodeBlock := ConvertLine(lines, i, inCodeBlock);
      htmlLines := htmlLines + [out];
      i := i + 1;
    }
    html := Join(htmlLines, '\n');
    RenderedSplits(text);
  }

  /** One pass of the loop body: a fence flips the flag and emits a code tag,
      a line inside a block is copied, any other line is rewritten. */
  method ConvertLine(lines: seq<string>, i: nat, inCodeBlock: bool) returns (out: string, inCodeAfter: bool)
    requires i < |lines| && inCodeBlock == InCode(lines, i)
    ensures out == OutputLine(lines, i)
    ensures inCodeAfter == InCode(lines, i + 1)
  {
    var line := lines[i];
    InCodeStep(lines, i);
    OutputLineCases(lines, i);
    inCodeAfter := inCodeBlock;
    if IsFence(line) {
      if inCodeBlock {
        out := CodeClose;
        inCodeAfter := false;
      } else {
        out := CodeOpen(Lang(line));
        inCodeAfter := true;
      }
    } else if inCodeBlock {
      out := line;
    } else {
      line := RewriteLine(line);
      out := line;
    }
  }

  /** The three ways a line is rendered, as the loop takes them. */
  lemma OutputLineCases(lines: seq<string>, i: nat)
    requires i < |lines|
    ensures IsFence(lines[i]) && InCode(lines, i) ==> OutputLine(lines, i) == CodeClose
    ensures IsFence(lines[i]) && !InCode(lines, i) ==> OutputLine(lines, i) == CodeOpen(Lang(lines[i]))
    ensures !IsFence(lines[i]) && InCode(lines, i) ==> OutputLine(lines, i) == lines[i]
    ensures !IsFence(lines[i]) && !InCode(lines, i) ==> OutputLine(lines, i) == RenderLine(lines[i])
  {
  }

  /** The flag flips exactly at fence lines. */
  lemma InCodeStep(lines: seq<string>, i: nat)
    requires i < |lines|
    ensures InCode(lines, i + 1) <==> (InCode(lines, i) != IsFence(lines[i]))
  {
  }

  /** The body of the loop for a line outside a code block: `line` is
      reassigned through each rewrite in turn. */
  method RewriteLine(input: string) returns (line: string)
    ensures line == RenderLine(input)
  {
    line := Escape(input);
    line := Headers(line);
    line := Sub(BoldItalic, line);
    line := Sub(Bold, line);
    line := Sub(Italic, line);
    line := Sub(InlineCode, line);
    line := Sub(Link, line);
    line := HorizontalRule(line);
    line := ListItem(line);
    line := CheckboxItem(line, false);
    line := CheckboxItem(line, true);
    line := Blockquote(line);
    line := BlankLine(line);
  }

  /** Re-splitting the output gives back the output lines, one per input line. */
  lemma RenderedSplits(text: string)
    ensures Split(Join(Rendered(Split(text, '\n')), '\n'), '\n') == Rendered(Split(text, '\n'))
  {
    var lines := Split(text, '\n');
    var r := Rendered(lines);
    forall k | 0 <= k < |r| ensures '\n' !in r[k] {
      RenderedAt(lines, k);
      assert '\n' !in lines[k];
    }
    SplitJoin(r, '\n');
  }

  /** A fence that is never closed leaves the rest of the input verbatim and
      produces no closing tag, whatever the rewrite of ordinary lines. */
  lemma UnterminatedFence(rewrite: string -> string, lines: seq<string>, j: nat)
    requires j < |lines| && IsFence(lines[j]) && !InCode(lines, j)
    requires forall k :: j < k < |lines| ==> !IsFence(lines[k])
    ensures RenderedWith(rewrite, lines, |lines|)[j] == CodeOpen(Lang(lines[j]))
    ensures forall k :: j < k < |lines| ==> RenderedWith(rewrite, lines, |lines|)[k] == lines[k]
  {
    var r := RenderedWith(rewrite, lines, |lines|);
    RenderedWithAt(rewrite, lines, |lines|, j);
    forall k | j < k < |lines| ensures r[k] == lines[k] {
      FencesBetween(lines, j, k);
      RenderedWithAt(rewrite, lines, |lines|, k);
    }
  }

  /** With no fence after the one at `j`, the flag stays flipped. */
  lemma {:induction false} FencesBetween(lines: seq<string>, j: nat, k: nat)
    requires j < k <= |lines| && IsFence(lines[j])
    requires forall m :: j < m < k ==> !IsFence(lines[m])
    ensures InCode(lines, k) == !InCode(lines, j)
    decreases k
  {
    if k > j + 1 {
      FencesBetween(lines, j, k - 1);
    }
  }

  /** A fence and the next fence after it open and close one block: the lines
      between are copied verbatim and the flag is cleared again afterwards. */
  lemma FencePairsClose(rewrite: string -> string, lines: seq<string>, j: nat, k: nat)
    requires j < k < |lines| && IsFence(lines[j]) && !InCode(lines, j)
    requires forall m :: j < m < k ==> !IsFence(lines[m])
    requires IsFence(lines[k])
    ensures RenderedWith(rewrite, lines, |lines|)[j] == CodeOpen(Lang(lines[j]))
    ensures RenderedWith(rewrite, lines, |lines|)[k] == CodeClose
    ensures forall m :: j < m < k ==> RenderedWith(rewrite, lines, |lines|)[m] == lines[m]
    ensures !InCode(lines, k + 1)
  {
    var r := RenderedWith(rewrite, lines, |lines|);
    RenderedWithAt(rewrite, lines, |lines|, j);
    forall m | j < m < k ensures r[m] == lines[m] {
      FencesBetween(lines, j, m);
      RenderedWithAt(rewrite, lines, |lines|, m);
    }
    FencesBetween(lines, j, k);
    RenderedWithAt(rewrite, lines, |lines|, k);
    InCodeStep(lines, k);
  }
}
