/** `convert_obsidian_to_standard_markdown` (pandoc_processing.py lines 5-66):
    the rewrites of lines 7-18, then the header pass over the lines of the
    result, then the list pass over the lines of that. */
module Normalizer {
  import opened Text
  import opened Rewrites
  import opened Reflow

  /** The function's result, step by step as the source computes it: each
      pass splits the text into lines and joins its output with line feeds. */
  function Normalized(content: string): string {
    Join(ListPass(Split(Join(HeaderPass(Split(RewriteAll(content)))))))
  }

  /** pandoc_processing.py lines 5-66. */
  method ConvertObsidianToStandardMarkdown(content: string) returns (result: string)
    ensures result == Normalized(content)
  {
    var text := RewriteAll(content);
    var lines := Split(text);
    var processed := SpaceAroundHeaders(lines);
    text := Join(processed);
    lines := Split(text);
    processed := SpaceAroundLists(lines);
    result := Join(processed);
  }

  /** A pass that writes only empty lines and lines of its input writes no
      line feed into a line. */
  lemma NoNewlineKept(input: seq<string>, output: seq<string>)
    requires AllNoNewline(input)
    requires forall k :: 0 <= k < |output| ==> output[k] == [] || output[k] in input
    ensures AllNoNewline(output)
  {
    forall k | 0 <= k < |output| ensures NoNewline(output[k]) {
      if output[k] != [] {
        var i :| 0 <= i < |input| && input[i] == output[k];
      }
    }
  }

  /** The list pass reads exactly the lines the header pass wrote, and the
      lines of the result are exactly the lines the list pass wrote. */
  lemma NormalizedLines(content: string)
    ensures var lines := Split(RewriteAll(content));
            Split(Join(HeaderPass(lines))) == HeaderPass(lines)
            && Split(Normalized(content)) == ListPass(HeaderPass(lines))
  {
    var lines := Split(RewriteAll(content));
    var headed := HeaderPass(lines);
    HeaderPassLines(lines);
    NoNewlineKept(lines, headed);
    SplitJoin(headed);
    var listed := ListPass(headed);
    ListPassLines(headed);
    NoNewlineKept(headed, listed);
    ListPassLength(headed);
    SplitJoin(listed);
  }

  /** The result starts with the first line of the rewritten text, and ends
      with its last line, or with an empty line after it when that is a
      header: the list pass adds nothing at either edge, but the header pass
      always writes an empty line after a header, the last line included. */
  lemma NormalizedEdges(content: string)
    ensures var lines := Split(RewriteAll(content));
            var out := Split(Normalized(content));
            |out| > 0 && out[0] == lines[0]
            && out[|out| - 1] == (if IsHeader(lines[|lines| - 1]) then [] else lines[|lines| - 1])
  {
    var lines := Split(RewriteAll(content));
    var headed := HeaderPass(lines);
    NormalizedLines(content);
    HeaderPassEdges(lines);
    ListPassFirst(headed);
    ListPassLast(headed);
  }

  /** In the lines of the result every header is followed by an empty line,
      every header but the first line follows a line of whitespace only, and
      between a list item and a neighbouring line that is not one there is an
      empty line. The list pass adds nothing before the first line or after
      the last, so a list block at an edge of the text has no blank on that
      side. */
  lemma NormalizedSpacing(content: string)
    ensures var out := Split(Normalized(content));
            HeadersFollowedByBlank(out) && HeadersPrecededByBlank(out) && ListBlocksBordered(out)
  {
    var lines := Split(RewriteAll(content));
    var headed := HeaderPass(lines);
    NormalizedLines(content);
    HeaderPassSpacing(lines);
    HeaderPassLines(lines);
    ListPassKeepsHeaderSpacing(headed);
    ListPassBordered(headed);
    var out := ListPass(headed);
    ListPassLast(headed);
    assert !IsHeader(out[|out| - 1]);
  }
}
