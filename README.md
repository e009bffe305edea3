# Obsidian-to-Markdown normalizer

A Dafny model of `convert_obsidian_to_standard_markdown`. This function
turns an Obsidian note into Markdown that pandoc reads. It works in two stages.

1. **Regular-expression rewrites**, applied in this order.
   - A piped wiki-link `[[t|l]]` becomes `[l](t)`.
   - A bare wiki-link `[[t]]` becomes `[t](t)`.
   - An image whose alternative text is a number, `![N](p)`, becomes `![](p){width=Npx}`.
   - The embed rules turn `![[p|N]]` into `![](p){width=Npx}` and `![[p]]` into `![](p)`.
   - A callout `> [!tip] rest` becomes `> rest`.
   - Every line that opens with one to six `#` followed by something other
     than `#` or whitespace gets a space after the `#` run.
2. **Two line passes.**
   - The header pass puts an empty line after every header line. It puts
     one before a header unless the header is the first line of the text or
     the last line written so far is blank (whitespace only). That last line
     is the previous input line, or the empty line written after it when it
     was itself a header, so two headers in a row are separated by one empty
     line, not two.
   - The list pass puts an empty line at both edges of every block of list
     items (`- ` bullets and `1.` / `1)` numbers), even when the
     neighbouring line is already blank. Nothing is added before a block
     that starts the text or after a block that ends it.

Layout:
- `text.dfy` (module `Text`): the fixed whitespace and digit classes, and
  Python's `lstrip`, `strip`, `split('\n')` and `'\n'.join`, with their laws.
- `rewrites.dfy` (module `Rewrites`):
  - `Substitute`, the leftmost, non-overlapping left-to-right scan of `re.sub`;
  - every pattern as a direct scanner, with lemmas for matching
    (`...Found`), rewriting in context (`...Rewritten`) and leaving text
    alone (`...Unchanged`);
  - the per-line header-space rule.
- `rule_order.dfy` (module `RuleOrder`): what the whole chain does to the
  two kinds of image embed.
- `reflow.dfy` (module `Reflow`):
  - each pass is a method with the source's loop, proved equal to a
    specification function;
  - a pass's output is modelled as a sequence of `Kept(line)` and
    `Inserted` entries, and every property of the passes is proved about
    that function.
- `normalizer.dfy` (module `Normalizer`): the whole function as a method, plus
  properties of the full pipeline.

Where the documented intent and the code differ, the model follows the code.
- `![[img.png]]` is documented to become `![](img.png)`. The bare wiki-link
  rule at line 8 runs first and rewrites the `[[img.png]]` inside it, so the
  code gives `![img.png](img.png)` (`RuleOrder.PlainEmbedBecomesLabelledImage`).
- When the name is all digits, `![[12]]` ends up as `![](12){width=12px}`
  (`RuleOrder.DigitEmbedBecomesSizedImage`).
- `![[p|N]]` reaches its documented result by another route: line 7 gives
  `![N](p)`, and line 11 then adds the width
  (`RuleOrder.SizedEmbedBecomesSizedImage`).
- The embed rules of lines 14-15 are modelled as written. They can still
  match text that the earlier rules produce from nested brackets.
- Text without wiki-markup (no `]]` and no `!`) passes lines 7-17
  unchanged (`Rewrites.MarkupFreeUnchanged`). Line 18 is still no identity
  on it: `#x` becomes `# x` when `x` is not `#`, whitespace or `!` (`Rewrites.MarkupFreeHeaderSpaced`).

## Model

| member | source | states |
|---|---|---|
| Text.Lstrip | pandoc_processing.py:26 | `str.lstrip()` over the fixed whitespace set; characterised by `Text.LstripSpec` |
| Text.LstripSpec | pandoc_processing.py:26 | `lstrip` removes exactly the leading whitespace: what it keeps is a suffix that does not start with whitespace, what it drops is whitespace, and the result is empty exactly when the line is whitespace only |
| Text.Strip | pandoc_processing.py:29 | `str.strip()`, `rstrip` after `lstrip`; its truth value is characterised by `Text.StripEmptyIffAllSpace` |
| Text.StripEmptyIffAllSpace | pandoc_processing.py:29 | `strip()` is the empty (falsy) string exactly when the line is made of whitespace only |
| Text.Split | pandoc_processing.py:21 | `str.split('\n')`: the pieces between line feeds, at least one, none holding a line feed (its ensures); inverse of `Text.Join` by `Text.JoinSplit` and `Text.SplitJoin` |
| Text.Join | pandoc_processing.py:38 | `'\n'.join(lines)`: the lines with one line feed between neighbours; partner of `Text.Split` |
| Text.JoinSplit | pandoc_processing.py:21 | joining the lines of `split('\n')` with line feeds gives the text back |
| Text.SplitJoin | pandoc_processing.py:38-41 | splitting a join of at least one newline-free line gives exactly those lines back |
| Rewrites.Substitute | pandoc_processing.py:7-18 | `re.sub` for one pattern: scan left to right, replace the leftmost match, resume right after it, so matches never overlap; characterised by `SubstituteCopies`, `SubstituteIdentity` and `SubstituteAt` |
| Rewrites.SubstituteCopies | pandoc_processing.py:7 | `re.sub` copies unchanged the text before the first position where the pattern matches |
| Rewrites.SubstituteIdentity | pandoc_processing.py:7-17 | a text in which a pattern matches nowhere is left unchanged by its `re.sub` |
| Rewrites.SubstituteAt | pandoc_processing.py:7-17 | a match after match-free text is replaced by its replacement and the scan resumes right after it |
| Rewrites.RewriteWikiLinks | pandoc_processing.py:7 | line 7: `Substitute` with the piped wiki-link scanner and the template `[\2](\1)`; described by `MatchWikiLink`, `WikiLinkFound`, `WikiLinkRewritten` and `WikiLinksUnchanged` |
| Rewrites.MatchWikiLink | pandoc_processing.py:7 | a reported match is a prefix `[[t\|l]]` with `t` non-empty and free of `\|` and `]`, and `l` non-empty and free of `]` |
| Rewrites.WikiLinkFound | pandoc_processing.py:7 | every such `[[t\|l]]` is matched with groups `t` and `l`, whatever follows it |
| Rewrites.WikiLinkRewritten | pandoc_processing.py:7 | `[[t\|l]]` becomes `[l](t)`, the match-free text before it is kept, and rewriting continues after it |
| Rewrites.WikiLinksUnchanged | pandoc_processing.py:7 | a text with no `\|` or with no `]]` is left unchanged by line 7 |
| Rewrites.RewriteBareWikiLinks | pandoc_processing.py:8 | line 8: `Substitute` with the bare wiki-link scanner and the template `[\1](\1)`; described by the `BareWikiLink` lemmas below |
| Rewrites.MatchBareWikiLink | pandoc_processing.py:8 | a reported match is a prefix `[[t]]` with `t` non-empty and free of `]` |
| Rewrites.BareWikiLinkFound | pandoc_processing.py:8 | every such `[[t]]` is matched with group `t` |
| Rewrites.BareWikiLinkRewritten | pandoc_processing.py:8 | `[[t]]` becomes `[t](t)`, the match-free text before it is kept, and rewriting continues after it |
| Rewrites.BareWikiLinksUnchanged | pandoc_processing.py:8 | a text with no `]]` is left unchanged by line 8 |
| Rewrites.RewriteDigitAltImages | pandoc_processing.py:11 | line 11: `Substitute` with the `![N](p)` scanner and the template `![](\2){width=\1px}`; described by the `DigitAltImage` lemmas below |
| Rewrites.MatchDigitAltImage | pandoc_processing.py:11 | a reported match is a prefix `![N](p)` with `N` one or more digits and `p` non-empty and free of `)` |
| Rewrites.DigitAltImageFound | pandoc_processing.py:11 | every such `![N](p)` is matched with groups `N` and `p` |
| Rewrites.DigitAltImageRewritten | pandoc_processing.py:11 | `![N](p)` becomes `![](p){width=Npx}`, the match-free text before it is kept, and rewriting continues after it |
| Rewrites.DigitAltImagesUnchanged | pandoc_processing.py:11 | a text with no `!` is left unchanged by line 11 |
| Rewrites.RewriteSizedEmbeds | pandoc_processing.py:14 | line 14: `Substitute` with the `![[p\|N]]` scanner and the template `![](\1){width=\2px}`; described by the `SizedEmbed` lemmas below |
| Rewrites.MatchSizedEmbed | pandoc_processing.py:14 | a reported match is a prefix `![[p\|N]]` with `p` non-empty and free of `\|` and `]`, and `N` one or more digits |
| Rewrites.SizedEmbedFound | pandoc_processing.py:14 | every such `![[p\|N]]` is matched with groups `p` and `N` |
| Rewrites.SizedEmbedRewritten | pandoc_processing.py:14 | `![[p\|N]]` becomes `![](p){width=Npx}`, the match-free text before it is kept, and rewriting continues after it |
| Rewrites.SizedEmbedsUnchanged | pandoc_processing.py:14 | a text with no `]]` is left unchanged by line 14 |
| Rewrites.RewritePlainEmbeds | pandoc_processing.py:15 | line 15: `Substitute` with the `![[p]]` scanner and the template `![](\1)`; described by the `PlainEmbed` lemmas below |
| Rewrites.MatchPlainEmbed | pandoc_processing.py:15 | a reported match is a prefix `![[p]]` with `p` non-empty and free of `]` |
| Rewrites.PlainEmbedFound | pandoc_processing.py:15 | every such `![[p]]` is matched with group `p` |
| Rewrites.PlainEmbedRewritten | pandoc_processing.py:15 | `![[p]]` becomes `![](p)`, the match-free text before it is kept, and rewriting continues after it |
| Rewrites.PlainEmbedsUnchanged | pandoc_processing.py:15 | a text with no `]]` is left unchanged by line 15 |
| Rewrites.RewriteTipCallouts | pandoc_processing.py:17 | line 17: `Substitute` with the callout scanner and the template `> \2`; described by the `TipCallout` lemmas below |
| Rewrites.MatchTipCallout | pandoc_processing.py:17 | a reported match is a prefix `> [!tip] rest`, with `tip` in any ASCII letter case and `rest` non-empty, and it ends at the end of the line |
| Rewrites.TipCalloutFound | pandoc_processing.py:17 | every such callout that runs to the end of its line is matched with groups `tag` and `rest` |
| Rewrites.TipCalloutRewritten | pandoc_processing.py:17 | `> [!tip] rest` becomes `> rest`, the match-free text before it is kept, and rewriting continues after the line |
| Rewrites.TipCalloutsUnchanged | pandoc_processing.py:17 | a text with no `[!` or with no `] ` is left unchanged by line 17 |
| Rewrites.SpaceAfterHashes | pandoc_processing.py:18 | line 18 on one line: a space after a leading run of one to six `#` that is followed by neither `#` nor whitespace; characterised by `SpaceInserted`, `SpaceNotInserted` and `SevenHashesUnchanged` |
| Rewrites.SpaceInserted | pandoc_processing.py:18 | a line opening with one to six `#` followed by a character that is neither `#` nor whitespace gets exactly one space after the `#` run |
| Rewrites.SpaceNotInserted | pandoc_processing.py:18 | every other line is unchanged |
| Rewrites.SevenHashesUnchanged | pandoc_processing.py:18 | a line opening with seven or more `#` is unchanged |
| Rewrites.SpaceAfterHashesIdempotent | pandoc_processing.py:18 | applying the rule to a line twice gives the same result as applying it once |
| Rewrites.SpaceAfterHashesKeepsLine | pandoc_processing.py:18 | the rule puts no line feed into a line |
| Rewrites.SpaceHeaders | pandoc_processing.py:18 | line 18 on a whole text, the line rule applied to every line under `re.MULTILINE`; described by `SpaceHeadersLines` and `SpaceHeadersIdempotent` |
| Rewrites.SpaceHeadersLines | pandoc_processing.py:18 | with `re.MULTILINE`, the lines of the result are the input's lines, each rewritten by the line rule |
| Rewrites.SpaceHeadersIdempotent | pandoc_processing.py:18 | applying line 18 twice to a text gives the same result as applying it once |
| Rewrites.RewriteMarkup | pandoc_processing.py:7-17 | the six substitutions of lines 7-17 in the source's order; on the embeds described by the `RuleOrder` lemmas below |
| Rewrites.MarkupFreeUnchanged | pandoc_processing.py:7-17 | a text with no `]]` and no `!` passes all six substitutions of lines 7-17 unchanged |
| Rewrites.RewriteAll | pandoc_processing.py:7-18 | lines 7-17 followed by line 18 |
| Rewrites.MarkupFreeHeaderSpaced | pandoc_processing.py:7-18 | line 18 is not an identity on markup-free text: `#x`, for any character `x` other than `#`, whitespace and `!`, passes lines 7-17 unchanged and becomes `# x` |
| RuleOrder.LaterRulesKeep | pandoc_processing.py:14-17 | lines 14, 15 and 17 leave alone a text in which every `]` is followed by `(` |
| RuleOrder.SizedEmbedBecomesSizedImage | pandoc_processing.py:7-17 | after lines 7-17, `![[p\|N]]`, with `p` non-empty and free of `\|`, `]` and `)` and `N` one or more digits, is exactly `![](p){width=Npx}` |
| RuleOrder.PlainEmbedBecomesLabelledImage | pandoc_processing.py:7-17 | after lines 7-17, `![[p]]`, with `p` free of `]`, `\|` and `![` and not all digits, is exactly `![p](p)` |
| RuleOrder.DigitEmbedBecomesSizedImage | pandoc_processing.py:7-17 | after lines 7-17, `![[N]]` with `N` all digits is exactly `![](N){width=Npx}` |
| RuleOrder.LabelledImageKept | pandoc_processing.py:11 | line 11 leaves alone `![p](p)` when `p` is non-empty, is free of `]`, has a character that is not a digit and has no `![` |
| Reflow.IsHeader | pandoc_processing.py:26 | `line.lstrip().startswith('#')` |
| Reflow.NumberedMarker | pandoc_processing.py:48 | `re.match(r'^\s*\d+[\)\.]\s', t)`: optional whitespace, digits, `)` or `.`, one whitespace character |
| Reflow.IsListItem | pandoc_processing.py:47-48 | a bullet `- ` or a numbered marker after the leading whitespace; characterised by `NumberedItemIsListItem`, `BulletItemIsListItem` and `ListItemParts` |
| Reflow.NumberedItemIsListItem | pandoc_processing.py:47-48 | a line made of whitespace, digits, `)` or `.`, one whitespace character and anything else is a list item |
| Reflow.BulletItemIsListItem | pandoc_processing.py:47 | a line made of whitespace, `- ` and anything else is a list item |
| Reflow.ListItemParts | pandoc_processing.py:47-48 | every list item is whitespace, then `- ` or digits with `)` or `.` and one whitespace character, then the rest of the line |
| Reflow.HeaderOrBlankNotListItem | pandoc_processing.py:26-48 | neither a header line nor a line of whitespace only is a list item |
| Reflow.HeaderEntries | pandoc_processing.py:24-36 | the header pass's output as kept and inserted lines: for each input line, a blank first when it is a header, not the first line, and the last line written is not blank, then the line, then a blank after a header |
| Reflow.HeaderPass | pandoc_processing.py:21-38 | the lines written by the header loop; the loop `SpaceAroundHeaders` computes it, and the `HeaderPass` lemmas below state its properties |
| Reflow.SpaceAroundHeaders | pandoc_processing.py:22-36 | the loop, which checks the last line it has written, writes what the specification prescribes for each input line |
| Reflow.HeaderPassKeepsLines | pandoc_processing.py:24-36 | deleting the inserted empty lines from the header pass's output gives back the input lines in order |
| Reflow.HeaderPassSpacing | pandoc_processing.py:29-36 | in the header pass's output, every header line is followed by an empty line, and every header line after the first output line follows a line of whitespace only |
| Reflow.HeaderPassLines | pandoc_processing.py:24-36 | the header pass writes only empty lines and its input lines, and at least as many lines as it reads |
| Reflow.HeaderPassEdges | pandoc_processing.py:24-36 | the header pass's first output line is its first input line, and its last is the last input line, or an empty line after it when that line is a header |
| Reflow.HeaderPrefixCount | pandoc_processing.py:32-36 | the header pass writes at least one extra line per header, and its output has as many headers as its input |
| Reflow.HeaderPassNotIdempotent | pandoc_processing.py:35-36 | rerunning the header pass on its own output adds at least one line per header, so the output changes whenever there is a header |
| Reflow.ListEntries | pandoc_processing.py:45-63 | the list pass's output as kept and inserted lines: every input line kept, with one blank between two neighbours of which exactly one is a list item |
| Reflow.ListPass | pandoc_processing.py:41-65 | the lines written by the list loop; the loop `SpaceAroundLists` computes it, and the `ListPass` lemmas below state its properties |
| Reflow.SpaceAroundLists | pandoc_processing.py:42-63 | the loop, with its flag for the previous input line and its look-ahead at the next one, writes exactly the specification's output |
| Reflow.ListLoopStep | pandoc_processing.py:50-63 | one iteration turns the output for the first `i` lines, including the blank already written after a list item whose successor is not one, into the output for the first `i + 1` lines |
| Reflow.ListPassKeepsLines | pandoc_processing.py:45-63 | deleting the inserted empty lines from the list pass's output gives back the input lines in order |
| Reflow.ListPassLength | pandoc_processing.py:45-63 | the output has the input's length plus one line for every pair of neighbours of which exactly one is a list item |
| Reflow.ListLineAt | pandoc_processing.py:45-63 | input line `i` is written unchanged at position `i` plus the number of changes of classification up to it, so nothing is written before the first line or after the last |
| Reflow.ListGapAt | pandoc_processing.py:51-61 | between input lines `i` and `i + 1` there is exactly one empty line when exactly one of them is a list item, and none otherwise |
| Reflow.ListPassLines | pandoc_processing.py:54 | the list pass writes only empty lines and its input lines |
| Reflow.ListPassLast | pandoc_processing.py:45-63 | the list pass's last output line is its last input line |
| Reflow.ListPassFirst | pandoc_processing.py:50-54 | the list pass's first output line is its first input line (nothing is written before it, line 51's `i > 0`) |
| Reflow.ListPassBordered | pandoc_processing.py:50-61 | of two neighbouring output lines of which exactly one is a list item, one is empty |
| Reflow.ListPassKeepsHeaderSpacing | pandoc_processing.py:41-63 | the list pass keeps every header followed by an empty line and preceded by a blank line |
| Normalizer.Normalized | pandoc_processing.py:5-66 | the rewrites, then the header pass over the lines of the result, then the list pass over the lines of that, joined; its properties are `NormalizedLines` and `NormalizedSpacing` |
| Normalizer.ConvertObsidianToStandardMarkdown | pandoc_processing.py:5-66 | the rewrites, the split, the header loop, the join, the split, the list loop and the join compute `Normalized` |
| Normalizer.NormalizedLines | pandoc_processing.py:38-41 | the list pass reads exactly the lines the header pass wrote, and the result's lines are exactly the lines the list pass wrote |
| Normalizer.NormalizedSpacing | pandoc_processing.py:5-66 | in the result every header line is followed by an empty line, every header after the first line follows a whitespace-only line, and between a list item and a neighbouring line that is not one there is an empty line (the list pass adds nothing before the first line or after the last) |
| Normalizer.NormalizedEdges | pandoc_processing.py:21-65 | the result starts with the first line of the rewritten text and ends with its last line, or with an empty line after it when that line is a header |

## Left out

- `run_pandoc` (pandoc_processing.py:68-89) is process and file-system plumbing: it changes directory, runs a shell command and prints.
- `process_markdown_file` (pandoc_processing.py:91-118) is file reading and writing, directory creation and clean-up of the temporary file.
- The `__main__` block (pandoc_processing.py:120-122) runs the program on a fixed path.
- Python's general regular-expression engine is not modelled. Only the seven patterns of lines 7-18 and the `re.match` pattern `^\s*\d+[\)\.]\s` of lines 48 and 59 (`Reflow.NumberedMarker`) are, each as its own scanner. The scanners need no backtracking. In lines 7-15 every repetition is a run of a character class that excludes the delimiter after it, so only the maximal run can be followed by that delimiter; the same holds for the `\d+` of lines 48 and 59, which must be followed by `)` or `.`. The `(.+)` of line 17 ends the pattern and takes the rest of the line. The bounded `#{1,6}` of line 18 can be followed by a character other than `#` only when it is the whole leading run of `#`, so that pattern matches exactly when the leading run has one to six characters and is followed by a character that is not whitespace; on a line with seven or more leading `#`, every shorter choice of the repetition is followed by `#` and fails.
- Whitespace is the fixed set space, tab, line feed, carriage return, form feed and vertical tab. It is used for `strip`, `lstrip` and the pattern class `\s`. Other characters that Python counts as whitespace, such as the Unicode spaces and U+001C-U+001F, are not modelled.
- `\d` is the ASCII digits only. Unicode decimal digits are not modelled.
- `re.IGNORECASE` on `tip` is modelled as ASCII case only. Non-ASCII characters that Python's case folding matches to these letters are not modelled.
- Line 18 is modelled line by line, through a split on line feeds and a join. This is the same as the single `re.MULTILINE` substitution, because `^` matches at every line start and no match spans a line feed.
