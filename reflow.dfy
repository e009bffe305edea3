/** The two line-oriented passes at the end of
    `convert_obsidian_to_standard_markdown`: blank lines around headers
    (pandoc_processing.py lines 21-38) and at the edges of list blocks
    (lines 41-65). Each pass walks the lines of the text once and appends to
    `processed_lines`; the methods below do the same, and each is proved equal
    to a specification function whose properties are proved as lemmas. */
module Reflow {
  import opened Text

  /** One line of a pass's output: a line of its input, kept, or a blank line
      the pass inserted. */
  datatype Emitted = Kept(line: string) | Inserted

  /** The lines as written out: an inserted line is the empty string. */
  function Render(es: seq<Emitted>): seq<string> {
    seq(|es|, k requires 0 <= k < |es| => if es[k].Kept? then es[k].line else [])
  }

  lemma RenderAppend(a: seq<Emitted>, b: seq<Emitted>)
    ensures Render(a + b) == Render(a) + Render(b)
  {
  }

  lemma RenderNone()
    ensures Render([]) == []
  {
  }

  /** Rendering entries, a kept line and more entries. */
  lemma RenderSnoc(e: seq<Emitted>, gap: seq<Emitted>, x: string, next: seq<Emitted>)
    ensures Render(e + gap + [Kept(x)] + next) == Render(e) + Render(gap) + [x] + Render(next)
  {
    RenderAppend(e + gap + [Kept(x)], next);
    RenderAppend(e + gap, [Kept(x)]);
    RenderAppend(e, gap);
    RenderSingle(Kept(x));
  }

  lemma RenderSingle(e: Emitted)
    ensures Render([e]) == [if e.Kept? then e.line else []]
  {
  }

  /** The input lines a pass kept, in order: its output with the inserted
      blank lines deleted. */
  function Originals(es: seq<Emitted>): seq<string> {
    if es == [] then []
    else Originals(es[..|es| - 1]) + (if es[|es| - 1].Kept? then [es[|es| - 1].line] else [])
  }

  lemma {:induction false} OriginalsAppend(a: seq<Emitted>, b: seq<Emitted>)
    ensures Originals(a + b) == Originals(a) + Originals(b)
    decreases |b|
  {
    if b == [] {
      assert a + b == a;
    } else {
      var c := b[..|b| - 1];
      assert (a + b)[..|a + b| - 1] == a + c;
      OriginalsAppend(a, c);
    }
  }

  lemma OriginalsSingle(e: Emitted)
    ensures Originals([e]) == if e.Kept? then [e.line] else []
  {
    assert [e][..0] == [];
  }

  /** Originals of an optional blank line, a kept line and another optional
      blank line. */
  lemma OriginalsFramed(before: seq<Emitted>, line: string, after: seq<Emitted>)
    requires before == [] || before == [Inserted]
    requires after == [] || after == [Inserted]
    ensures Originals(before + [Kept(line)] + after) == [line]
  {
    OriginalsSingle(Inserted);
    OriginalsSingle(Kept(line));
    OriginalsAppend(before, [Kept(line)]);
    OriginalsAppend(before + [Kept(line)], after);
  }

  // ---------------------------------------------------------------------------
  // Line classifiers

  /** `line.lstrip().startswith('#')` (line 26). */
  predicate IsHeader(line: string) {
    var t := Lstrip(line);
    |t| > 0 && t[0] == '#'
  }

  /** `re.match(r'^\s*\d+[\)\.]\s', t)`: optional whitespace, one or more
      digits, `)` or `.`, then one whitespace character. */
  predicate NumberedMarker(t: string) {
    var u := Lstrip(t);
    var j := RunEnd(u, 0, IsDigit);
    j > 0 && j + 1 < |u| && (u[j] == ')' || u[j] == '.') && IsSpace(u[j + 1])
  }

  /** `line.lstrip().startswith('- ') or re.match(r'^\s*\d+[\)\.]\s', line.lstrip())`
      (lines 47-48 and 58-59). */
  predicate IsListItem(line: string) {
    var t := Lstrip(line);
    (|t| >= 2 && t[0] == '-' && t[1] == ' ') || NumberedMarker(t)
  }

  /** A numbered item: whitespace, digits, `)` or `.`, whitespace, anything. */
  lemma NumberedItemIsListItem(indent: string, digits: string, mark: char, gap: char, rest: string)
    requires AllSpace(indent) && |digits| > 0 && All(digits, IsDigit)
    requires (mark == ')' || mark == '.') && IsSpace(gap)
    ensures IsListItem(indent + digits + [mark] + [gap] + rest)
  {
    var line := indent + digits + [mark] + [gap] + rest;
    var t := digits + [mark] + [gap] + rest;
    assert line == indent + t;
    LstripSpacePrefix(indent, t);
    assert t[0] == digits[0];
    assert Lstrip(t) == t;
    assert t[..|digits|] == digits;
    RunEndAt(t, 0, digits, IsDigit);
  }

  /** A bullet item: whitespace, `- `, anything. */
  lemma BulletItemIsListItem(indent: string, rest: string)
    requires AllSpace(indent)
    ensures IsListItem(indent + "- " + rest)
  {
    var t := "- " + rest;
    assert indent + "- " + rest == indent + t;
    LstripSpacePrefix(indent, t);
  }

  /** The marker a list item opens with after its indentation: `- `, or one
      or more digits, `)` or `.`, and one whitespace character. */
  predicate ListMarker(m: string) {
    m == "- "
    || (|m| >= 3 && All(m[..|m| - 2], IsDigit) && (m[|m| - 2] == ')' || m[|m| - 2] == '.') && IsSpace(m[|m| - 1]))
  }

  /** Conversely, every list item is whitespace, a marker and the rest of the
      line, so the two shapes above are the only ones. */
  lemma ListItemParts(line: string) returns (indent: string, marker: string, rest: string)
    requires IsListItem(line)
    ensures line == indent + marker + rest && AllSpace(indent) && ListMarker(marker)
  {
    var t := Lstrip(line);
    indent := LstripParts(line);
    LstripSpec(line);
    assert Lstrip(t) == t;
    marker, rest := MarkerParts(t);
  }

  /** A line is its leading whitespace followed by its `lstrip()`. */
  lemma LstripParts(line: string) returns (indent: string)
    ensures line == indent + Lstrip(line) && AllSpace(indent)
  {
    var t := Lstrip(line);
    LstripSpec(line);
    indent := line[..|line| - |t|];
  }

  /** The marker at the start of a stripped list item. */
  lemma MarkerParts(t: string) returns (marker: string, rest: string)
    requires (|t| >= 2 && t[0] == '-' && t[1] == ' ') || NumberedMarker(t)
    requires t == Lstrip(t)
    ensures t == marker + rest && ListMarker(marker)
  {
    if |t| >= 2 && t[0] == '-' && t[1] == ' ' {
      marker := t[..2];
      rest := t[2..];
    } else {
      var j := RunEnd(t, 0, IsDigit);
      marker := t[..j + 2];
      rest := t[j + 2..];
      assert marker[..j] == t[..j];
    }
  }

  /** Stripping leading whitespace skips a whitespace prefix. */
  lemma {:induction false} LstripSpacePrefix(indent: string, t: string)
    requires AllSpace(indent) && (t == [] || !IsSpace(t[0]))
    ensures Lstrip(indent + t) == t
    decreases |indent|
  {
    if indent == [] {
      assert indent + t == t;
    } else {
      assert (indent + t)[0] == indent[0];
      assert (indent + t)[1..] == indent[1..] + t;
      LstripSpacePrefix(indent[1..], t);
    }
  }

  lemma BlankLineIsNeither()
    ensures !IsHeader([]) && !IsListItem([])
  {
  }

  // ---------------------------------------------------------------------------
  // Header pass (lines 21-38)

  /** What the pass emits for input line `i`: a blank line first when `i` is a
      header, is not the first line, and the line emitted just before it is
      not blank (that is the previous input line itself, unless that one was a
      header and was followed by its own blank line); then the line; then a
      blank line after every header. */
  function HeaderBlock(lines: seq<string>, i: nat): seq<Emitted>
    requires i < |lines|
  {
    HeaderLead(lines, i) + [Kept(lines[i])] + HeaderTrail(lines[i])
  }

  function HeaderLead(lines: seq<string>, i: nat): (lead: seq<Emitted>)
    requires i < |lines|
    ensures lead == [] || lead == [Inserted]
  {
    if IsHeader(lines[i]) && i > 0 && !IsHeader(lines[i - 1]) && Strip(lines[i - 1]) != [] then [Inserted] else []
  }

  function HeaderTrail(line: string): (trail: seq<Emitted>)
    ensures trail == [] || trail == [Inserted]
  {
    if IsHeader(line) then [Inserted] else []
  }

  /** What the pass has emitted after the first `k` input lines. */
  function HeaderPrefix(lines: seq<string>, k: nat): seq<Emitted>
    requires k <= |lines|
  {
    if k == 0 then [] else HeaderPrefix(lines, k - 1) + HeaderBlock(lines, k - 1)
  }

  function HeaderEntries(lines: seq<string>): seq<Emitted> {
    HeaderPrefix(lines, |lines|)
  }

  /** The output of the header pass. */
  function HeaderPass(lines: seq<string>): seq<string> {
    Render(HeaderEntries(lines))
  }

  /** After some input lines the last emitted line is the empty line that
      follows a header, or else the previous input line itself. */
  lemma HeaderPrefixLast(lines: seq<string>, k: nat)
    requires 0 < k <= |lines|
    ensures |Render(HeaderPrefix(lines, k))| > 0
    ensures var out := Render(HeaderPrefix(lines, k));
            out[|out| - 1] == if IsHeader(lines[k - 1]) then [] else lines[k - 1]
  {
    RenderAppend(HeaderPrefix(lines, k - 1), HeaderBlock(lines, k - 1));
  }

  /** The loop of lines 24-36. */
  method SpaceAroundHeaders(lines: seq<string>) returns (processed: seq<string>)
    ensures processed == HeaderPass(lines)
  {
    processed := [];
    for i := 0 to |lines|
      invariant processed == Render(HeaderPrefix(lines, i))
    {
      if i > 0 { HeaderPrefixLast(lines, i); }
      HeaderPrefixRender(lines, i + 1);
      var line := lines[i];
      var isHeader := IsHeader(line);
      ghost var before := processed;
      if isHeader && i > 0 && |processed| > 0 && Strip(processed[|processed| - 1]) != [] {
        processed := processed + [[]];
      }
      assert processed == before + Render(HeaderLead(lines, i));
      processed := processed + [line];
      if isHeader {
        processed := processed + [[]];
      }
    }
  }

  /** The rendered output after one more input line. */
  lemma HeaderPrefixRender(lines: seq<string>, k: nat)
    requires 0 < k <= |lines|
    ensures Render(HeaderPrefix(lines, k))
         == Render(HeaderPrefix(lines, k - 1)) + Render(HeaderLead(lines, k - 1)) + [lines[k - 1]] + Render(HeaderTrail(lines[k - 1]))
    ensures Render(HeaderLead(lines, k - 1))
         == if IsHeader(lines[k - 1]) && k - 1 > 0 && !IsHeader(lines[k - 2]) && Strip(lines[k - 2]) != [] then [[]] else []
    ensures Render(HeaderTrail(lines[k - 1])) == if IsHeader(lines[k - 1]) then [[]] else []
  {
    RenderAppend(HeaderPrefix(lines, k - 1), HeaderBlock(lines, k - 1));
    HeaderBlockRender(lines, k - 1);
    AppendAssoc4(Render(HeaderPrefix(lines, k - 1)), Render(HeaderLead(lines, k - 1)), [lines[k - 1]], Render(HeaderTrail(lines[k - 1])));
  }

  /** Deleting the inserted blank lines gives back the input lines in order. */
  lemma HeaderPassKeepsLines(lines: seq<string>)
    ensures Originals(HeaderEntries(lines)) == lines
  {
    HeaderPrefixKeepsLines(lines, |lines|);
  }

  lemma {:induction false} HeaderPrefixKeepsLines(lines: seq<string>, k: nat)
    requires k <= |lines|
    ensures Originals(HeaderPrefix(lines, k)) == lines[..k]
  {
    if k > 0 {
      HeaderPrefixKeepsLines(lines, k - 1);
      HeaderBlockOriginals(lines, k - 1);
      OriginalsStep(HeaderPrefix(lines, k - 1), HeaderBlock(lines, k - 1), lines[..k - 1], lines[k - 1]);
      TakeSnoc(lines, k);
    }
  }

  lemma HeaderBlockOriginals(lines: seq<string>, i: nat)
    requires i < |lines|
    ensures Originals(HeaderBlock(lines, i)) == [lines[i]]
  {
    OriginalsFramed(HeaderLead(lines, i), lines[i], HeaderTrail(lines[i]));
  }

  /** Appending the entries of one more kept line. */
  lemma OriginalsStep(prefix: seq<Emitted>, block: seq<Emitted>, done: seq<string>, line: string)
    requires Originals(prefix) == done && Originals(block) == [line]
    ensures Originals(prefix + block) == done + [line]
  {
    OriginalsAppend(prefix, block);
  }

  /** Every header line of `out` is immediately followed by an empty line. */
  ghost predicate HeadersFollowedByBlank(out: seq<string>) {
    forall j :: 0 <= j < |out| && IsHeader(out[j]) ==> j + 1 < |out| && out[j + 1] == []
  }

  /** Every header line of `out` other than the first line is immediately
      preceded by a line of whitespace only. */
  ghost predicate HeadersPrecededByBlank(out: seq<string>) {
    forall j :: 0 < j < |out| && IsHeader(out[j]) ==> AllSpace(out[j - 1])
  }

  lemma HeaderPassSpacing(lines: seq<string>)
    ensures HeadersFollowedByBlank(HeaderPass(lines))
    ensures HeadersPrecededByBlank(HeaderPass(lines))
  {
    HeaderPrefixSpacing(lines, |lines|);
  }

  lemma {:induction false} HeaderPrefixSpacing(lines: seq<string>, k: nat)
    requires k <= |lines|
    ensures HeadersFollowedByBlank(Render(HeaderPrefix(lines, k)))
    ensures HeadersPrecededByBlank(Render(HeaderPrefix(lines, k)))
  {
    if k > 0 {
      HeaderPrefixSpacing(lines, k - 1);
      var prev := Render(HeaderPrefix(lines, k - 1));
      var line := lines[k - 1];
      var lead := Render(HeaderLead(lines, k - 1));
      var trail := Render(HeaderTrail(line));
      HeaderPrefixRender(lines, k);
      if k > 1 {
        HeaderPrefixLast(lines, k - 1);
        StripEmptyIffAllSpace(lines[k - 2]);
        assert IsHeader(line) && lead == [] ==> AllSpace(prev[|prev| - 1]);
      }
      FollowedExtend(prev, lead, line, trail);
      PrecededExtend(prev, lead, line, trail);
    }
  }

  /** Appending a block keeps every header followed by an empty line. */
  lemma FollowedExtend(prev: seq<string>, lead: seq<string>, line: string, trail: seq<string>)
    requires HeadersFollowedByBlank(prev)
    requires lead == [] || lead == [[]]
    requires trail == if IsHeader(line) then [[]] else []
    ensures HeadersFollowedByBlank(prev + lead + [line] + trail)
  {
    var out := prev + lead + [line] + trail;
    var at := |prev| + |lead|;
    BlankLineIsNeither();
    assert forall j :: |prev| <= j < |out| && j != at ==> out[j] == [];
    forall j | 0 <= j < |out| && IsHeader(out[j]) ensures j + 1 < |out| && out[j + 1] == [] {
      if j < |prev| {
        assert out[j] == prev[j];
        assert out[j + 1] == prev[j + 1];
      } else {
        assert out[j] == line;
        assert out[j + 1] == trail[0];
      }
    }
  }

  /** Appending a block keeps every header preceded by a blank line, provided
      a header with no blank line of its own before it follows a blank line. */
  lemma PrecededExtend(prev: seq<string>, lead: seq<string>, line: string, trail: seq<string>)
    requires HeadersPrecededByBlank(prev)
    requires lead == [] || lead == [[]]
    requires trail == [] || trail == [[]]
    requires IsHeader(line) && lead == [] && |prev| > 0 ==> AllSpace(prev[|prev| - 1])
    ensures HeadersPrecededByBlank(prev + lead + [line] + trail)
  {
    var out := prev + lead + [line] + trail;
    var at := |prev| + |lead|;
    BlankLineIsNeither();
    assert AllSpace([]);
    assert forall j :: |prev| <= j < |out| && j != at ==> out[j] == [];
    forall j | 0 < j < |out| && IsHeader(out[j]) ensures AllSpace(out[j - 1]) {
      if j < |prev| {
        assert out[j] == prev[j];
        assert out[j - 1] == prev[j - 1];
      } else {
        assert out[j] == line;
        assert lead != [] ==> out[j - 1] == lead[0];
        assert lead == [] ==> out[j - 1] == prev[|prev| - 1];
      }
    }
  }

  /** The rendered block: an optional empty line, the line, an empty line
      after a header. */
  lemma HeaderBlockRender(lines: seq<string>, i: nat)
    requires i < |lines|
    ensures Render(HeaderBlock(lines, i))
         == Render(HeaderLead(lines, i)) + [lines[i]] + Render(HeaderTrail(lines[i]))
    ensures Render(HeaderLead(lines, i))
         == if IsHeader(lines[i]) && i > 0 && !IsHeader(lines[i - 1]) && Strip(lines[i - 1]) != [] then [[]] else []
    ensures Render(HeaderTrail(lines[i])) == if IsHeader(lines[i]) then [[]] else []
  {
    var lead := HeaderLead(lines, i);
    RenderAppend(lead + [Kept(lines[i])], HeaderTrail(lines[i]));
    RenderAppend(lead, [Kept(lines[i])]);
    RenderSingle(Inserted);
    RenderSingle(Kept(lines[i]));
  }

  /** The number of header lines. */
  function HeaderCount(lines: seq<string>): nat {
    if lines == [] then 0
    else HeaderCount(lines[..|lines| - 1]) + (if IsHeader(lines[|lines| - 1]) then 1 else 0)
  }

  lemma {:induction false} HeaderCountAppend(a: seq<string>, b: seq<string>)
    ensures HeaderCount(a + b) == HeaderCount(a) + HeaderCount(b)
    decreases |b|
  {
    if b == [] {
      assert a + b == a;
    } else {
      assert (a + b)[..|a + b| - 1] == a + b[..|b| - 1];
      HeaderCountAppend(a, b[..|b| - 1]);
    }
  }

  lemma {:induction false} HeaderCountPositive(lines: seq<string>, k: nat)
    requires k < |lines| && IsHeader(lines[k])
    ensures HeaderCount(lines) > 0
    decreases |lines|
  {
    if k < |lines| - 1 {
      assert lines[..|lines| - 1][k] == lines[k];
      HeaderCountPositive(lines[..|lines| - 1], k);
    }
  }

  /** The pass adds at least one line per header, and the lines it adds are
      empty, so its output has as many headers as its input. */
  lemma {:induction false} HeaderPrefixCount(lines: seq<string>, k: nat)
    requires k <= |lines|
    ensures |HeaderPrefix(lines, k)| >= k + HeaderCount(lines[..k])
    ensures HeaderCount(Render(HeaderPrefix(lines, k))) == HeaderCount(lines[..k])
  {
    if k > 0 {
      HeaderPrefixCount(lines, k - 1);
      var line := lines[k - 1];
      var read := lines[..k - 1];
      var prev := HeaderPrefix(lines, k - 1);
      var block := HeaderBlock(lines, k - 1);
      assert HeaderPrefix(lines, k) == prev + block;
      TakeSnoc(lines, k);
      HeaderCountAppend(read, [line]);
      HeaderCountSingle(line);
      assert HeaderCount(lines[..k]) == HeaderCount(read) + (if IsHeader(line) then 1 else 0);
      RenderAppend(prev, block);
      HeaderCountAppend(Render(prev), Render(block));
      HeaderBlockCount(lines, k - 1);
    }
  }

  lemma HeaderBlockCount(lines: seq<string>, i: nat)
    requires i < |lines|
    ensures |HeaderBlock(lines, i)| >= 1 + (if IsHeader(lines[i]) then 1 else 0)
    ensures HeaderCount(Render(HeaderBlock(lines, i))) == if IsHeader(lines[i]) then 1 else 0
  {
    var lead := HeaderLead(lines, i);
    var trail := HeaderTrail(lines[i]);
    RenderAppend(lead + [Kept(lines[i])], trail);
    RenderAppend(lead, [Kept(lines[i])]);
    RenderSingle(Inserted);
    RenderSingle(Kept(lines[i]));
    HeaderCountSingle(lines[i]);
    HeaderCountSingle([]);
    HeaderCountAppend(Render(lead) + [lines[i]], Render(trail));
    HeaderCountAppend(Render(lead), [lines[i]]);
    assert HeaderCount([]) == 0;
  }

  lemma HeaderCountSingle(line: string)
    ensures HeaderCount([line]) == if IsHeader(line) then 1 else 0
  {
    assert [line][..0] == [];
  }

  /** The header pass is not idempotent: run again on its own output it adds
      at least one more line for every header, namely another empty line
      after it. */
  lemma HeaderPassNotIdempotent(lines: seq<string>)
    ensures |HeaderPass(HeaderPass(lines))| >= |HeaderPass(lines)| + HeaderCount(lines)
    ensures (exists k :: 0 <= k < |lines| && IsHeader(lines[k])) ==> HeaderPass(HeaderPass(lines)) != HeaderPass(lines)
  {
    var once := HeaderPass(lines);
    HeaderPrefixCount(lines, |lines|);
    TakeAll(lines);
    HeaderPrefixCount(once, |once|);
    TakeAll(once);
    if exists k :: 0 <= k < |lines| && IsHeader(lines[k]) {
      var k :| 0 <= k < |lines| && IsHeader(lines[k]);
      HeaderCountPositive(lines, k);
    }
  }

  // ---------------------------------------------------------------------------
  // List pass (lines 41-65)

  /** The specification of the list pass: the input lines in order, with one
      blank line between two neighbours exactly when one of them is a list
      item and the other is not, and nothing else. */
  function ListEntries(lines: seq<string>): seq<Emitted>
    decreases |lines|
  {
    if |lines| == 0 then []
    else if |lines| == 1 then [Kept(lines[0])]
    else
      var n := |lines|;
      ListEntries(lines[..n - 1]) + ListGap(lines[n - 2], lines[n - 1]) + [Kept(lines[n - 1])]
  }

  /** What the specification puts between two neighbouring lines. */
  function ListGap(prev: string, line: string): (gap: seq<Emitted>)
    ensures gap == [] || gap == [Inserted]
  {
    if IsListItem(prev) != IsListItem(line) then [Inserted] else []
  }

  /** The output of the list pass. */
  function ListPass(lines: seq<string>): seq<string> {
    Render(ListEntries(lines))
  }

  /** The blank line the loop has already decided to write after line `i - 1`
      because line `i` is not a list item. */
  function PendingAfter(lines: seq<string>, i: nat): seq<Emitted> {
    if 0 < i < |lines| && IsListItem(lines[i - 1]) && !IsListItem(lines[i]) then [Inserted] else []
  }

  /** The blank line, as written text, that the loop writes after line `i`
      when it ends a list block before the last line. */
  lemma PendingWritten(lines: seq<string>, i: nat)
    requires i < |lines|
    ensures Render(PendingAfter(lines, i + 1))
         == if IsListItem(lines[i]) && i < |lines| - 1 && !IsListItem(lines[i + 1]) then [[]] else []
  {
    RenderSingle(Inserted);
    RenderNone();
  }

  /** The loop of lines 45-63. The flag `prevWasList` always holds the
      classification of the previous input line, never that of an inserted
      blank line. */
  method SpaceAroundLists(lines: seq<string>) returns (processed: seq<string>)
    ensures processed == ListPass(lines)
  {
    processed := [];
    var prevWasList := false;
    for i := 0 to |lines|
      invariant prevWasList == (i > 0 && IsListItem(lines[i - 1]))
      invariant processed == ListWritten(lines, i)
    {
      var line := lines[i];
      var isList := IsListItem(line);
      ghost var before := processed;
      if isList && !prevWasList && i > 0 {
        processed := processed + [[]];
      }
      assert processed == before + ListLeadWritten(lines, i);
      processed := processed + [line];
      ghost var middle := processed;
      if isList && i < |lines| - 1 {
        var nextIsList := IsListItem(lines[i + 1]);
        if !nextIsList {
          processed := processed + [[]];
        }
      }
      PendingWritten(lines, i);
      assert processed == middle + Render(PendingAfter(lines, i + 1));
      prevWasList := isList;
      ListLoopStep(lines, i);
    }
    ListWrittenAll(lines);
  }

  /** What the loop has written after the first `i` input lines: the
      specification's output for them and the blank line already decided on
      after the last of them. */
  function ListWritten(lines: seq<string>, i: nat): seq<string>
    requires i <= |lines|
  {
    Render(ListEntries(lines[..i]) + PendingAfter(lines, i))
  }

  /** After all input lines the loop has written the list pass's output. */
  lemma ListWrittenAll(lines: seq<string>)
    ensures ListWritten(lines, |lines|) == ListPass(lines)
  {
    TakeAll(lines);
    assert PendingAfter(lines, |lines|) == [];
    assert ListEntries(lines) + [] == ListEntries(lines);
  }

  /** The lines (not entries) the loop writes before line `i`: one blank line
      when `i` starts a list block after a line it has not already followed
      by a blank line, none otherwise. */
  function ListLeadWritten(lines: seq<string>, i: nat): seq<string>
    requires i < |lines|
  {
    if IsListItem(lines[i]) && i > 0 && !IsListItem(lines[i - 1]) then [[]] else []
  }

  /** One iteration of the loop turns the output for the first `i` lines into
      the output for the first `i + 1`. */
  lemma ListLoopStep(lines: seq<string>, i: nat)
    requires i < |lines|
    ensures ListWritten(lines, i) + ListLeadWritten(lines, i) + [lines[i]] + Render(PendingAfter(lines, i + 1))
         == ListWritten(lines, i + 1)
  {
    var e := ListEntries(lines[..i]);
    var gap := if i > 0 then ListGap(lines[i - 1], lines[i]) else [];
    var next := PendingAfter(lines, i + 1);
    ListStep(lines, i);
    RenderAppend(e, PendingAfter(lines, i));
    RenderSingle(Inserted);
    RenderNone();
    assert Render(PendingAfter(lines, i)) + ListLeadWritten(lines, i) == Render(gap);
    RenderSnoc(e, gap, lines[i], next);
    Regroup(Render(e), Render(PendingAfter(lines, i)), ListLeadWritten(lines, i), Render(gap), [lines[i]], Render(next));
  }

  /** One more input line extends the specification by the gap before it and
      the line itself. */
  lemma ListStep(lines: seq<string>, i: nat)
    requires i < |lines|
    ensures ListEntries(lines[..i + 1])
         == ListEntries(lines[..i])
            + (if i > 0 then ListGap(lines[i - 1], lines[i]) else [])
            + [Kept(lines[i])]
  {
    TakeTake(lines, i, i + 1);
    if i == 0 { assert ListEntries(lines[..0]) == []; }
  }

  /** Deleting the inserted blank lines gives back the input lines in order. */
  lemma {:induction false} ListPassKeepsLines(lines: seq<string>)
    ensures Originals(ListEntries(lines)) == lines
    decreases |lines|
  {
    var n := |lines|;
    if n == 1 {
      assert ListEntries(lines) == [] + [Kept(lines[0])];
      assert Originals([]) == [];
    } else if n > 1 {
      var init := ListEntries(lines[..n - 1]);
      var gap := ListGap(lines[n - 2], lines[n - 1]);
      ListPassKeepsLines(lines[..n - 1]);
      OriginalsAppend(init, gap + [Kept(lines[n - 1])]);
      OriginalsFramed(gap, lines[n - 1], []);
      assert gap + [Kept(lines[n - 1])] + [] == gap + [Kept(lines[n - 1])];
      assert init + gap + [Kept(lines[n - 1])] == init + (gap + [Kept(lines[n - 1])]);
      TakeSnoc(lines, n);
      TakeAll(lines);
    }
  }

  /** The number of neighbouring input lines of which exactly one is a list item. */
  function Changes(lines: seq<string>): nat {
    if |lines| <= 1 then 0
    else Changes(lines[..|lines| - 1]) + (if IsListItem(lines[|lines| - 2]) != IsListItem(lines[|lines| - 1]) then 1 else 0)
  }

  /** The output is the input plus one line per change of classification. */
  lemma {:induction false} ListPassLength(lines: seq<string>)
    ensures |ListEntries(lines)| == |lines| + Changes(lines)
    decreases |lines|
  {
    if |lines| > 1 {
      ListPassLength(lines[..|lines| - 1]);
    }
  }

  /** The specification of a prefix of the lines is a prefix of the specification. */
  lemma {:induction false} ListPrefix(lines: seq<string>, k: nat)
    requires k <= |lines|
    ensures ListEntries(lines[..k]) <= ListEntries(lines)
    decreases |lines| - k
  {
    if k < |lines| {
      ListPrefix(lines, k + 1);
      ListStep(lines, k);
    } else {
      TakeAll(lines);
    }
  }

  /** Where input line `i` lands in the output: after the `i` lines before it and
      one blank line for each change of classification among lines `0..i`. */
  function Position(lines: seq<string>, i: nat): nat
    requires i < |lines|
  {
    i + Changes(lines[..i + 1])
  }

  /** Input line `i` is written, unchanged, at its position; the first line is
      written first and the last line last, so nothing is added before the
      first or after the last line. */
  lemma ListLineAt(lines: seq<string>, i: nat)
    requires i < |lines|
    ensures Position(lines, i) < |ListEntries(lines)|
    ensures ListEntries(lines)[Position(lines, i)] == Kept(lines[i])
    ensures i == 0 ==> Position(lines, i) == 0
    ensures i == |lines| - 1 ==> Position(lines, i) == |ListEntries(lines)| - 1
  {
    ListPrefix(lines, i + 1);
    ListStep(lines, i);
    ListPassLength(lines[..i + 1]);
    ListPassLength(lines);
    TakeAll(lines);
    assert i == 0 ==> lines[..i + 1][..0] == [];
  }

  /** Between input lines `i` and `i + 1` the output holds exactly one blank
      line when exactly one of the two is a list item, and nothing otherwise. */
  lemma ListGapAt(lines: seq<string>, i: nat)
    requires i + 1 < |lines|
    ensures var p := Position(lines, i);
            var differ := IsListItem(lines[i]) != IsListItem(lines[i + 1]);
            Position(lines, i + 1) == p + (if differ then 2 else 1)
            && (differ ==> p + 1 < |ListEntries(lines)| && ListEntries(lines)[p + 1] == Inserted)
  {
    var p := Position(lines, i);
    var differ := IsListItem(lines[i]) != IsListItem(lines[i + 1]);
    var before := ListEntries(lines[..i + 1]);
    var gap := ListGap(lines[i], lines[i + 1]);
    ListStep(lines, i + 1);
    ChangesStep(lines, i);
    ListPassLength(lines[..i + 1]);
    ListPrefix(lines, i + 2);
    assert |before| == p + 1;
    if differ {
      var e := before + gap + [Kept(lines[i + 1])];
      assert e[p + 1] == Inserted;
      assert ListEntries(lines)[p + 1] == e[p + 1];
    }
  }

  /** One more input line adds one change when it is classified differently
      from the line before. */
  lemma ChangesStep(lines: seq<string>, i: nat)
    requires i + 1 < |lines|
    ensures Changes(lines[..i + 2])
         == Changes(lines[..i + 1]) + (if IsListItem(lines[i]) != IsListItem(lines[i + 1]) then 1 else 0)
  {
    var b := lines[..i + 2];
    TakeTake(lines, i + 1, i + 2);
    assert b[..|b| - 1] == lines[..i + 1];
    assert b[|b| - 2] == lines[i] && b[|b| - 1] == lines[i + 1];
  }

  // ---------------------------------------------------------------------------
  // What the passes write

  /** Every line written is an inserted empty line or one of the kept lines. */
  lemma {:induction false} RenderedFromOriginals(es: seq<Emitted>, k: nat)
    requires k < |es|
    ensures Render(es)[k] == [] || Render(es)[k] in Originals(es)
    decreases |es|
  {
    var init := es[..|es| - 1];
    var last := es[|es| - 1];
    var tail := if last.Kept? then [last.line] else [];
    assert es == init + [last];
    RenderAppend(init, [last]);
    RenderSingle(last);
    assert Originals(es) == Originals(init) + tail;
    if k < |es| - 1 {
      RenderedFromOriginals(init, k);
      assert Render(es)[k] == Render(init)[k];
    } else {
      assert Render(es)[k] == (if last.Kept? then last.line else []);
      assert last.Kept? ==> Originals(es)[|Originals(es)| - 1] == last.line;
    }
  }

  /** The header pass writes only empty lines and lines of its input, and at
      least as many lines as it reads. */
  lemma HeaderPassLines(lines: seq<string>)
    ensures |HeaderPass(lines)| >= |lines|
    ensures forall k :: 0 <= k < |HeaderPass(lines)| ==> HeaderPass(lines)[k] == [] || HeaderPass(lines)[k] in lines
  {
    HeaderPrefixCount(lines, |lines|);
    HeaderPassKeepsLines(lines);
    forall k | 0 <= k < |HeaderPass(lines)| ensures HeaderPass(lines)[k] == [] || HeaderPass(lines)[k] in lines {
      RenderedFromOriginals(HeaderEntries(lines), k);
    }
  }

  /** The list pass writes only empty lines and lines of its input. */
  lemma ListPassLines(lines: seq<string>)
    ensures forall k :: 0 <= k < |ListPass(lines)| ==> ListPass(lines)[k] == [] || ListPass(lines)[k] in lines
  {
    ListPassKeepsLines(lines);
    forall k | 0 <= k < |ListPass(lines)| ensures ListPass(lines)[k] == [] || ListPass(lines)[k] in lines {
      RenderedFromOriginals(ListEntries(lines), k);
    }
  }

  /** The list pass ends with the last input line. */
  lemma ListPassLast(lines: seq<string>)
    requires |lines| > 0
    ensures |ListPass(lines)| > 0 && ListPass(lines)[|ListPass(lines)| - 1] == lines[|lines| - 1]
  {
    ListLineAt(lines, |lines| - 1);
  }

  /** The list pass writes its first input line first. */
  lemma ListPassFirst(lines: seq<string>)
    requires |lines| > 0
    ensures |ListPass(lines)| > 0 && ListPass(lines)[0] == lines[0]
  {
    ListLineAt(lines, 0);
  }

  /** What the header pass emits for its first line stays at the front. */
  lemma {:induction false} HeaderPrefixMono(lines: seq<string>, k: nat)
    requires 1 <= k <= |lines|
    ensures HeaderPrefix(lines, 1) <= HeaderPrefix(lines, k)
    decreases k
  {
    if k > 1 {
      HeaderPrefixMono(lines, k - 1);
    }
  }

  /** The header pass writes its first input line first, and ends with its
      last input line, or with the empty line after it when that is a
      header. */
  lemma HeaderPassEdges(lines: seq<string>)
    requires |lines| > 0
    ensures |HeaderPass(lines)| > 0 && HeaderPass(lines)[0] == lines[0]
    ensures HeaderPass(lines)[|HeaderPass(lines)| - 1]
         == if IsHeader(lines[|lines| - 1]) then [] else lines[|lines| - 1]
  {
    var n := |lines|;
    var es := HeaderEntries(lines);
    HeaderPrefixMono(lines, n);
    var first := HeaderPrefix(lines, 1);
    assert first == HeaderBlock(lines, 0);
    assert HeaderLead(lines, 0) == [];
    assert first[0] == Kept(lines[0]);
    assert es[0] == first[0];
    var block := HeaderBlock(lines, n - 1);
    assert es == HeaderPrefix(lines, n - 1) + block;
    assert es[|es| - 1] == block[|block| - 1];
    if IsHeader(lines[n - 1]) {
      assert block[|block| - 1] == Inserted;
    } else {
      assert block[|block| - 1] == Kept(lines[n - 1]);
    }
  }

  // ---------------------------------------------------------------------------
  // The list pass after the header pass

  /** Lemma: a header is never a list item, and neither is a line of
      whitespace only. */
  lemma HeaderOrBlankNotListItem(line: string)
    requires IsHeader(line) || AllSpace(line)
    ensures !IsListItem(line)
  {
    LstripSpec(line);
    var t := Lstrip(line);
    if t != [] {
      assert Lstrip(t) == t;
      assert RunEnd(t, 0, IsDigit) == 0;
    }
  }

  /** Every header of `out` that is not its last line is followed by an empty line. */
  ghost predicate HeadersFollowedWithin(out: seq<string>) {
    forall j :: 0 <= j && j + 1 < |out| && IsHeader(out[j]) ==> out[j + 1] == []
  }

  /** The list pass keeps the spacing the header pass made: it inserts
      nothing next to a header, since neither a header nor a blank line is a
      list item. */
  lemma {:induction false} ListPassKeepsHeaderSpacing(lines: seq<string>)
    requires HeadersFollowedWithin(lines) && HeadersPrecededByBlank(lines)
    ensures HeadersFollowedWithin(ListPass(lines)) && HeadersPrecededByBlank(ListPass(lines))
    decreases |lines|
  {
    var n := |lines|;
    if n == 1 {
      RenderSingle(Kept(lines[0]));
      assert ListPass(lines) == lines;
    } else if n > 1 {
      var init := lines[..n - 1];
      SpacingPrefix(lines);
      ListPassKeepsHeaderSpacing(init);
      ListPassLast(init);
      var a := lines[n - 2];
      var x := lines[n - 1];
      var gap := ListGap(a, x);
      RenderAppend(ListEntries(init) + gap, [Kept(x)]);
      RenderAppend(ListEntries(init), gap);
      RenderSingle(Kept(x));
      RenderSingle(Inserted);
      assert ListPass(lines) == ListPass(init) + Render(gap) + [x];
      assert IsHeader(a) ==> x == [];
      assert IsHeader(x) ==> AllSpace(a);
      if IsHeader(a) { HeaderOrBlankNotListItem(a); }
      if IsHeader(x) { HeaderOrBlankNotListItem(x); }
      ListSpacingExtend(ListPass(init), a, Render(gap), x);
    }
  }

  lemma SpacingPrefix(lines: seq<string>)
    requires |lines| > 0
    requires HeadersFollowedWithin(lines) && HeadersPrecededByBlank(lines)
    ensures HeadersFollowedWithin(lines[..|lines| - 1]) && HeadersPrecededByBlank(lines[..|lines| - 1])
  {
    var init := lines[..|lines| - 1];
    assert forall j :: 0 <= j < |init| ==> init[j] == lines[j];
  }

  lemma ListSpacingExtend(prev: seq<string>, a: string, gap: seq<string>, x: string)
    requires |prev| > 0 && prev[|prev| - 1] == a
    requires HeadersFollowedWithin(prev) && HeadersPrecededByBlank(prev)
    requires gap == [] || gap == [[]]
    requires IsHeader(a) ==> x == [] || gap == [[]]
    requires IsHeader(x) ==> AllSpace(a) || gap == [[]]
    ensures HeadersFollowedWithin(prev + gap + [x]) && HeadersPrecededByBlank(prev + gap + [x])
  {
    var out := prev + gap + [x];
    var at := |prev| + |gap|;
    BlankLineIsNeither();
    assert AllSpace([]);
    assert forall j :: |prev| <= j < at ==> out[j] == [];
    assert out[at] == x && out[|prev| - 1] == a;
    forall j | 0 <= j && j + 1 < |out| && IsHeader(out[j]) ensures out[j + 1] == [] {
      if j + 1 < |prev| {
        assert out[j] == prev[j] && out[j + 1] == prev[j + 1];
      } else {
        assert j == |prev| - 1;
      }
    }
    forall j | 0 < j < |out| && IsHeader(out[j]) ensures AllSpace(out[j - 1]) {
      if j < |prev| {
        assert out[j] == prev[j] && out[j - 1] == prev[j - 1];
      } else {
        assert j == at;
      }
    }
  }

  /** Two neighbouring output lines of which exactly one is a list item
      always include an empty line, so inside the output every list block is
      separated by blank lines from the lines around it. */
  ghost predicate ListBlocksBordered(out: seq<string>) {
    forall j :: 0 <= j && j + 1 < |out| && IsListItem(out[j]) != IsListItem(out[j + 1]) ==> out[j] == [] || out[j + 1] == []
  }

  lemma {:induction false} ListPassBordered(lines: seq<string>)
    ensures ListBlocksBordered(ListPass(lines))
    decreases |lines|
  {
    var n := |lines|;
    if n == 1 {
      RenderSingle(Kept(lines[0]));
    } else if n > 1 {
      var init := lines[..n - 1];
      ListPassBordered(init);
      ListPassLast(init);
      var a := lines[n - 2];
      var x := lines[n - 1];
      var gap := ListGap(a, x);
      assert init[n - 2] == a;
      RenderAppend(ListEntries(init) + gap, [Kept(x)]);
      RenderAppend(ListEntries(init), gap);
      RenderSingle(Kept(x));
      RenderSingle(Inserted);
      assert ListPass(lines) == ListPass(init) + Render(gap) + [x];
      BorderedExtend(ListPass(init), a, Render(gap), x);
    }
  }

  lemma BorderedExtend(prev: seq<string>, a: string, gap: seq<string>, x: string)
    requires |prev| > 0 && prev[|prev| - 1] == a
    requires ListBlocksBordered(prev)
    requires gap == if IsListItem(a) != IsListItem(x) then [[]] else []
    ensures ListBlocksBordered(prev + gap + [x])
  {
    var out := prev + gap + [x];
    var at := |prev| + |gap|;
    assert forall j :: |prev| <= j < at ==> out[j] == [];
    assert out[at] == x && out[|prev| - 1] == a;
    forall j | 0 <= j && j + 1 < |out| && IsListItem(out[j]) != IsListItem(out[j + 1])
      ensures out[j] == [] || out[j + 1] == []
    {
      if j + 1 < |prev| {
        assert out[j] == prev[j] && out[j + 1] == prev[j + 1];
      }
    }
  }
}
