/** The regular-expression rewrites at the start of
    `convert_obsidian_to_standard_markdown`.

    `re.sub(pattern, template, text)` scans `text` from left to right: where the
    pattern matches, the match is replaced and scanning resumes right after it;
    elsewhere one character is copied. `Substitute` is that scan, for a
    `Matcher` that decides whether the pattern matches at the start of the
    remaining text. None of the patterns can match the empty string, and none
    of them needs backtracking, so each matcher below is a direct
    left-to-right check. In lines 7-15 every repetition (`[^\]]+`, `\d+`, ...)
    is a run of a class that excludes the delimiter after it, so only the
    longest run can be followed by that delimiter. The `(.+)` of line 17 ends
    its pattern and takes the rest of the line. The bounded `#{1,6}` of line
    18 is treated where that rule is defined. */
module Rewrites {
  import opened Text

  datatype Option<T> = None | Some(value: T)

  /** A match at the start of the remaining text: how many characters it
      covers and the text that replaces them. */
  datatype Hit = Hit(len: nat, replacement: string)

  /** The two capture groups of a match (the second is empty for the
      one-group patterns). */
  datatype Capture = Capture(first: string, second: string)

  type Matcher = string -> Option<Hit>

  /** A matcher only reports non-empty matches that lie inside its input. */
  ghost predicate Sound(m: Matcher) {
    forall t :: m(t).Some? ==> 0 < m(t).value.len <= |t|
  }

  /** `re.sub` of a pattern that never matches the empty string. */
  function Substitute(s: string, m: Matcher): string
    requires Sound(m)
    decreases |s|
  {
    if s == [] then []
    else match m(s)
      case Some(h) => h.replacement + Substitute(s[h.len..], m)
      case None => [s[0]] + Substitute(s[1..], m)
  }

  /** No match of `m` starts at any of the first `n` positions of `s`. */
  ghost predicate NoMatchBefore(s: string, n: nat, m: Matcher) {
    n <= |s| && forall i :: 0 <= i < n ==> m(s[i..]).None?
  }

  /** Text before the first match is copied unchanged. */
  lemma {:induction false} SubstituteCopies(u: string, v: string, m: Matcher)
    requires Sound(m) && NoMatchBefore(u + v, |u|, m)
    ensures Substitute(u + v, m) == u + Substitute(v, m)
    decreases |u|
  {
    if u == [] {
      assert u + v == v;
    } else {
      var s := u + v;
      assert s[0..] == s;
      assert s[1..] == u[1..] + v;
      forall i | 0 <= i < |u| - 1 ensures m((u[1..] + v)[i..]).None? {
        assert (u[1..] + v)[i..] == s[i + 1..];
      }
      SubstituteCopies(u[1..], v, m);
      assert [u[0]] + (u[1..] + Substitute(v, m)) == u + Substitute(v, m);
    }
  }

  /** A text in which the pattern matches nowhere is left unchanged. */
  lemma SubstituteIdentity(s: string, m: Matcher)
    requires Sound(m) && NoMatchBefore(s, |s|, m)
    ensures Substitute(s, m) == s
  {
    assert s + [] == s;
    SubstituteCopies(s, [], m);
  }

  /** A match at the start of `w`, preceded by match-free text `u`, is
      replaced and the scan goes on after it. */
  lemma SubstituteAt(u: string, w: string, m: Matcher, n: nat, r: string)
    requires Sound(m) && NoMatchBefore(u + w, |u|, m)
    requires m(w) == Some(Hit(n, r))
    ensures Substitute(u + w, m) == u + r + Substitute(w[n..], m)
  {
    SubstituteCopies(u, w, m);
  }

  /** `s` has the character `a` immediately followed by `b` somewhere. */
  predicate HasPair(s: string, a: char, b: char) {
    exists i :: 0 <= i < |s| - 1 && s[i] == a && s[i + 1] == b
  }

  lemma HasPairInSuffix(s: string, i: nat, a: char, b: char)
    requires i <= |s| && HasPair(s[i..], a, b)
    ensures HasPair(s, a, b)
  {
    var k :| 0 <= k < |s[i..]| - 1 && s[i..][k] == a && s[i..][k + 1] == b;
    assert s[i + k] == a && s[i + k + 1] == b;
  }

  /** Every `]` of `s` is directly followed by `(`, as in a standard link or
      image; such a text has neither `]]` nor `] `. */
  predicate ClosesBeforeParen(s: string) {
    forall i :: 0 <= i < |s| ==> s[i] == ']' ==> i + 1 < |s| && s[i + 1] == '('
  }

  lemma ClosesBeforeParenPairs(s: string)
    requires ClosesBeforeParen(s)
    ensures !HasPair(s, ']', ']') && !HasPair(s, ']', ' ')
  {
  }

  // ---------------------------------------------------------------------------
  // Character classes of the patterns

  predicate NotBarOrClose(c: char) { c != '|' && c != ']' }
  predicate NotClose(c: char) { c != ']' }
  predicate NotParen(c: char) { c != ')' }
  predicate NotNewline(c: char) { c != '\n' }

  /** `[^\|\]]+`: the target of a piped wiki-link or the path of a sized embed. */
  predicate PipedTarget(t: string) { |t| > 0 && All(t, NotBarOrClose) }
  /** `[^\]]+`: a wiki-link label, the target of a bare wiki-link or the path of a plain embed. */
  predicate Bracketed(t: string) { |t| > 0 && All(t, NotClose) }
  /** `\d+`: a width. */
  predicate Width(n: string) { |n| > 0 && All(n, IsDigit) }
  /** `[^\)]+`: an image path inside parentheses. */
  predicate ImagePath(p: string) { |p| > 0 && All(p, NotParen) }
  /** `(.+)` at the end of a pattern: the rest of the line, at least one character. */
  predicate LineRest(r: string) { |r| > 0 && All(r, NotNewline) }

  /** `(TIP|Tip|tip)` under `re.IGNORECASE`: the three letters in any mix of
      ASCII cases. */
  predicate TipTag(t: string) {
    |t| == 3 && (t[0] == 't' || t[0] == 'T') && (t[1] == 'i' || t[1] == 'I') && (t[2] == 'p' || t[2] == 'P')
  }

  // ---------------------------------------------------------------------------
  // The shapes the rules read and write

  /** `[[target|display]]` */
  function WikiLink(target: string, display: string): string { "[[" + target + "|" + display + "]]" }
  /** `[[target]]` */
  function BareWikiLink(target: string): string { "[[" + target + "]]" }
  /** `[display](target)`; an image with alternative text `display` is `"!" + Link(display, target)`. */
  function Link(display: string, target: string): string { "[" + display + "](" + target + ")" }
  /** `![[path|width]]` */
  function SizedEmbed(path: string, width: string): string { "![[" + path + "|" + width + "]]" }
  /** `![[path]]` */
  function PlainEmbed(path: string): string { "![[" + path + "]]" }
  /** `![](path){width=Npx}` */
  function SizedImage(path: string, width: string): string { "![](" + path + "){width=" + width + "px}" }
  /** `![](path)` */
  function PlainImage(path: string): string { "![](" + path + ")" }
  /** `> [!tip] rest` */
  function TipCallout(tag: string, rest: string): string { "> [!" + tag + "] " + rest }
  /** `> rest` */
  function Blockquote(rest: string): string { "> " + rest }

  // ---------------------------------------------------------------------------
  // Line 7: [[target|display]] becomes [display](target)

  /** The pattern `\[\[([^\|\]]+)\|([^\]]+)\]\]` at the start of `s`. */
  function MatchWikiLink(s: string): (r: Option<Capture>)
    ensures r.Some? ==> WikiLink(r.value.first, r.value.second) <= s
    ensures r.Some? ==> PipedTarget(r.value.first) && Bracketed(r.value.second)
  {
    if |s| >= 2 && s[0] == '[' && s[1] == '[' then
      var j := RunEnd(s, 2, NotBarOrClose);
      if j > 2 && j < |s| && s[j] == '|' then
        var k := RunEnd(s, j + 1, NotClose);
        if k > j + 1 && k + 1 < |s| && s[k] == ']' && s[k + 1] == ']' then
          WikiLinkSpelled(s, j, k);
          Some(Capture(s[2..j], s[j + 1..k]))
        else None
      else None
    else None
  }

  /** The characters at the delimiters spell `[[t|l]]` with the groups between them. */
  lemma WikiLinkSpelled(s: string, j: nat, k: nat)
    requires 2 < j && j + 1 < k && k + 1 < |s|
    requires s[0] == '[' && s[1] == '[' && s[j] == '|' && s[k] == ']' && s[k + 1] == ']'
    ensures WikiLink(s[2..j], s[j + 1..k]) <= s
  {
    var t := s[2..j];
    var l := s[j + 1..k];
    var w := WikiLink(t, l);
    assert |w| == k + 2;
    forall i | 0 <= i < k + 2 ensures w[i] == s[i] {
      if 2 <= i < j {
        assert w[i] == t[i - 2];
      } else if j + 1 <= i < k {
        assert w[i] == l[i - j - 1];
      }
    }
    assert w == s[..k + 2];
  }

  /** Where the groups of `[[t|l]]` followed by `v` lie. */
  lemma WikiLinkPieces(t: string, l: string, v: string)
    ensures var s := WikiLink(t, l) + v;
            var j := 2 + |t|;
            |s| == j + 3 + |l| + |v| && s[0] == '[' && s[1] == '[' && s[2..j] == t && s[j] == '|'
            && s[j + 1..j + 1 + |l|] == l && s[j + 1 + |l|] == ']' && s[j + 2 + |l|] == ']'
  {
    var s := WikiLink(t, l) + v;
    assert s == "[[" + t + "|" + l + "]]" + v;
  }

  /** Every piped wiki-link is recognised, whatever follows it. */
  lemma WikiLinkFound(t: string, l: string, v: string)
    requires PipedTarget(t) && Bracketed(l)
    ensures MatchWikiLink(WikiLink(t, l) + v) == Some(Capture(t, l))
  {
    var s := WikiLink(t, l) + v;
    var j := 2 + |t|;
    WikiLinkPieces(t, l, v);
    RunEndAt(s, 2, t, NotBarOrClose);
    RunEndAt(s, j + 1, l, NotClose);
  }

  function WikiLinkRule(s: string): (r: Option<Hit>)
    ensures r.Some? ==> 0 < r.value.len <= |s|
  {
    match MatchWikiLink(s)
    case None => None
    case Some(c) => Some(Hit(|WikiLink(c.first, c.second)|, Link(c.second, c.first)))
  }

  lemma WikiLinkRuleSound()
    ensures Sound(WikiLinkRule)
  {
  }

  /** pandoc_processing.py line 7. */
  function RewriteWikiLinks(s: string): string {
    WikiLinkRuleSound();
    Substitute(s, WikiLinkRule)
  }

  /** `[[t|l]]` becomes `[l](t)` and the scan goes on after it; the text before
      it, where no piped wiki-link starts, is kept. */
  lemma WikiLinkRewritten(u: string, t: string, l: string, v: string)
    requires PipedTarget(t) && Bracketed(l)
    requires NoMatchBefore(u + WikiLink(t, l) + v, |u|, WikiLinkRule)
    ensures RewriteWikiLinks(u + WikiLink(t, l) + v) == u + Link(l, t) + RewriteWikiLinks(v)
  {
    var tok := WikiLink(t, l);
    WikiLinkFound(t, l, v);
    WikiLinkRuleSound();
    AppendAssoc(u, tok, v);
    assert (tok + v)[|tok|..] == v;
    SubstituteAt(u, tok + v, WikiLinkRule, |tok|, Link(l, t));
  }

  /** Every piped wiki-link contains a `|` and a `]]`. */
  lemma WikiLinkAnchors(t: string)
    ensures WikiLinkRule(t).Some? ==> '|' in t && HasPair(t, ']', ']')
  {
    if MatchWikiLink(t).Some? {
      var c := MatchWikiLink(t).value;
      var n := |WikiLink(c.first, c.second)|;
      assert t[2 + |c.first|] == '|';
      assert t[n - 2] == ']' && t[n - 1] == ']';
    }
  }

  /** A text without `|`, or without `]]`, is left unchanged. */
  lemma WikiLinksUnchanged(s: string)
    requires '|' !in s || !HasPair(s, ']', ']')
    ensures RewriteWikiLinks(s) == s
  {
    WikiLinkRuleSound();
    forall i | 0 <= i < |s| ensures WikiLinkRule(s[i..]).None? {
      WikiLinkAnchors(s[i..]);
      if HasPair(s[i..], ']', ']') { HasPairInSuffix(s, i, ']', ']'); }
    }
    SubstituteIdentity(s, WikiLinkRule);
  }

  // ---------------------------------------------------------------------------
  // Line 8: [[target]] becomes [target](target)

  /** The pattern `\[\[([^\]]+)\]\]` at the start of `s`. */
  function MatchBareWikiLink(s: string): (r: Option<Capture>)
    ensures r.Some? ==> BareWikiLink(r.value.first) <= s && Bracketed(r.value.first)
  {
    if |s| >= 2 && s[0] == '[' && s[1] == '[' then
      var j := RunEnd(s, 2, NotClose);
      if j > 2 && j + 1 < |s| && s[j] == ']' && s[j + 1] == ']' then
        BareWikiLinkSpelled(s, j);
        Some(Capture(s[2..j], []))
      else None
    else None
  }

  lemma BareWikiLinkSpelled(s: string, j: nat)
    requires 2 < j && j + 1 < |s|
    requires s[0] == '[' && s[1] == '[' && s[j] == ']' && s[j + 1] == ']'
    ensures BareWikiLink(s[2..j]) <= s
  {
    var t := s[2..j];
    var w := BareWikiLink(t);
    assert |w| == j + 2;
    forall i | 0 <= i < j + 2 ensures w[i] == s[i] {
      if 2 <= i < j {
        assert w[i] == t[i - 2];
      }
    }
    assert w == s[..j + 2];
  }

  lemma BareWikiLinkPieces(t: string, v: string)
    ensures var s := BareWikiLink(t) + v;
            var j := 2 + |t|;
            |s| == j + 2 + |v| && s[0] == '[' && s[1] == '[' && s[2..j] == t && s[j] == ']' && s[j + 1] == ']'
  {
    var s := BareWikiLink(t) + v;
    assert s == "[[" + t + "]]" + v;
  }

  lemma BareWikiLinkFound(t: string, v: string)
    requires Bracketed(t)
    ensures MatchBareWikiLink(BareWikiLink(t) + v) == Some(Capture(t, []))
  {
    BareWikiLinkPieces(t, v);
    RunEndAt(BareWikiLink(t) + v, 2, t, NotClose);
  }

  function BareWikiLinkRule(s: string): (r: Option<Hit>)
    ensures r.Some? ==> 0 < r.value.len <= |s|
  {
    match MatchBareWikiLink(s)
    case None => None
    case Some(c) => Some(Hit(|BareWikiLink(c.first)|, Link(c.first, c.first)))
  }

  lemma BareWikiLinkRuleSound()
    ensures Sound(BareWikiLinkRule)
  {
  }

  /** pandoc_processing.py line 8. */
  function RewriteBareWikiLinks(s: string): string {
    BareWikiLinkRuleSound();
    Substitute(s, BareWikiLinkRule)
  }

  /** `[[t]]` becomes `[t](t)`; the text before it, where no bare wiki-link
      starts, is kept. */
  lemma BareWikiLinkRewritten(u: string, t: string, v: string)
    requires Bracketed(t)
    requires NoMatchBefore(u + BareWikiLink(t) + v, |u|, BareWikiLinkRule)
    ensures RewriteBareWikiLinks(u + BareWikiLink(t) + v) == u + Link(t, t) + RewriteBareWikiLinks(v)
  {
    var tok := BareWikiLink(t);
    BareWikiLinkFound(t, v);
    BareWikiLinkRuleSound();
    AppendAssoc(u, tok, v);
    assert (tok + v)[|tok|..] == v;
    SubstituteAt(u, tok + v, BareWikiLinkRule, |tok|, Link(t, t));
  }

  lemma BareWikiLinkAnchors(t: string)
    ensures BareWikiLinkRule(t).Some? ==> HasPair(t, ']', ']')
  {
    if MatchBareWikiLink(t).Some? {
      var n := |BareWikiLink(MatchBareWikiLink(t).value.first)|;
      assert t[n - 2] == ']' && t[n - 1] == ']';
    }
  }

  /** A text without `]]` is left unchanged. */
  lemma BareWikiLinksUnchanged(s: string)
    requires !HasPair(s, ']', ']')
    ensures RewriteBareWikiLinks(s) == s
  {
    BareWikiLinkRuleSound();
    forall i | 0 <= i < |s| ensures BareWikiLinkRule(s[i..]).None? {
      BareWikiLinkAnchors(s[i..]);
      if HasPair(s[i..], ']', ']') { HasPairInSuffix(s, i, ']', ']'); }
    }
    SubstituteIdentity(s, BareWikiLinkRule);
  }

  // ---------------------------------------------------------------------------
  // Line 11: ![N](path) becomes ![](path){width=Npx}

  /** The pattern `!\[(\d+)\]\(([^\)]+)\)` at the start of `s`; the first group
      is the width, the second the path. */
  function MatchDigitAltImage(s: string): (r: Option<Capture>)
    ensures r.Some? ==> "!" + Link(r.value.first, r.value.second) <= s
    ensures r.Some? ==> Width(r.value.first) && ImagePath(r.value.second)
  {
    if |s| >= 2 && s[0] == '!' && s[1] == '[' then
      var j := RunEnd(s, 2, IsDigit);
      if j > 2 && j + 1 < |s| && s[j] == ']' && s[j + 1] == '(' then
        var k := RunEnd(s, j + 2, NotParen);
        if k > j + 2 && k < |s| && s[k] == ')' then
          DigitAltImageSpelled(s, j, k);
          Some(Capture(s[2..j], s[j + 2..k]))
        else None
      else None
    else None
  }

  /** The characters at the delimiters spell `![n](p)` with the groups between them. */
  lemma DigitAltImageSpelled(s: string, j: nat, k: nat)
    requires 2 < j && j + 2 < k < |s|
    requires s[0] == '!' && s[1] == '[' && s[j] == ']' && s[j + 1] == '(' && s[k] == ')'
    ensures "!" + Link(s[2..j], s[j + 2..k]) <= s
  {
    var n := s[2..j];
    var p := s[j + 2..k];
    var w := "!" + Link(n, p);
    assert w == "![" + n + "](" + p + ")";
    assert |w| == k + 1;
    forall i | 0 <= i < k + 1 ensures w[i] == s[i] {
      if 2 <= i < j {
        assert w[i] == n[i - 2];
      } else if j + 2 <= i < k {
        assert w[i] == p[i - j - 2];
      }
    }
    assert w == s[..k + 1];
  }

  /** Where the groups of `![n](p)` followed by `v` lie. */
  lemma DigitAltImagePieces(n: string, p: string, v: string)
    ensures var s := "!" + Link(n, p) + v;
            var j := 2 + |n|;
            |s| == j + 3 + |p| + |v| && s[0] == '!' && s[1] == '[' && s[2..j] == n && s[j] == ']' && s[j + 1] == '('
            && s[j + 2..j + 2 + |p|] == p && s[j + 2 + |p|] == ')'
  {
    var s := "!" + Link(n, p) + v;
    assert s == "![" + n + "](" + p + ")" + v;
  }

  lemma DigitAltImageFound(n: string, p: string, v: string)
    requires Width(n) && ImagePath(p)
    ensures MatchDigitAltImage("!" + Link(n, p) + v) == Some(Capture(n, p))
  {
    var s := "!" + Link(n, p) + v;
    var j := 2 + |n|;
    DigitAltImagePieces(n, p, v);
    RunEndAt(s, 2, n, IsDigit);
    RunEndAt(s, j + 2, p, NotParen);
  }

  function DigitAltImageRule(s: string): (r: Option<Hit>)
    ensures r.Some? ==> 0 < r.value.len <= |s|
  {
    match MatchDigitAltImage(s)
    case None => None
    case Some(c) => Some(Hit(|"!" + Link(c.first, c.second)|, SizedImage(c.second, c.first)))
  }

  lemma DigitAltImageRuleSound()
    ensures Sound(DigitAltImageRule)
  {
  }

  /** pandoc_processing.py line 11. */
  function RewriteDigitAltImages(s: string): string {
    DigitAltImageRuleSound();
    Substitute(s, DigitAltImageRule)
  }

  /** `![N](p)` becomes `![](p){width=Npx}`; the text before it, where no such
      image starts, is kept. */
  lemma DigitAltImageRewritten(u: string, n: string, p: string, v: string)
    requires Width(n) && ImagePath(p)
    requires NoMatchBefore(u + ("!" + Link(n, p)) + v, |u|, DigitAltImageRule)
    ensures RewriteDigitAltImages(u + ("!" + Link(n, p)) + v) == u + SizedImage(p, n) + RewriteDigitAltImages(v)
  {
    var tok := "!" + Link(n, p);
    DigitAltImageFound(n, p, v);
    DigitAltImageRuleSound();
    AppendAssoc(u, tok, v);
    assert (tok + v)[|tok|..] == v;
    SubstituteAt(u, tok + v, DigitAltImageRule, |tok|, SizedImage(p, n));
  }

  lemma DigitAltImageAnchors(t: string)
    ensures DigitAltImageRule(t).Some? ==> |t| > 1 && t[0] == '!' && t[1] == '['
  {
  }

  /** A text without `!` is left unchanged. */
  lemma DigitAltImagesUnchanged(s: string)
    requires '!' !in s
    ensures RewriteDigitAltImages(s) == s
  {
    DigitAltImageRuleSound();
    forall i | 0 <= i < |s| ensures DigitAltImageRule(s[i..]).None? {
      DigitAltImageAnchors(s[i..]);
      assert s[i..][0] == s[i];
    }
    SubstituteIdentity(s, DigitAltImageRule);
  }

  // ---------------------------------------------------------------------------
  // Line 14: ![[path|N]] becomes ![](path){width=Npx}

  /** The pattern `!\[\[([^|\]]+)\|(\d+)\]\]` at the start of `s`. */
  function MatchSizedEmbed(s: string): (r: Option<Capture>)
    ensures r.Some? ==> SizedEmbed(r.value.first, r.value.second) <= s
    ensures r.Some? ==> PipedTarget(r.value.first) && Width(r.value.second)
  {
    if |s| >= 3 && s[0] == '!' && s[1] == '[' && s[2] == '[' then
      var j := RunEnd(s, 3, NotBarOrClose);
      if j > 3 && j < |s| && s[j] == '|' then
        var k := RunEnd(s, j + 1, IsDigit);
        if k > j + 1 && k + 1 < |s| && s[k] == ']' && s[k + 1] == ']' then
          SizedEmbedSpelled(s, j, k);
          Some(Capture(s[3..j], s[j + 1..k]))
        else None
      else None
    else None
  }

  lemma SizedEmbedSpelled(s: string, j: nat, k: nat)
    requires 3 < j && j + 1 < k && k + 1 < |s|
    requires s[0] == '!' && s[1] == '[' && s[2] == '[' && s[j] == '|' && s[k] == ']' && s[k + 1] == ']'
    ensures SizedEmbed(s[3..j], s[j + 1..k]) <= s
  {
    var p := s[3..j];
    var n := s[j + 1..k];
    var w := SizedEmbed(p, n);
    assert |w| == k + 2;
    forall i | 0 <= i < k + 2 ensures w[i] == s[i] {
      if 3 <= i < j {
        assert w[i] == p[i - 3];
      } else if j + 1 <= i < k {
        assert w[i] == n[i - j - 1];
      }
    }
    assert w == s[..k + 2];
  }

  lemma SizedEmbedPieces(p: string, n: string, v: string)
    ensures var s := SizedEmbed(p, n) + v;
            var j := 3 + |p|;
            |s| == j + 3 + |n| + |v| && s[0] == '!' && s[1] == '[' && s[2] == '[' && s[3..j] == p && s[j] == '|'
            && s[j + 1..j + 1 + |n|] == n && s[j + 1 + |n|] == ']' && s[j + 2 + |n|] == ']'
  {
    var s := SizedEmbed(p, n) + v;
    assert s == "![[" + p + "|" + n + "]]" + v;
  }

  lemma SizedEmbedFound(p: string, n: string, v: string)
    requires PipedTarget(p) && Width(n)
    ensures MatchSizedEmbed(SizedEmbed(p, n) + v) == Some(Capture(p, n))
  {
    var s := SizedEmbed(p, n) + v;
    var j := 3 + |p|;
    SizedEmbedPieces(p, n, v);
    RunEndAt(s, 3, p, NotBarOrClose);
    RunEndAt(s, j + 1, n, IsDigit);
  }

  function SizedEmbedRule(s: string): (r: Option<Hit>)
    ensures r.Some? ==> 0 < r.value.len <= |s|
  {
    match MatchSizedEmbed(s)
    case None => None
    case Some(c) => Some(Hit(|SizedEmbed(c.first, c.second)|, SizedImage(c.first, c.second)))
  }

  lemma SizedEmbedRuleSound()
    ensures Sound(SizedEmbedRule)
  {
  }

  /** pandoc_processing.py line 14. */
  function RewriteSizedEmbeds(s: string): string {
    SizedEmbedRuleSound();
    Substitute(s, SizedEmbedRule)
  }

  /** `![[p|N]]` becomes `![](p){width=Npx}`; the text before it, where no
      sized embed starts, is kept. */
  lemma SizedEmbedRewritten(u: string, p: string, n: string, v: string)
    requires PipedTarget(p) && Width(n)
    requires NoMatchBefore(u + SizedEmbed(p, n) + v, |u|, SizedEmbedRule)
    ensures RewriteSizedEmbeds(u + SizedEmbed(p, n) + v) == u + SizedImage(p, n) + RewriteSizedEmbeds(v)
  {
    var tok := SizedEmbed(p, n);
    SizedEmbedFound(p, n, v);
    SizedEmbedRuleSound();
    AppendAssoc(u, tok, v);
    assert (tok + v)[|tok|..] == v;
    SubstituteAt(u, tok + v, SizedEmbedRule, |tok|, SizedImage(p, n));
  }

  lemma SizedEmbedAnchors(t: string)
    ensures SizedEmbedRule(t).Some? ==> HasPair(t, ']', ']')
  {
    if MatchSizedEmbed(t).Some? {
      var c := MatchSizedEmbed(t).value;
      var n := |SizedEmbed(c.first, c.second)|;
      assert t[n - 2] == ']' && t[n - 1] == ']';
    }
  }

  /** A text without `]]` is left unchanged. */
  lemma SizedEmbedsUnchanged(s: string)
    requires !HasPair(s, ']', ']')
    ensures RewriteSizedEmbeds(s) == s
  {
    SizedEmbedRuleSound();
    forall i | 0 <= i < |s| ensures SizedEmbedRule(s[i..]).None? {
      SizedEmbedAnchors(s[i..]);
      if HasPair(s[i..], ']', ']') { HasPairInSuffix(s, i, ']', ']'); }
    }
    SubstituteIdentity(s, SizedEmbedRule);
  }

  // ---------------------------------------------------------------------------
  // Line 15: ![[path]] becomes ![](path)

  /** The pattern `!\[\[([^\]]+)\]\]` at the start of `s`. */
  function MatchPlainEmbed(s: string): (r: Option<Capture>)
    ensures r.Some? ==> PlainEmbed(r.value.first) <= s && Bracketed(r.value.first)
  {
    if |s| >= 3 && s[0] == '!' && s[1] == '[' && s[2] == '[' then
      var j := RunEnd(s, 3, NotClose);
      if j > 3 && j + 1 < |s| && s[j] == ']' && s[j + 1] == ']' then
        PlainEmbedSpelled(s, j);
        Some(Capture(s[3..j], []))
      else None
    else None
  }

  lemma PlainEmbedSpelled(s: string, j: nat)
    requires 3 < j && j + 1 < |s|
    requires s[0] == '!' && s[1] == '[' && s[2] == '[' && s[j] == ']' && s[j + 1] == ']'
    ensures PlainEmbed(s[3..j]) <= s
  {
    var p := s[3..j];
    var w := PlainEmbed(p);
    assert |w| == j + 2;
    forall i | 0 <= i < j + 2 ensures w[i] == s[i] {
      if 3 <= i < j {
        assert w[i] == p[i - 3];
      }
    }
    assert w == s[..j + 2];
  }

  lemma PlainEmbedPieces(p: string, v: string)
    ensures var s := PlainEmbed(p) + v;
            var j := 3 + |p|;
            |s| == j + 2 + |v| && s[0] == '!' && s[1] == '[' && s[2] == '[' && s[3..j] == p && s[j] == ']' && s[j + 1] == ']'
  {
    var s := PlainEmbed(p) + v;
    assert s == "![[" + p + "]]" + v;
  }

  lemma PlainEmbedFound(p: string, v: string)
    requires Bracketed(p)
    ensures MatchPlainEmbed(PlainEmbed(p) + v) == Some(Capture(p, []))
  {
    PlainEmbedPieces(p, v);
    RunEndAt(PlainEmbed(p) + v, 3, p, NotClose);
  }

  function PlainEmbedRule(s: string): (r: Option<Hit>)
    ensures r.Some? ==> 0 < r.value.len <= |s|
  {
    match MatchPlainEmbed(s)
    case None => None
    case Some(c) => Some(Hit(|PlainEmbed(c.first)|, PlainImage(c.first)))
  }

  lemma PlainEmbedRuleSound()
    ensures Sound(PlainEmbedRule)
  {
  }

  /** pandoc_processing.py line 15. */
  function RewritePlainEmbeds(s: string): string {
    PlainEmbedRuleSound();
    Substitute(s, PlainEmbedRule)
  }

  /** `![[p]]` becomes `![](p)`; the text before it, where no plain embed
      starts, is kept. */
  lemma PlainEmbedRewritten(u: string, p: string, v: string)
    requires Bracketed(p)
    requires NoMatchBefore(u + PlainEmbed(p) + v, |u|, PlainEmbedRule)
    ensures RewritePlainEmbeds(u + PlainEmbed(p) + v) == u + PlainImage(p) + RewritePlainEmbeds(v)
  {
    var tok := PlainEmbed(p);
    PlainEmbedFound(p, v);
    PlainEmbedRuleSound();
    AppendAssoc(u, tok, v);
    assert (tok + v)[|tok|..] == v;
    SubstituteAt(u, tok + v, PlainEmbedRule, |tok|, PlainImage(p));
  }

  lemma PlainEmbedAnchors(t: string)
    ensures PlainEmbedRule(t).Some? ==> HasPair(t, ']', ']')
  {
    if MatchPlainEmbed(t).Some? {
      var n := |PlainEmbed(MatchPlainEmbed(t).value.first)|;
      assert t[n - 2] == ']' && t[n - 1] == ']';
    }
  }

  /** A text without `]]` is left unchanged. */
  lemma PlainEmbedsUnchanged(s: string)
    requires !HasPair(s, ']', ']')
    ensures RewritePlainEmbeds(s) == s
  {
    PlainEmbedRuleSound();
    forall i | 0 <= i < |s| ensures PlainEmbedRule(s[i..]).None? {
      PlainEmbedAnchors(s[i..]);
      if HasPair(s[i..], ']', ']') { HasPairInSuffix(s, i, ']', ']'); }
    }
    SubstituteIdentity(s, PlainEmbedRule);
  }

  // ---------------------------------------------------------------------------
  // Line 17: > [!tip] rest becomes > rest

  /** The pattern `> \[!(TIP|Tip|tip)\] (.+)` under `re.IGNORECASE` at the start
      of `s`: `.` stops at a line feed, so the match ends at the end of the line. */
  function MatchTipCallout(s: string): (r: Option<Capture>)
    ensures r.Some? ==> TipCallout(r.value.first, r.value.second) <= s
    ensures r.Some? ==> TipTag(r.value.first) && LineRest(r.value.second)
    ensures r.Some? ==> var n := |TipCallout(r.value.first, r.value.second)|; n == |s| || s[n] == '\n'
  {
    if |s| >= 9 && s[0] == '>' && s[1] == ' ' && s[2] == '[' && s[3] == '!' && TipTag(s[4..7])
       && s[7] == ']' && s[8] == ' '
    then
      var k := RunEnd(s, 9, NotNewline);
      if k > 9 then
        TipCalloutSpelled(s, k);
        Some(Capture(s[4..7], s[9..k]))
      else None
    else None
  }

  lemma TipCalloutFound(tag: string, rest: string, v: string)
    requires TipTag(tag) && LineRest(rest)
    requires v == [] || v[0] == '\n'
    ensures MatchTipCallout(TipCallout(tag, rest) + v) == Some(Capture(tag, rest))
  {
    var s := TipCallout(tag, rest) + v;
    TipCalloutPieces(tag, rest, v);
    RunEndAt(s, 9, rest, NotNewline);
  }

  lemma TipCalloutSpelled(s: string, k: nat)
    requires 9 < k <= |s|
    requires s[0] == '>' && s[1] == ' ' && s[2] == '[' && s[3] == '!' && s[7] == ']' && s[8] == ' '
    ensures TipCallout(s[4..7], s[9..k]) <= s
  {
    var tag := s[4..7];
    var rest := s[9..k];
    var w := TipCallout(tag, rest);
    assert |w| == k;
    forall i | 0 <= i < k ensures w[i] == s[i] {
      if 4 <= i < 7 {
        assert w[i] == tag[i - 4];
      } else if 9 <= i {
        assert w[i] == rest[i - 9];
      }
    }
    assert w == s[..k];
  }

  lemma TipCalloutPieces(tag: string, rest: string, v: string)
    requires |tag| == 3
    ensures var s := TipCallout(tag, rest) + v;
            |s| == 9 + |rest| + |v| && s[0] == '>' && s[1] == ' ' && s[2] == '[' && s[3] == '!' && s[4..7] == tag
            && s[7] == ']' && s[8] == ' ' && s[9..9 + |rest|] == rest && (v != [] ==> s[9 + |rest|] == v[0])
  {
    var s := TipCallout(tag, rest) + v;
    assert s == "> [!" + tag + "] " + rest + v;
  }

  function TipCalloutRule(s: string): (r: Option<Hit>)
    ensures r.Some? ==> 0 < r.value.len <= |s|
  {
    match MatchTipCallout(s)
    case None => None
    case Some(c) => Some(Hit(|TipCallout(c.first, c.second)|, Blockquote(c.second)))
  }

  lemma TipCalloutRuleSound()
    ensures Sound(TipCalloutRule)
  {
  }

  /** pandoc_processing.py line 17. */
  function RewriteTipCallouts(s: string): string {
    TipCalloutRuleSound();
    Substitute(s, TipCalloutRule)
  }

  /** `> [!tip] rest` (any letter case of `tip`) becomes `> rest`, where `rest`
      is the rest of its line; the text before it, where no callout starts, is
      kept. */
  lemma TipCalloutRewritten(u: string, tag: string, rest: string, v: string)
    requires TipTag(tag) && LineRest(rest)
    requires v == [] || v[0] == '\n'
    requires NoMatchBefore(u + TipCallout(tag, rest) + v, |u|, TipCalloutRule)
    ensures RewriteTipCallouts(u + TipCallout(tag, rest) + v) == u + Blockquote(rest) + RewriteTipCallouts(v)
  {
    var tok := TipCallout(tag, rest);
    TipCalloutFound(tag, rest, v);
    TipCalloutRuleSound();
    AppendAssoc(u, tok, v);
    assert (tok + v)[|tok|..] == v;
    SubstituteAt(u, tok + v, TipCalloutRule, |tok|, Blockquote(rest));
  }

  lemma TipCalloutAnchors(t: string)
    ensures TipCalloutRule(t).Some? ==> HasPair(t, '[', '!') && HasPair(t, ']', ' ')
  {
    if MatchTipCallout(t).Some? {
      assert t[2] == '[' && t[3] == '!';
      assert t[7] == ']' && t[8] == ' ';
    }
  }

  /** A text without `[!`, or without `] `, is left unchanged. */
  lemma TipCalloutsUnchanged(s: string)
    requires !HasPair(s, '[', '!') || !HasPair(s, ']', ' ')
    ensures RewriteTipCallouts(s) == s
  {
    TipCalloutRuleSound();
    forall i | 0 <= i < |s| ensures TipCalloutRule(s[i..]).None? {
      TipCalloutAnchors(s[i..]);
      if HasPair(s[i..], '[', '!') { HasPairInSuffix(s, i, '[', '!'); }
      if HasPair(s[i..], ']', ' ') { HasPairInSuffix(s, i, ']', ' '); }
    }
    SubstituteIdentity(s, TipCalloutRule);
  }

  // ---------------------------------------------------------------------------
  // Line 18: a space after a leading run of one to six '#', on every line

  predicate IsHash(c: char) { c == '#' }

  /** `^(#{1,6})([^#\s])` replaced by `\1 \2` on one line. The run `#{1,6}` can
      only be followed by a character other than `#` when it is the whole
      leading run of `#`, so the pattern matches exactly when that run has one
      to six characters and is followed by a character that is not whitespace. */
  function SpaceAfterHashes(line: string): string {
    var n := RunEnd(line, 0, IsHash);
    if 1 <= n <= 6 && n < |line| && !IsSpace(line[n]) then line[..n] + " " + line[n..] else line
  }

  /** A line opening with one to six `#` and then a character that is
      neither `#` nor whitespace gets one space after the `#` run. */
  lemma SpaceInserted(line: string, n: nat)
    requires 1 <= n <= 6 && n < |line| && All(line[..n], IsHash)
    requires line[n] != '#' && !IsSpace(line[n])
    ensures SpaceAfterHashes(line) == line[..n] + " " + line[n..]
  {
    RunEndAt(line, 0, line[..n], IsHash);
  }

  /** Every other line is left as it is: one that does not open with `#`,
      one whose `#` run is followed by whitespace or ends the line, and one
      that opens with seven or more `#`. */
  lemma SpaceNotInserted(line: string)
    requires forall n :: 1 <= n <= 6 && n < |line| && All(line[..n], IsHash) && line[n] != '#' ==> IsSpace(line[n])
    ensures SpaceAfterHashes(line) == line
  {
    var n := RunEnd(line, 0, IsHash);
    assert All(line[..n], IsHash);
  }

  lemma SevenHashesUnchanged(line: string)
    requires |line| >= 7 && All(line[..7], IsHash)
    ensures SpaceAfterHashes(line) == line
  {
  }

  /** Putting the space in twice changes nothing. */
  lemma SpaceAfterHashesIdempotent(line: string)
    ensures SpaceAfterHashes(SpaceAfterHashes(line)) == SpaceAfterHashes(line)
  {
    var n := RunEnd(line, 0, IsHash);
    if 1 <= n <= 6 && n < |line| && !IsSpace(line[n]) {
      var r := line[..n] + " " + line[n..];
      assert r[..n] == line[..n] && r[n] == ' ';
      RunEndAt(r, 0, line[..n], IsHash);
    }
  }

  /** The rule adds no line feed. */
  lemma SpaceAfterHashesKeepsLine(line: string)
    requires NoNewline(line)
    ensures NoNewline(SpaceAfterHashes(line))
  {
    var n := RunEnd(line, 0, IsHash);
    if 1 <= n <= 6 && n < |line| && !IsSpace(line[n]) {
      var r := line[..n] + " " + line[n..];
      forall k | 0 <= k < |r| ensures r[k] != '\n' {
        if k < n { assert r[k] == line[k]; }
        else if k > n { assert r[k] == line[k - 1]; }
      }
    }
  }

  function MapSpaceAfterHashes(lines: seq<string>): (r: seq<string>)
    ensures |r| == |lines|
  {
    seq(|lines|, k requires 0 <= k < |lines| => SpaceAfterHashes(lines[k]))
  }

  /** pandoc_processing.py line 18: `re.MULTILINE` makes `^` match at the start
      of every line, and a match never spans a line feed, so the rule is the
      line rule applied to every line. */
  function SpaceHeaders(s: string): string {
    Join(MapSpaceAfterHashes(Split(s)))
  }

  /** The lines of the result are the input's lines, each with the rule
      applied. */
  lemma SpaceHeadersLines(s: string)
    ensures Split(SpaceHeaders(s)) == MapSpaceAfterHashes(Split(s))
  {
    var lines := MapSpaceAfterHashes(Split(s));
    forall k | 0 <= k < |lines| ensures NoNewline(lines[k]) {
      SpaceAfterHashesKeepsLine(Split(s)[k]);
    }
    SplitJoin(lines);
  }

  /** Applying the rule twice gives the same text as applying it once. */
  lemma SpaceHeadersIdempotent(s: string)
    ensures SpaceHeaders(SpaceHeaders(s)) == SpaceHeaders(s)
  {
    var once := MapSpaceAfterHashes(Split(s));
    SpaceHeadersLines(s);
    var twice := MapSpaceAfterHashes(once);
    forall k | 0 <= k < |once| ensures twice[k] == once[k] {
      SpaceAfterHashesIdempotent(Split(s)[k]);
    }
    assert twice == once;
  }

  // ---------------------------------------------------------------------------
  // The rewrites in the order of pandoc_processing.py lines 7-18

  /** Lines 7-17: links, images and callouts. */
  function RewriteMarkup(s: string): string {
    RewriteTipCallouts(RewritePlainEmbeds(RewriteSizedEmbeds(RewriteDigitAltImages(
      RewriteBareWikiLinks(RewriteWikiLinks(s))))))
  }

  /** Lines 7-18: all rewrites that run before the text is split into lines. */
  function RewriteAll(s: string): string {
    SpaceHeaders(RewriteMarkup(s))
  }

  /** A text with no `]]` and no `!` holds nothing that any rule of lines
      7-17 can match, so it passes all six unchanged. */
  lemma MarkupFreeUnchanged(s: string)
    requires !HasPair(s, ']', ']') && '!' !in s
    ensures RewriteMarkup(s) == s
  {
    WikiLinksUnchanged(s);
    BareWikiLinksUnchanged(s);
    DigitAltImagesUnchanged(s);
    SizedEmbedsUnchanged(s);
    PlainEmbedsUnchanged(s);
    assert !HasPair(s, '[', '!');
    TipCalloutsUnchanged(s);
  }

  /** Line 18 still rewrites such text: `#x`, for any character `x` other
      than `#`, whitespace and `!`, passes lines 7-17 unchanged and
      comes out of line 18 as `# x`. */
  lemma MarkupFreeHeaderSpaced(x: char)
    requires x != '#' && !IsSpace(x) && x != '!'
    ensures RewriteMarkup(['#', x]) == ['#', x] && RewriteAll(['#', x]) == ['#', ' ', x]
  {
    var s := ['#', x];
    MarkupFreeUnchanged(s);
    SpaceInserted(s, 1);
    assert s[..1] + " " + s[1..] == ['#', ' ', x];
    SpaceHeadersOneLine(s, ['#', ' ', x]);
  }

  /** Line 18 on a text of one line is the line rule. */
  lemma SpaceHeadersOneLine(line: string, r: string)
    requires NoNewline(line) && SpaceAfterHashes(line) == r
    ensures SpaceHeaders(line) == r
  {
    SplitJoin([line]);
    assert MapSpaceAfterHashes([line]) == [r];
  }
}
