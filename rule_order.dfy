/** What the chain of rewrites at pandoc_processing.py lines 7-17 does to
    Obsidian image embeds. The link rules of lines 7-8 run first and also
    match the `[[...]]` inside `![[...]]`, so for the embeds of the lemmas
    below the embed has become a standard image before the embed rules of
    lines 14-15 are reached. (Nested brackets can still leave text that
    lines 14-15 match: line 8 turns `[[![[a]]]]` into `[![[a](![[a)]]`.) */
module RuleOrder {
  import opened Text
  import opened Rewrites

  /** The characters of `![n](p)`, position by position. */
  lemma ImageChars(n: string, p: string)
    ensures var s := "!" + Link(n, p);
            var at := 2 + |n|;
            |s| == at + 3 + |p| && s[0] == '!' && s[1] == '[' && s[at] == ']' && s[at + 1] == '(' && s[|s| - 1] == ')'
            && (forall k :: 2 <= k < at ==> s[k] == n[k - 2])
            && (forall k :: at + 2 <= k < at + 2 + |p| ==> s[k] == p[k - at - 2])
  {
    var s := "!" + Link(n, p);
    assert s == "![" + n + "](" + p + ")";
  }

  /** Every `]` of `![n](p)` is the one before `(` when neither part holds a `]`. */
  lemma ImageClosesBeforeParen(n: string, p: string)
    requires All(n, NotClose) && All(p, NotClose)
    ensures ClosesBeforeParen("!" + Link(n, p))
  {
    ImageChars(n, p);
  }

  /** The characters of `![](p){width=Npx}`, position by position. */
  lemma SizedImageChars(p: string, n: string)
    ensures var s := SizedImage(p, n);
            var q := 4 + |p|;
            |s| == q + 11 + |n| && s[0] == '!' && s[1] == '[' && s[2] == ']' && s[3] == '('
            && (forall k :: 4 <= k < q ==> s[k] == p[k - 4])
            && s[q] == ')' && s[q + 1] == '{' && s[q + 2] == 'w' && s[q + 3] == 'i' && s[q + 4] == 'd'
            && s[q + 5] == 't' && s[q + 6] == 'h' && s[q + 7] == '='
            && (forall k :: q + 8 <= k < q + 8 + |n| ==> s[k] == n[k - q - 8])
            && s[q + 8 + |n|] == 'p' && s[q + 9 + |n|] == 'x' && s[q + 10 + |n|] == '}'
  {
    var s := SizedImage(p, n);
    assert s == "![](" + p + "){width=" + n + "px}";
  }

  /** The same for `![](p){width=Npx}`. */
  lemma SizedImageClosesBeforeParen(p: string, n: string)
    requires All(p, NotClose) && All(n, NotClose)
    ensures ClosesBeforeParen(SizedImage(p, n))
  {
    SizedImageChars(p, n);
  }

  lemma DigitsNotClose(n: string)
    requires All(n, IsDigit)
    ensures All(n, NotClose)
  {
  }

  /** The embed rules and the callout rule leave a text alone when every `]`
      in it opens a parenthesised target. */
  lemma LaterRulesKeep(s: string)
    requires ClosesBeforeParen(s)
    ensures RewriteTipCallouts(RewritePlainEmbeds(RewriteSizedEmbeds(s))) == s
  {
    ClosesBeforeParenPairs(s);
    SizedEmbedsUnchanged(s);
    PlainEmbedsUnchanged(s);
    TipCalloutsUnchanged(s);
  }

  /** `![[p|N]]`, with `p` non-empty and free of `|`, `]` and `)` and `N`
      one or more digits, ends up as `![](p){width=Npx}`: line 7 turns it
      into `![N](p)` and line 11 gives the image its width. (An empty `p` is
      not matched by line 7, and line 8 then gives `![|N](|N)`.) */
  lemma SizedEmbedBecomesSizedImage(p: string, n: string)
    requires PipedTarget(p) && ImagePath(p) && Width(n)
    ensures RewriteMarkup("!" + WikiLink(p, n)) == SizedImage(p, n)
  {
    DigitsNotClose(n);
    var s := "!" + WikiLink(p, n);
    assert s + [] == s;
    assert s[0..][0] == '!';
    WikiLinkRewritten("!", p, n, []);
    var step1 := "!" + Link(n, p);
    assert RewriteWikiLinks(s) == step1;

    ImageClosesBeforeParen(n, p);
    ClosesBeforeParenPairs(step1);
    BareWikiLinksUnchanged(step1);

    assert [] + step1 + [] == step1;
    DigitAltImageRewritten([], n, p, []);
    assert [] + SizedImage(p, n) + [] == SizedImage(p, n);
    assert RewriteDigitAltImages(step1) == SizedImage(p, n);

    SizedImageClosesBeforeParen(p, n);
    LaterRulesKeep(SizedImage(p, n));
  }

  /** `![[p]]`, for a path with no `|`, no `![` and not all digits, ends up
      as `![p](p)`: line 8 rewrites the `[[p]]` inside it and none of the
      later rules applies. */
  lemma PlainEmbedBecomesLabelledImage(p: string)
    requires Bracketed(p) && '|' !in p && !HasPair(p, '!', '[')
    requires exists k :: 0 <= k < |p| && !IsDigit(p[k])
    ensures RewriteMarkup(PlainEmbed(p)) == "!" + Link(p, p)
  {
    var s := PlainEmbed(p);
    assert s == "!" + BareWikiLink(p) + [];
    assert s == "![[" + p + "]]";
    assert forall k :: 3 <= k < 3 + |p| ==> s[k] == p[k - 3];
    assert '|' !in s;
    WikiLinksUnchanged(s);

    assert s[0..][0] == '!';
    BareWikiLinkRewritten("!", p, []);
    var step2 := "!" + Link(p, p);
    assert RewriteBareWikiLinks(s) == step2;

    LabelledImageKept(p);

    ImageClosesBeforeParen(p, p);
    LaterRulesKeep(step2);
  }

  /** Line 11 leaves `![p](p)` alone when `p` is non-empty, has no `]`, has a
      character that is not a digit and has no `![`: then the only `![` is the one at the start, and the
      digit run after it stops before the `]`. (A `![` in `p` not followed
      by digits and `](` would do no harm either; the condition is the simple
      sufficient one.) */
  lemma LabelledImageKept(p: string)
    requires Bracketed(p) && !HasPair(p, '!', '[')
    requires exists k :: 0 <= k < |p| && !IsDigit(p[k])
    ensures RewriteDigitAltImages("!" + Link(p, p)) == "!" + Link(p, p)
  {
    var s := "!" + Link(p, p);
    DigitAltImageRuleSound();
    LabelledImageNoMatchAtStart(p);
    assert s[0..] == s;
    LabelledImageOneOpening(p);
    forall i | 0 < i < |s| ensures DigitAltImageRule(s[i..]).None? {
      DigitAltImageAnchors(s[i..]);
      if i < |s| - 1 {
        assert s[i..][0] == s[i] && s[i..][1] == s[i + 1];
      }
    }
    SubstituteIdentity(s, DigitAltImageRule);
  }

  /** The only `![` of `![p](p)` is the one at the start when `p` has none. */
  lemma LabelledImageOneOpening(p: string)
    requires !HasPair(p, '!', '[')
    ensures var s := "!" + Link(p, p);
            forall i :: 0 < i < |s| - 1 ==> !(s[i] == '!' && s[i + 1] == '[')
  {
    var s := "!" + Link(p, p);
    ImageChars(p, p);
    forall i | 0 < i < |s| - 1 ensures !(s[i] == '!' && s[i + 1] == '[') {
      if 2 <= i < 1 + |p| {
        assert s[i] == p[i - 2] && s[i + 1] == p[i - 1];
      } else if 4 + |p| <= i < 3 + 2 * |p| {
        assert s[i] == p[i - 4 - |p|] && s[i + 1] == p[i - 3 - |p|];
      }
    }
  }

  /** The digit run after `![` stops at a character of `p` other than `]`. */
  lemma LabelledImageNoMatchAtStart(p: string)
    requires Bracketed(p)
    requires exists k :: 0 <= k < |p| && !IsDigit(p[k])
    ensures MatchDigitAltImage("!" + Link(p, p)).None?
  {
    var s := "!" + Link(p, p);
    ImageChars(p, p);
    var d := RunEnd(s, 2, IsDigit);
    var k :| 0 <= k < |p| && !IsDigit(p[k]);
    assert !IsDigit(s[2 + k]);
    assert d <= 2 + k;
    assert s[d] == p[d - 2];
  }

  /** `![[N]]` with an all-digit name ends up as `![](N){width=Npx}`: line 8
      gives `![N](N)`, which line 11 reads as an image of width `N`. */
  lemma DigitEmbedBecomesSizedImage(n: string)
    requires Width(n)
    ensures RewriteMarkup(PlainEmbed(n)) == SizedImage(n, n)
  {
    DigitsNotClose(n);
    var s := PlainEmbed(n);
    assert s == "!" + BareWikiLink(n) + [];
    assert s == "![[" + n + "]]";
    assert forall k :: 3 <= k < 3 + |n| ==> s[k] == n[k - 3];
    assert '|' !in s;
    WikiLinksUnchanged(s);

    assert s[0..][0] == '!';
    BareWikiLinkRewritten("!", n, []);
    var step2 := "!" + Link(n, n);
    assert RewriteBareWikiLinks(s) == step2;

    assert ImagePath(n);
    assert [] + step2 + [] == step2;
    DigitAltImageRewritten([], n, n, []);
    assert [] + SizedImage(n, n) + [] == SizedImage(n, n);

    SizedImageClosesBeforeParen(n, n);
    LaterRulesKeep(SizedImage(n, n));
  }
}
