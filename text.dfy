/** Character classes and the string operations of Python's `str` that the
    normalizer relies on: `lstrip`, `strip`, `split('\n')` and `'\n'.join`.

    Whitespace is the fixed ASCII set space, tab, line feed, carriage return,
    form feed and vertical tab; it stands for both `str.isspace` (used by
    `strip`/`lstrip`) and the regular-expression class `\s`. */
module Text {

  predicate IsSpace(c: char) {
    c == ' ' || c == '\t' || c == '\n' || c == '\r' || c == '\U{000C}' || c == '\U{000B}'
  }

  /** The regular-expression class `\d`, restricted to ASCII digits. */
  predicate IsDigit(c: char) {
    '0' <= c <= '9'
  }

  /** Every character of `s` satisfies `p`. */
  predicate All(s: string, p: char -> bool) {
    forall k :: 0 <= k < |s| ==> p(s[k])
  }

  /** The end of the longest run of characters satisfying `p` that starts at
      index `i`: how far a greedy character-class repetition such as `\d+`
      or `[^\]]+` reaches. */
  function RunEnd(s: string, i: nat, p: char -> bool): (j: nat)
    requires i <= |s|
    ensures i <= j <= |s|
    ensures forall k :: i <= k < j ==> p(s[k])
    ensures j == |s| || !p(s[j])
    decreases |s| - i
  {
    if i < |s| && p(s[i]) then RunEnd(s, i + 1, p) else i
  }

  /** A run is determined by where it stops: if `w` is written at `i`, is made
      of characters satisfying `p` and is followed by the end of `s` or by a
      character that does not, the run starting at `i` is exactly `w`. */
  lemma RunEndAt(s: string, i: nat, w: string, p: char -> bool)
    requires i + |w| <= |s| && s[i..i + |w|] == w && All(w, p)
    requires i + |w| == |s| || !p(s[i + |w|])
    ensures RunEnd(s, i, p) == i + |w|
  {
    forall k | i <= k < i + |w| ensures p(s[k]) {
      assert s[k] == w[k - i];
    }
  }

  predicate NoNewline(s: string) {
    forall k :: 0 <= k < |s| ==> s[k] != '\n'
  }

  predicate AllNoNewline(lines: seq<string>) {
    forall k :: 0 <= k < |lines| ==> NoNewline(lines[k])
  }

  predicate AllSpace(s: string) {
    forall k :: 0 <= k < |s| ==> IsSpace(s[k])
  }

  /** `s.lstrip()`. */
  function Lstrip(s: string): string {
    if s != [] && IsSpace(s[0]) then Lstrip(s[1..]) else s
  }

  /** `s.rstrip()`. */
  function Rstrip(s: string): string {
    if s != [] && IsSpace(s[|s| - 1]) then Rstrip(s[..|s| - 1]) else s
  }

  /** `s.strip()`. */
  function Strip(s: string): string {
    Rstrip(Lstrip(s))
  }

  /** `s.lstrip()` is the longest suffix of `s` that does not start with
      whitespace: what it drops is whitespace, and it is empty exactly when
      `s` is whitespace only. */
  lemma {:induction false} LstripSpec(s: string)
    ensures var r := Lstrip(s);
            |r| <= |s| && r == s[|s| - |r|..] && (r == [] || !IsSpace(r[0]))
            && AllSpace(s[..|s| - |r|]) && (r == [] <==> AllSpace(s))
    decreases |s|
  {
    if s != [] && IsSpace(s[0]) {
      LstripSpec(s[1..]);
      var r := Lstrip(s);
      assert s[..|s| - |r|] == [s[0]] + s[1..][..|s| - 1 - |r|];
    }
  }

  /** `s.rstrip()` is the longest prefix of `s` that does not end with
      whitespace, and it is empty exactly when `s` is whitespace only. */
  lemma {:induction false} RstripSpec(s: string)
    ensures var r := Rstrip(s);
            |r| <= |s| && r == s[..|r|] && (r == [] || !IsSpace(r[|r| - 1]))
            && AllSpace(s[|r|..]) && (r == [] <==> AllSpace(s))
    decreases |s|
  {
    if s != [] && IsSpace(s[|s| - 1]) {
      var t := s[..|s| - 1];
      RstripSpec(t);
      var r := Rstrip(s);
      assert s[|r|..] == t[|r|..] + [s[|s| - 1]];
      assert r == t[..|r|];
      assert AllSpace(s) <==> AllSpace(t) by {
        assert s == t + [s[|s| - 1]];
      }
    }
  }

  /** `s.strip()` is the empty string (falsy in Python) exactly when `s` is
      made of whitespace only. */
  lemma StripEmptyIffAllSpace(s: string)
    ensures Strip(s) == [] <==> AllSpace(s)
  {
    LstripSpec(s);
    RstripSpec(Lstrip(s));
  }

  lemma AppendAssoc(a: string, b: string, c: string)
    ensures a + b + c == a + (b + c)
  {
  }

  /** `s.split('\n')`: the pieces of `s` between line feeds, always at least one. */
  function Split(s: string): (lines: seq<string>)
    ensures |lines| >= 1
    ensures AllNoNewline(lines)
    decreases |s|
  {
    if s == [] then [[]]
    else
      var rest := Split(s[1..]);
      if s[0] == '\n' then [[]] + rest
      else [[s[0]] + rest[0]] + rest[1..]
  }

  /** `'\n'.join(lines)`. */
  function Join(lines: seq<string>): string {
    if |lines| == 0 then []
    else if |lines| == 1 then lines[0]
    else lines[0] + "\n" + Join(lines[1..])
  }

  /** Joining the pieces of a split gives the original text back. */
  lemma {:induction false} JoinSplit(s: string)
    ensures Join(Split(s)) == s
    decreases |s|
  {
    if s != [] {
      var rest := Split(s[1..]);
      JoinSplit(s[1..]);
      if s[0] == '\n' {
        assert Split(s) == [[]] + rest;
        assert ([[]] + rest)[1..] == rest;
      } else {
        var lines := [[s[0]] + rest[0]] + rest[1..];
        assert Split(s) == lines;
        if |rest| == 1 {
          assert Join(rest) == rest[0];
        } else {
          assert lines[1..] == rest[1..];
          assert Join(rest) == rest[0] + "\n" + Join(rest[1..]);
        }
      }
    }
  }

  /** Splitting a text that starts with a newline-free piece `a`. */
  lemma {:induction false} SplitPrefix(a: string, t: string)
    requires NoNewline(a)
    ensures Split(a + t) == [a + Split(t)[0]] + Split(t)[1..]
    decreases |a|
  {
    if a != [] {
      assert (a + t)[1..] == a[1..] + t;
      assert (a + t)[0] == a[0];
      SplitPrefix(a[1..], t);
      assert [a[0]] + (a[1..] + Split(t)[0]) == a + Split(t)[0];
    } else {
      assert a + t == t;
      assert a + Split(t)[0] == Split(t)[0];
      assert [Split(t)[0]] + Split(t)[1..] == Split(t);
    }
  }

  /** Splitting a join of newline-free lines gives the lines back. */
  lemma {:induction false} SplitJoin(lines: seq<string>)
    requires |lines| >= 1 && AllNoNewline(lines)
    ensures Split(Join(lines)) == lines
    decreases |lines|
  {
    var a := lines[0];
    assert NoNewline(a);
    if |lines| == 1 {
      SplitPrefix(a, []);
      assert a + [] == a;
      assert Split([]) == [[]];
    } else {
      var b := Join(lines[1..]);
      assert AllNoNewline(lines[1..]) by {
        forall k | 0 <= k < |lines[1..]| ensures NoNewline(lines[1..][k]) {
          assert lines[1..][k] == lines[k + 1];
        }
      }
      SplitJoin(lines[1..]);
      assert Join(lines) == a + ("\n" + b);
      SplitPrefix(a, "\n" + b);
      assert ("\n" + b)[1..] == b;
      assert Split("\n" + b) == [[]] + Split(b);
      assert a + [] == a;
      assert ([[]] + lines[1..])[1..] == lines[1..];
      assert [a] + lines[1..] == lines;
    }
  }

  // ---------------------------------------------------------------------------
  // Prefixes of sequences, stated once so that proofs about lines need not
  // decide sequence equality themselves

  lemma TakeAll<T>(s: seq<T>)
    ensures s[..|s|] == s
  {
  }

  lemma TakeSnoc<T>(s: seq<T>, k: nat)
    requires 0 < k <= |s|
    ensures s[..k] == s[..k - 1] + [s[k - 1]]
  {
  }

  lemma TakeTake<T>(s: seq<T>, i: nat, j: nat)
    requires i <= j <= |s|
    ensures s[..j][..i] == s[..i]
  {
  }

  /** Regrouping a concatenation in which two neighbouring parts are
      replaced by their concatenation. */
  lemma Regroup<T>(a: seq<T>, b: seq<T>, c: seq<T>, g: seq<T>, x: seq<T>, n: seq<T>)
    requires b + c == g
    ensures a + b + c + x + n == a + g + x + n
  {
  }

  lemma AppendAssoc4<T>(a: seq<T>, b: seq<T>, c: seq<T>, d: seq<T>)
    ensures a + (b + c + d) == a + b + c + d
  {
  }
}
