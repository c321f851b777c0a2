/**
 * The line classifier `renderMarkdown`: the message is split on `'\n'`,
 * every line is classified by the first rule that matches (a level-3,
 * level-2 or level-1 heading, a list item, a blank line, a paragraph), and
 * one element per line is emitted, keyed by the line's index, whose
 * content is the inline tokenization of the line's payload.
 *
 * Each of the renderer's line patterns is specified twice: as a predicate
 * saying what a successful match of the pattern looks like (where the
 * whitespace runs start and stop), and as a function computing the split
 * a JavaScript regex engine picks, with the choice of greedy quantifiers
 * (the longest runs, tried from the left) stated in its contract.
 */
module Blocks {
  import opened Chars
  import opened Inline

  // ---------------------------------------------------------------------
  // Splitting the message into lines
  // ---------------------------------------------------------------------

  /** The pieces joined back together with `'\n'` between them. */
  function JoinLines(lines: seq<string>): string
    requires |lines| >= 1
  {
    if |lines| == 1 then lines[0] else lines[0] + "\n" + JoinLines(lines[1..])
  }

  /** No piece contains a `'\n'`. */
  predicate NewlineFree(lines: seq<string>) {
    forall k :: 0 <= k < |lines| ==> '\n' !in lines[k]
  }

  /** The index of the first `'\n'` of `s`. */
  function FirstNewline(s: string): (i: nat)
    requires '\n' in s
    ensures i < |s| && s[i] == '\n' && '\n' !in s[..i]
  {
    if s[0] == '\n' then 0
    else
      assert '\n' in s[1..] by { var j :| 0 <= j < |s| && s[j] == '\n'; assert s[1..][j - 1] == '\n'; }
      var j := FirstNewline(s[1..]);
      assert s[..j + 1] == [s[0]] + s[1..][..j];
      j + 1
  }

  /** `text.split('\n')`: the maximal newline-free pieces; the empty text is one empty piece. */
  function SplitLines(s: string): (lines: seq<string>)
    decreases |s|
    ensures |lines| == multiset(s)['\n'] + 1
    ensures NewlineFree(lines)
    ensures JoinLines(lines) == s
  {
    if '\n' !in s then [s]
    else
      var i := FirstNewline(s);
      var rest := SplitLines(s[i + 1..]);
      assert s == s[..i] + "\n" + s[i + 1..];
      assert ([s[..i]] + rest)[1..] == rest;
      [s[..i]] + rest
  }

  /** Joining at least two newline-free pieces puts the first `'\n'` right after the first piece. */
  lemma JoinFirstNewline(lines: seq<string>)
    requires |lines| >= 2 && NewlineFree(lines)
    ensures var s := JoinLines(lines);
      && '\n' in s && FirstNewline(s) == |lines[0]|
      && s[..|lines[0]|] == lines[0] && s[|lines[0]| + 1..] == JoinLines(lines[1..])
  {
    var first, s := lines[0], JoinLines(lines);
    assert '\n' !in first;
    assert s == first + "\n" + JoinLines(lines[1..]);
    assert s[|first|] == '\n';
    assert s[..|first|] == first;
  }

  /** The pieces after the first are newline-free too. */
  lemma NewlineFreeTail(lines: seq<string>)
    requires |lines| >= 1 && NewlineFree(lines)
    ensures NewlineFree(lines[1..])
  {
    var more := lines[1..];
    forall k | 0 <= k < |more| ensures '\n' !in more[k] {
      assert more[k] == lines[k + 1];
    }
  }

  /** Unfolding `SplitLines` once at the first `'\n'`. */
  lemma SplitStep(s: string)
    requires '\n' in s
    ensures SplitLines(s) == [s[..FirstNewline(s)]] + SplitLines(s[FirstNewline(s) + 1..])
  {
  }

  /** Splitting inverts joining: newline-free pieces are recovered exactly from the text they make. */
  lemma {:induction false} SplitJoin(lines: seq<string>)
    requires |lines| >= 1 && NewlineFree(lines)
    ensures SplitLines(JoinLines(lines)) == lines
    decreases |lines|
  {
    if |lines| == 1 {
      assert '\n' !in lines[0];
    } else {
      var s := JoinLines(lines);
      JoinFirstNewline(lines);
      SplitStep(s);
      NewlineFreeTail(lines);
      SplitJoin(lines[1..]);
      assert lines == [lines[0]] + lines[1..];
    }
  }

  // ---------------------------------------------------------------------
  // Headings: /^#{n}\s+(.*)$/ for n = 3, 2, 1
  // ---------------------------------------------------------------------

  /** The line starts with `n` characters `#`. */
  predicate HashPrefix(line: string, n: nat) {
    n <= |line| && forall k :: 0 <= k < n ==> line[k] == '#'
  }

  /** A way to match `^#{n}\s+(.*)$` whose capture starts at `k`: the `\s+` covers `line[n..k]`, the `.*` the rest. */
  predicate HeadingSplitOk(line: string, n: nat, k: nat) {
    HashPrefix(line, n) && n < k && SpaceRun(line, n, k) && DotRun(line, k, |line|)
  }

  /** Where the capture of `^#{n}\s+(.*)$` starts: the greedy `\s+` takes the longest run that lets the match succeed. */
  function HeadingSplit(line: string, n: nat): (r: Option<nat>)
    ensures r.Some? ==> HeadingSplitOk(line, n, r.value)
    ensures r.Some? ==> forall k: nat :: HeadingSplitOk(line, n, k) ==> k <= r.value
    ensures r.None? ==> forall k: nat :: !HeadingSplitOk(line, n, k)
  {
    if HashPrefix(line, n) then
      var e := SpaceRunEnd(line, n);
      assert forall k: nat :: HeadingSplitOk(line, n, k) ==> k <= e && DotRun(line, e, |line|);
      if n < e && DotRun(line, e, |line|) then Some(e) else None
    else None
  }

  /** The capture group of a level-`n` heading: present exactly when some split matches, and taken after the longest `\s+` run. */
  function HeadingMatch(line: string, n: nat): (r: Option<string>)
    ensures r.Some? <==> exists k: nat :: HeadingSplitOk(line, n, k)
    ensures r.Some? ==> exists k: nat :: HeadingChosen(line, n, k) && r.value == line[k..]
  {
    match HeadingSplit(line, n)
    case Some(k) => assert HeadingChosen(line, n, k); Some(line[k..])
    case None => None
  }

  /** The split the regex engine reports for `^#{n}\s+(.*)$`: a valid one with the longest `\s+` run. */
  ghost predicate HeadingChosen(line: string, n: nat, k: nat) {
    HeadingSplitOk(line, n, k) && forall k': nat :: HeadingSplitOk(line, n, k') ==> k' <= k
  }

  // ---------------------------------------------------------------------
  // List items: /^[\t\s]*[•\-]\s+(.*)$/ or /^[\t\s]*\*\s+([^*].*)$/
  // ---------------------------------------------------------------------

  /** The bullet characters of the first list pattern. */
  predicate IsBullet(c: char) {
    c == '•' || c == '-'
  }

  /** A way to match the first list pattern: indentation `line[..a]`, the bullet at `a`, `\s+` over `line[a+1..k]`, the capture `line[k..]`. */
  predicate BulletSplitOk(line: string, a: nat, k: nat) {
    && SpaceRun(line, 0, a) && a < |line| && IsBullet(line[a])
    && a + 1 < k && SpaceRun(line, a + 1, k) && DotRun(line, k, |line|)
  }

  /** A way to match the second list pattern: indentation `line[..a]`, `*` at `a`, `\s+` over `line[a+1..k]`, a non-`*` at `k`, `.*` after it. */
  predicate StarSplitOk(line: string, a: nat, k: nat) {
    && SpaceRun(line, 0, a) && a < |line| && line[a] == '*'
    && a + 1 < k < |line| && SpaceRun(line, a + 1, k)
    && line[k] != '*' && DotRun(line, k + 1, |line|)
  }

  /** The indentation of a list line cannot be shortened or lengthened: it is the whole leading run of `\s`. */
  lemma IndentIsLeadingRun(line: string, a: nat)
    requires SpaceRun(line, 0, a) && a < |line| && !IsSpace(line[a])
    ensures a == SpaceRunEnd(line, 0)
  {
  }

  /** The split picked for the first list pattern: both greedy runs as long as possible, the indentation first. */
  function BulletSplit(line: string): (r: Option<(nat, nat)>)
    ensures r.Some? ==> BulletSplitOk(line, r.value.0, r.value.1)
    ensures r.Some? ==> forall a: nat, k: nat :: BulletSplitOk(line, a, k) ==>
      a < r.value.0 || (a == r.value.0 && k <= r.value.1)
    ensures r.None? ==> forall a: nat, k: nat :: !BulletSplitOk(line, a, k)
  {
    var a := SpaceRunEnd(line, 0);
    if a < |line| && IsBullet(line[a]) then
      var e := SpaceRunEnd(line, a + 1);
      assert forall a': nat, k: nat :: BulletSplitOk(line, a', k) ==>
        a' == a && k <= e && DotRun(line, e, |line|) by {
        forall a': nat, k: nat | BulletSplitOk(line, a', k)
          ensures a' == a && k <= e && DotRun(line, e, |line|)
        {
          IndentIsLeadingRun(line, a');
        }
      }
      if a + 1 < e && DotRun(line, e, |line|) then Some((a, e)) else None
    else
      assert forall a': nat, k: nat :: !BulletSplitOk(line, a', k) by {
        forall a': nat, k: nat | BulletSplitOk(line, a', k) ensures false {
          IndentIsLeadingRun(line, a');
        }
      }
      None
  }

  /** The greedy `\s+` of the second list pattern backtracks from `k` towards `a + 2` until `[^*].*$` can follow. */
  function LastStarSplit(line: string, a: nat, k: nat): (r: Option<nat>)
    requires SpaceRun(line, 0, a) && a < |line| && line[a] == '*'
    requires a + 1 <= k && SpaceRun(line, a + 1, k)
    decreases k
    ensures r.Some? ==> StarSplitOk(line, a, r.value) && r.value <= k
    ensures r.Some? ==> forall k': nat :: r.value < k' <= k ==> !StarSplitOk(line, a, k')
    ensures r.None? ==> forall k': nat :: k' <= k ==> !StarSplitOk(line, a, k')
  {
    if k <= a + 1 then None
    else if k < |line| && line[k] != '*' && DotRun(line, k + 1, |line|) then Some(k)
    else LastStarSplit(line, a, k - 1)
  }

  /** The split picked for the second list pattern: the whole leading run of `\s`, then the longest `\s+` after the `*` that lets the match succeed. */
  function StarSplit(line: string): (r: Option<(nat, nat)>)
    ensures r.Some? ==> StarSplitOk(line, r.value.0, r.value.1)
    ensures r.Some? ==> forall a: nat, k: nat :: StarSplitOk(line, a, k) ==>
      a < r.value.0 || (a == r.value.0 && k <= r.value.1)
    ensures r.None? ==> forall a: nat, k: nat :: !StarSplitOk(line, a, k)
  {
    var a := SpaceRunEnd(line, 0);
    if a < |line| && line[a] == '*' then
      var e := SpaceRunEnd(line, a + 1);
      assert forall a': nat, k: nat :: StarSplitOk(line, a', k) ==> a' == a && k <= e by {
        forall a': nat, k: nat | StarSplitOk(line, a', k) ensures a' == a && k <= e {
          IndentIsLeadingRun(line, a');
        }
      }
      match LastStarSplit(line, a, e)
      case Some(k) => Some((a, k))
      case None => None
    else
      assert forall a': nat, k: nat :: !StarSplitOk(line, a', k) by {
        forall a': nat, k: nat | StarSplitOk(line, a', k) ensures false {
          IndentIsLeadingRun(line, a');
        }
      }
      None
  }

  /** The split reported for the first list pattern: valid, with the longest indentation and then the longest `\s+`. */
  ghost predicate BulletChosen(line: string, a: nat, k: nat) {
    && BulletSplitOk(line, a, k)
    && forall a': nat, k': nat :: BulletSplitOk(line, a', k') ==> a' < a || (a' == a && k' <= k)
  }

  /** The split reported for the second list pattern, chosen in the same greedy order. */
  ghost predicate StarChosen(line: string, a: nat, k: nat) {
    && StarSplitOk(line, a, k)
    && forall a': nat, k': nat :: StarSplitOk(line, a', k') ==> a' < a || (a' == a && k' <= k)
  }

  /**
   * The capture of `line.match(first) || line.match(second)`: absent exactly
   * when neither pattern matches; otherwise taken from the chosen split of the
   * first pattern, or of the second when the first matches nowhere.
   */
  function ListMatch(line: string): (r: Option<string>)
    ensures r.None? <==> (forall a: nat, k: nat :: !BulletSplitOk(line, a, k)) && (forall a: nat, k: nat :: !StarSplitOk(line, a, k))
    ensures (exists a: nat, k: nat :: BulletSplitOk(line, a, k)) ==>
      exists a: nat, k: nat :: BulletChosen(line, a, k) && r == Some(line[k..])
    ensures (forall a: nat, k: nat :: !BulletSplitOk(line, a, k)) && (exists a: nat, k: nat :: StarSplitOk(line, a, k)) ==>
      exists a: nat, k: nat :: StarChosen(line, a, k) && r == Some(line[k..])
  {
    match BulletSplit(line)
    case Some((a, k)) => assert BulletChosen(line, a, k); Some(line[k..])
    case None =>
      match StarSplit(line)
      case Some((a, k)) => assert StarChosen(line, a, k); Some(line[k..])
      case None => None
  }

  // ---------------------------------------------------------------------
  // Classification
  // ---------------------------------------------------------------------

  /** What a line of the message is rendered as. */
  datatype Block = Heading(level: nat, text: string) | ListItem(text: string) | Blank | Paragraph(text: string)

  /** The first rule that matches, in the order h3, h2, h1, list item, blank, paragraph. */
  function Classify(line: string): Block {
    match HeadingMatch(line, 3)
    case Some(t) => Heading(3, t)
    case None =>
      match HeadingMatch(line, 2)
      case Some(t) => Heading(2, t)
      case None =>
        match HeadingMatch(line, 1)
        case Some(t) => Heading(1, t)
        case None =>
          match ListMatch(line)
          case Some(t) => ListItem(t)
          case None =>
            if Trim(line) == [] then Blank else Paragraph(line)
  }

  /** At most one heading level matches a line: the `#` run is followed by whitespace, which is not a `#`. */
  lemma HeadingLevelsExclusive(line: string, n: nat, m: nat)
    requires 1 <= n && HeadingSplit(line, n).Some? && m != n
    ensures HeadingSplit(line, m).None?
  {
    assert IsSpace(line[n]);
    if m < n {
      assert line[m] == '#';
    }
  }

  /** A heading line starts with `#`, which is neither whitespace, a bullet nor `*`: no list pattern matches it. */
  lemma HeadingIsNotList(line: string, n: nat)
    requires 1 <= n && HeadingSplit(line, n).Some?
    ensures ListMatch(line).None?
  {
    assert line[0] == '#';
    assert SpaceRunEnd(line, 0) == 0;
  }

  /** A line made only of whitespace matches neither a heading nor a list pattern. */
  lemma SpaceLineMatchesNothing(line: string)
    requires AllSpace(line)
    ensures forall n: nat :: 1 <= n ==> HeadingSplit(line, n).None?
    ensures ListMatch(line).None?
  {
    forall n: nat | 1 <= n ensures HeadingSplit(line, n).None? {
      if |line| > 0 { assert IsSpace(line[0]); }
    }
    assert SpaceRunEnd(line, 0) == |line|;
  }

  /** A line that a list pattern matches is never blank, so the order of the list and blank rules does not matter. */
  lemma ListLineIsNotBlank(line: string)
    requires ListMatch(line).Some?
    ensures !AllSpace(line)
  {
    if AllSpace(line) {
      SpaceLineMatchesNothing(line);
    }
  }

  /** A line is a level-`n` heading with text `t` exactly when `^#{n}\s+(.*)$` matches it with capture `t`, whatever the order of the heading rules. */
  lemma ClassifyHeadingIff(line: string, n: nat, t: string)
    ensures Classify(line) == Heading(n, t) <==> 1 <= n <= 3 && HeadingMatch(line, n) == Some(t)
  {
    if 1 <= n <= 3 && HeadingMatch(line, n) == Some(t) {
      forall m: nat | 1 <= m <= 3 && m != n ensures HeadingMatch(line, m).None? {
        HeadingLevelsExclusive(line, n, m);
      }
    }
  }

  /** A line is a list item with text `t` exactly when one of the list patterns matches it with capture `t`; headings never compete. */
  lemma ClassifyListIff(line: string, t: string)
    ensures Classify(line) == ListItem(t) <==> ListMatch(line) == Some(t)
  {
    if ListMatch(line).Some? {
      forall n: nat | 1 <= n <= 3 ensures HeadingMatch(line, n).None? {
        if HeadingSplit(line, n).Some? { HeadingIsNotList(line, n); }
      }
    }
  }

  /** A line is blank exactly when it consists of whitespace only (the empty line included). */
  lemma ClassifyBlankIff(line: string)
    ensures Classify(line) == Blank <==> AllSpace(line)
  {
    TrimEmptyIff(line);
    if AllSpace(line) {
      SpaceLineMatchesNothing(line);
    }
  }

  /** A line is a paragraph exactly when it is not all whitespace and no heading or list pattern matches; its text is the whole line. */
  lemma ClassifyParagraphIff(line: string, t: string)
    ensures Classify(line) == Paragraph(t) <==>
      && t == line && !AllSpace(line) && ListMatch(line).None?
      && forall n: nat :: 1 <= n <= 3 ==> HeadingMatch(line, n).None?
  {
    TrimEmptyIff(line);
    if Classify(line) == Paragraph(t) {
      forall n: nat | 1 <= n <= 3 ensures HeadingMatch(line, n).None? {
        if HeadingSplit(line, n).Some? {
          ClassifyHeadingIff(line, n, HeadingMatch(line, n).value);
        }
      }
    }
  }

  /** A line whose first non-whitespace characters are `**` is never a list item: the star bullet needs whitespace right after its single `*`. */
  lemma DoubleStarLineIsNotList(line: string)
    requires var a := SpaceRunEnd(line, 0); a + 1 < |line| && line[a] == '*' && line[a + 1] == '*'
    ensures !Classify(line).ListItem?
  {
    var a := SpaceRunEnd(line, 0);
    assert SpaceRunEnd(line, a + 1) == a + 1;
    ClassifyListIff(line, Classify(line).text);
  }

  // ---------------------------------------------------------------------
  // Rendering
  // ---------------------------------------------------------------------

  /** The text a block hands to the inline tokenizer; a blank line has none. */
  function Payload(b: Block): string {
    match b
    case Heading(_, t) => t
    case ListItem(t) => t
    case Paragraph(t) => t
    case Blank => []
  }

  /** One rendered line: its index as key, its block, and the inline tokens of its payload. */
  datatype Element = Element(key: nat, block: Block, content: seq<Token>)

  /** `renderMarkdown`: one element per line, in order, keyed by the line's index. */
  method RenderMarkdown(text: string) returns (elements: seq<Element>)
    ensures var lines := SplitLines(text);
      && |elements| == |lines| == multiset(text)['\n'] + 1
      && forall k :: 0 <= k < |elements| ==>
        && elements[k].key == k
        && elements[k].block == Classify(lines[k])
        && elements[k].content == Tokenize(Payload(elements[k].block))
  {
    var lines := SplitLines(text);
    elements := [];
    for index := 0 to |lines|
      invariant |elements| == index
      invariant forall k :: 0 <= k < index ==>
        && elements[k].key == k
        && elements[k].block == Classify(lines[k])
        && elements[k].content == Tokenize(Payload(elements[k].block))
    {
      var line := lines[index];
      var block := Classify(line);
      var content: seq<Token>;
      if block.Blank? {
        content := [];
        TokenizeEmptyIff([]);
      } else {
        content := ProcessInlineMarkdown(Payload(block));
      }
      elements := elements + [Element(index, block, content)];
    }
  }
}
