/**
 * The inline tokenizer `processInlineMarkdown`: a cursor loop over the
 * remaining text that cuts off, in turn, the leftmost `**bold**` span found
 * anywhere in it, or, when there is none, the leftmost `*italic*` span whose
 * stars do not touch another star, and ends with the leftover text.
 *
 * The two regular expressions are described by what a match is (`MatchAt`)
 * and by which match `String.prototype.match` returns (`IsChosenMatch`:
 * leftmost start first, then the shortest lazy `(.+?)` body).
 */
module Inline {
  import opened Chars

  datatype Option<T> = None | Some(value: T)

  /** A fragment of a line: text outside any delimiter, a `<strong>` body or an `<em>` body. */
  datatype Token = Plain(text: string) | Bold(text: string) | Italic(text: string)

  /** The two delimiter kinds: `**` around bold text and `*` around italic text. */
  datatype Delimiter = DoubleStar | SingleStar

  /** A regex match: the index of the opening delimiter and of the closing one. */
  datatype Match = Match(open: nat, close: nat)

  /** The number of stars in a delimiter. */
  function Width(d: Delimiter): nat {
    match d
    case DoubleStar => 2
    case SingleStar => 1
  }

  /** The text of the line that a token stands for, delimiters included. */
  function SourceText(t: Token): string {
    match t
    case Plain(s) => s
    case Bold(c) => "**" + c + "**"
    case Italic(c) => "*" + c + "*"
  }

  /** The concatenation of the source texts of a token sequence. */
  function Flatten(ts: seq<Token>): string {
    if ts == [] then [] else SourceText(ts[0]) + Flatten(ts[1..])
  }

  /** Flattening distributes over concatenation. */
  lemma {:induction false} FlattenAppend(a: seq<Token>, b: seq<Token>)
    ensures Flatten(a + b) == Flatten(a) + Flatten(b)
  {
    if a == [] {
      assert a + b == b;
    } else {
      assert (a + b)[1..] == a[1..] + b;
      FlattenAppend(a[1..], b);
    }
  }

  // ---------------------------------------------------------------------
  // The two patterns
  //   bold:   /\*\*(.+?)\*\*/
  //   italic: /(?<!\*)\*(?!\*)(.+?)(?<!\*)\*(?!\*)/
  // Lookbehind sees only the string being searched, so index 0 has no
  // predecessor.
  // ---------------------------------------------------------------------

  /** The opening delimiter, with its lookaround for the italic pattern, matches at `i`. */
  predicate OpensAt(s: string, d: Delimiter, i: nat) {
    match d
    case DoubleStar => i + 2 <= |s| && s[i] == '*' && s[i + 1] == '*'
    case SingleStar =>
      && i < |s| && s[i] == '*'
      && (i == 0 || s[i - 1] != '*')
      && (i + 1 == |s| || s[i + 1] != '*')
  }

  /** The closing delimiter, with its lookaround for the italic pattern, matches at `j`. */
  predicate ClosesAt(s: string, d: Delimiter, j: nat) {
    match d
    case DoubleStar => j + 2 <= |s| && s[j] == '*' && s[j + 1] == '*'
    case SingleStar =>
      && 0 < j < |s| && s[j] == '*'
      && s[j - 1] != '*'
      && (j + 1 == |s| || s[j + 1] != '*')
  }

  /** The pattern matches `s[i..j + Width(d)]`, with `(.+?)` capturing the non-empty `s[i + Width(d)..j]`. */
  predicate MatchAt(s: string, d: Delimiter, i: nat, j: nat) {
    && OpensAt(s, d, i)
    && i + Width(d) < j
    && ClosesAt(s, d, j)
    && DotRun(s, i + Width(d), j)
  }

  /** The match `String.prototype.match` reports: the lowest start, and for it the shortest body. */
  ghost predicate IsChosenMatch(s: string, d: Delimiter, m: Match) {
    && MatchAt(s, d, m.open, m.close)
    && (forall i: nat, j: nat :: i < m.open ==> !MatchAt(s, d, i, j))
    && (forall j: nat :: j < m.close ==> !MatchAt(s, d, m.open, j))
  }

  /** The body and the closing delimiter of `m` lie inside `s`, and the body is not empty. */
  predicate Fits(s: string, d: Delimiter, m: Match) {
    m.open + Width(d) < m.close && m.close + Width(d) <= |s|
  }

  /** The lazy body `(.+?)`: extend the body one character at a time, from index `j` on, until a closing delimiter follows. */
  function LazyClose(s: string, d: Delimiter, j: nat): (r: Option<nat>)
    requires j <= |s|
    decreases |s| - j
    ensures r.Some? ==> j <= r.value && r.value + Width(d) <= |s|
  {
    if ClosesAt(s, d, j) then Some(j)
    else if j < |s| && MatchesDot(s[j]) then LazyClose(s, d, j + 1)
    else None
  }

  /** The regex engine's scan over start positions `i`, `i + 1`, ... */
  function FindFrom(s: string, d: Delimiter, i: nat): (r: Option<Match>)
    decreases |s| - i
    ensures r.Some? ==> i <= r.value.open && Fits(s, d, r.value)
  {
    if i >= |s| then None
    else
      var c := i + Width(d);
      if OpensAt(s, d, i) && c < |s| && MatchesDot(s[c]) then
        match LazyClose(s, d, c + 1)
        case Some(j) => Some(Match(i, j))
        case None => FindFrom(s, d, i + 1)
      else
        FindFrom(s, d, i + 1)
  }

  /** `s.match(pattern)`: the chosen match, or nothing when the pattern matches nowhere in `s`. */
  function Find(s: string, d: Delimiter): (r: Option<Match>)
    ensures r.Some? ==> Fits(s, d, r.value)
  {
    FindFrom(s, d, 0)
  }

  /** A body `s[c..j]` on one line is extended to the first closing delimiter; none is found only when every later closer has a line break before it. */
  lemma {:induction false} LazyCloseSpec(s: string, d: Delimiter, c: nat, j: nat)
    requires c < j <= |s| && DotRun(s, c, j)
    decreases |s| - j
    ensures var r := LazyClose(s, d, j);
      && (r.Some? ==> ClosesAt(s, d, r.value) && DotRun(s, c, r.value))
      && (r.Some? ==> forall k: nat :: j <= k < r.value ==> !ClosesAt(s, d, k))
      && (r.None? ==> forall k: nat :: j <= k && ClosesAt(s, d, k) ==> !DotRun(s, c, k))
  {
    if !ClosesAt(s, d, j) && j < |s| && MatchesDot(s[j]) {
      LazyCloseSpec(s, d, c, j + 1);
    }
  }

  /** An opening delimiter followed by a body character at `i`. */
  predicate Opener(s: string, d: Delimiter, i: nat) {
    OpensAt(s, d, i) && i + Width(d) < |s| && MatchesDot(s[i + Width(d)])
  }

  /** No match starts at `i` when the opening delimiter is missing there or is not followed by a body character. */
  lemma NoMatchFrom(s: string, d: Delimiter, i: nat)
    requires !Opener(s, d, i)
    ensures forall j: nat :: !MatchAt(s, d, i, j)
  {
  }

  /** When an opening delimiter and a body character are at `i`, the lazy body decides the match starting at `i`. */
  lemma LazyMatchFrom(s: string, d: Delimiter, i: nat)
    requires Opener(s, d, i)
    ensures var r := LazyClose(s, d, i + Width(d) + 1);
      && (r.Some? ==> MatchAt(s, d, i, r.value) && forall j: nat :: j < r.value ==> !MatchAt(s, d, i, j))
      && (r.None? ==> forall j: nat :: !MatchAt(s, d, i, j))
  {
    var c := i + Width(d);
    LazyCloseSpec(s, d, c, c + 1);
  }

  /** `r` is the match with the lowest start at or after `i`, with the shortest body for that start, or nothing when no match starts at or after `i`. */
  ghost predicate ScanOk(s: string, d: Delimiter, i: nat, r: Option<Match>) {
    && (r.Some? ==> MatchAt(s, d, r.value.open, r.value.close))
    && (r.Some? ==> forall i': nat, j: nat :: i <= i' < r.value.open ==> !MatchAt(s, d, i', j))
    && (r.Some? ==> forall j: nat :: j < r.value.close ==> !MatchAt(s, d, r.value.open, j))
    && (r.None? ==> forall i': nat, j: nat :: i <= i' ==> !MatchAt(s, d, i', j))
  }

  /** A scan result for `i + 1` is one for `i` when no match starts at `i`. */
  lemma ScanSkip(s: string, d: Delimiter, i: nat, r: Option<Match>)
    requires ScanOk(s, d, i + 1, r)
    requires forall j: nat :: !MatchAt(s, d, i, j)
    requires r.Some? ==> i < r.value.open
    ensures ScanOk(s, d, i, r)
  {
  }

  /** The scan stops at `i` when the lazy body after the opener there finds its closer. */
  lemma FindFromHit(s: string, d: Delimiter, i: nat)
    requires Opener(s, d, i) && LazyClose(s, d, i + Width(d) + 1).Some?
    ensures FindFrom(s, d, i) == Some(Match(i, LazyClose(s, d, i + Width(d) + 1).value))
    ensures ScanOk(s, d, i, FindFrom(s, d, i))
  {
    LazyMatchFrom(s, d, i);
  }

  /** Otherwise no match starts at `i` and the scan moves on to `i + 1`. */
  lemma FindFromMiss(s: string, d: Delimiter, i: nat)
    requires i < |s|
    requires !(Opener(s, d, i) && LazyClose(s, d, i + Width(d) + 1).Some?)
    ensures FindFrom(s, d, i) == FindFrom(s, d, i + 1)
    ensures forall j: nat :: !MatchAt(s, d, i, j)
  {
    if Opener(s, d, i) {
      LazyMatchFrom(s, d, i);
    } else {
      NoMatchFrom(s, d, i);
    }
  }

  /** The scan from `i` returns the match with the lowest start at or after `i`, and for that start the shortest body. */
  lemma {:induction false} FindFromSpec(s: string, d: Delimiter, i: nat)
    decreases |s| - i
    ensures ScanOk(s, d, i, FindFrom(s, d, i))
  {
    if i < |s| {
      if Opener(s, d, i) && LazyClose(s, d, i + Width(d) + 1).Some? {
        FindFromHit(s, d, i);
      } else {
        FindFromMiss(s, d, i);
        FindFromSpec(s, d, i + 1);
        ScanSkip(s, d, i, FindFrom(s, d, i + 1));
      }
    }
  }

  /** `Find` returns the match `String.prototype.match` reports, and nothing exactly when the pattern matches nowhere. */
  lemma FindSpec(s: string, d: Delimiter)
    ensures Find(s, d).Some? ==> IsChosenMatch(s, d, Find(s, d).value)
    ensures Find(s, d).None? ==> forall i: nat, j: nat :: !MatchAt(s, d, i, j)
  {
    FindFromSpec(s, d, 0);
  }

  /** The token for the body of a `d` match. */
  function Emphasis(d: Delimiter, body: string): Token {
    match d
    case DoubleStar => Bold(body)
    case SingleStar => Italic(body)
  }

  /** The plain token for the text before a match, pushed only when that text is non-empty. */
  function PlainPrefix(p: string): seq<Token> {
    if |p| > 0 then [Plain(p)] else []
  }

  /**
   * The match one round of the loop cuts off: the chosen bold match if the
   * bold pattern matches anywhere in `s`, otherwise the chosen italic match.
   * Every match removes at least three characters, so the loop terminates.
   */
  function NextMatch(s: string): (r: Option<(Delimiter, Match)>)
    ensures r.Some? ==> Fits(s, r.value.0, r.value.1)
    ensures r.Some? ==> r.value.1.close + Width(r.value.0) >= 3
  {
    match Find(s, DoubleStar)
    case Some(m) => Some((DoubleStar, m))
    case None =>
      match Find(s, SingleStar)
      case Some(m) => Some((SingleStar, m))
      case None => None
  }

  /** The round's match is a chosen match; it is a bold one whenever bold matches anywhere; there is none only when neither pattern matches. */
  lemma NextMatchSpec(s: string)
    ensures NextMatch(s).Some? ==> IsChosenMatch(s, NextMatch(s).value.0, NextMatch(s).value.1)
    ensures forall i: nat, j: nat :: MatchAt(s, DoubleStar, i, j) ==> NextMatch(s).Some? && NextMatch(s).value.0 == DoubleStar
    ensures NextMatch(s).None? ==> forall d, i: nat, j: nat :: !MatchAt(s, d, i, j)
  {
    FindSpec(s, DoubleStar);
    FindSpec(s, SingleStar);
  }

  /** The tokens one round of the loop pushes for a match `m` of `d` in `s`. */
  function Emitted(s: string, d: Delimiter, m: Match): seq<Token>
    requires Fits(s, d, m)
  {
    PlainPrefix(s[..m.open]) + [Emphasis(d, s[m.open + Width(d)..m.close])]
  }

  /** What the loop of `processInlineMarkdown` pushes for the text `s`. */
  function Tokenize(s: string): seq<Token>
    decreases |s|, 1
  {
    if s == [] then [] else TokenizeRound(s)
  }

  /** The tokens for a non-empty `s`: those of the round's match, then those of the text after it; or `s` itself when nothing matches. */
  function TokenizeRound(s: string): seq<Token>
    decreases |s|, 0
  {
    match NextMatch(s)
    case Some((d, m)) => Emitted(s, d, m) + Tokenize(s[m.close + Width(d)..])
    case None => [Plain(s)]
  }

  /** The source text of the token for a match is the matched text. */
  lemma EmphasisText(s: string, d: Delimiter, m: Match)
    requires MatchAt(s, d, m.open, m.close)
    ensures SourceText(Emphasis(d, s[m.open + Width(d)..m.close])) == s[m.open..m.close + Width(d)]
  {
    OpenText(s, d, m.open);
    CloseText(s, d, m.close);
    EmphasisSource(d, s[m.open + Width(d)..m.close]);
    SliceThree(s, m.open, m.open + Width(d), m.close, m.close + Width(d));
  }

  /** The delimiter as text. */
  function DelimiterText(d: Delimiter): (t: string)
    ensures |t| == Width(d) && forall k :: 0 <= k < |t| ==> t[k] == '*'
  {
    match d
    case DoubleStar => "**"
    case SingleStar => "*"
  }

  /** A bold or italic token stands for its body between two copies of its delimiter. */
  lemma EmphasisSource(d: Delimiter, body: string)
    ensures SourceText(Emphasis(d, body)) == DelimiterText(d) + body + DelimiterText(d)
  {
  }

  /** An opening delimiter at `i` is the delimiter text. */
  lemma OpenText(s: string, d: Delimiter, i: nat)
    requires OpensAt(s, d, i)
    ensures i + Width(d) <= |s| && s[i..i + Width(d)] == DelimiterText(d)
  {
  }

  /** A closing delimiter at `j` is the delimiter text. */
  lemma CloseText(s: string, d: Delimiter, j: nat)
    requires ClosesAt(s, d, j)
    ensures j + Width(d) <= |s| && s[j..j + Width(d)] == DelimiterText(d)
  {
  }

  /** Cutting a slice at two inner points. */
  lemma SliceThree(s: string, a: nat, b: nat, c: nat, e: nat)
    requires a <= b <= c <= e <= |s|
    ensures s[a..e] == s[a..b] + s[b..c] + s[c..e]
  {
    assert s[a..c] == s[a..b] + s[b..c];
  }

  /** The optional plain token stands for the text before the match. */
  lemma PlainPrefixText(p: string)
    ensures Flatten(PlainPrefix(p)) == p
  {
    if |p| > 0 {
      assert Flatten([Plain(p)]) == p + Flatten([]);
    }
  }

  /** A single token stands for its own source text. */
  lemma SingletonText(e: Token)
    ensures Flatten([e]) == SourceText(e)
  {
    assert Flatten([e]) == SourceText(e) + Flatten([]);
  }

  /** A string is its prefix, a middle slice and its suffix. */
  lemma SliceJoin(s: string, i: nat, k: nat)
    requires i <= k <= |s|
    ensures s[..i] + s[i..k] + s[k..] == s
  {
    assert s[..i] + s[i..k] == s[..k];
  }

  /** The plain prefix and the token for `s[i..k]` stand for the text up to `k`. */
  lemma PrefixText(s: string, i: nat, k: nat, e: Token)
    requires i <= k <= |s| && SourceText(e) == s[i..k]
    ensures s == Flatten(PlainPrefix(s[..i]) + [e]) + s[k..]
  {
    FlattenAppend(PlainPrefix(s[..i]), [e]);
    PlainPrefixText(s[..i]);
    SingletonText(e);
    SliceJoin(s, i, k);
  }

  /** The tokens pushed for a match stand for exactly the text the cursor skips. */
  lemma MatchText(s: string, d: Delimiter, m: Match)
    requires MatchAt(s, d, m.open, m.close)
    ensures s == Flatten(Emitted(s, d, m)) + s[m.close + Width(d)..]
  {
    EmphasisText(s, d, m);
    PrefixText(s, m.open, m.close + Width(d), Emphasis(d, s[m.open + Width(d)..m.close]));
  }

  /** The loop invariant: the tokens pushed so far, followed by those of the rest, are those of the whole text. */
  ghost predicate Consumed(parts: seq<Token>, remaining: string, text: string) {
    && parts + Tokenize(remaining) == Tokenize(text)
    && Flatten(parts) + remaining == text
  }

  /** The tokenizer loop: `remaining` is the cursor, `parts` the fragments pushed so far. */
  method ProcessInlineMarkdown(text: string) returns (parts: seq<Token>)
    ensures parts == Tokenize(text)
    ensures Flatten(parts) == text
  {
    parts := [];
    var remaining := text;
    while |remaining| > 0
      invariant Consumed(parts, remaining, text)
      decreases |remaining|
    {
      ghost var before := parts;
      var bold := Find(remaining, DoubleStar);
      if bold.Some? {
        var m := bold.value;
        if m.open > 0 {
          parts := parts + [Plain(remaining[..m.open])];
        }
        parts := parts + [Bold(remaining[m.open + 2..m.close])];
        BoldRound(before, parts, remaining, m, text);
        remaining := remaining[m.close + 2..];
        continue;
      }
      var italic := Find(remaining, SingleStar);
      if italic.Some? {
        var m := italic.value;
        if m.open > 0 {
          parts := parts + [Plain(remaining[..m.open])];
        }
        parts := parts + [Italic(remaining[m.open + 1..m.close])];
        ItalicRound(before, parts, remaining, m, text);
        remaining := remaining[m.close + 1..];
        continue;
      }
      parts := parts + [Plain(remaining)];
      LastRound(before, parts, remaining, text);
      break;
    }
  }

  /** A bold round keeps the loop invariant. */
  lemma BoldRound(before: seq<Token>, parts: seq<Token>, s: string, m: Match, text: string)
    requires s != [] && Find(s, DoubleStar) == Some(m) && m.open + 2 < m.close <= |s| - 2
    requires parts == (if m.open > 0 then before + [Plain(s[..m.open])] else before) + [Bold(s[m.open + 2..m.close])]
    requires Consumed(before, s, text)
    ensures Consumed(parts, s[m.close + 2..], text)
  {
    FindSpec(s, DoubleStar);
    Advance(before, parts, s, DoubleStar, m, s[m.close + 2..], text);
  }

  /** An italic round, reached only when bold matches nowhere, keeps the loop invariant. */
  lemma ItalicRound(before: seq<Token>, parts: seq<Token>, s: string, m: Match, text: string)
    requires s != [] && Find(s, DoubleStar) == None && Find(s, SingleStar) == Some(m) && m.open + 1 < m.close <= |s| - 1
    requires parts == (if m.open > 0 then before + [Plain(s[..m.open])] else before) + [Italic(s[m.open + 1..m.close])]
    requires Consumed(before, s, text)
    ensures Consumed(parts, s[m.close + 1..], text)
  {
    FindSpec(s, SingleStar);
    Advance(before, parts, s, SingleStar, m, s[m.close + 1..], text);
  }

  /** The last round pushes the leftover text and establishes the postcondition. */
  lemma LastRound(before: seq<Token>, parts: seq<Token>, s: string, text: string)
    requires s != [] && Find(s, DoubleStar) == None && Find(s, SingleStar) == None
    requires parts == before + [Plain(s)]
    requires Consumed(before, s, text)
    ensures parts == Tokenize(text) && Flatten(parts) == text
  {
    assert Tokenize(s) == [Plain(s)];
    FlattenAppend(before, [Plain(s)]);
  }

  /** One round of the loop keeps both loop invariants. */
  lemma Advance(before: seq<Token>, parts: seq<Token>, s: string, d: Delimiter, m: Match, rest: string, text: string)
    requires s != [] && NextMatch(s) == Some((d, m))
    requires MatchAt(s, d, m.open, m.close)
    requires parts == before + PlainPrefix(s[..m.open]) + [Emphasis(d, s[m.open + Width(d)..m.close])]
    requires rest == s[m.close + Width(d)..]
    requires Consumed(before, s, text)
    ensures Consumed(parts, rest, text)
  {
    assert parts == before + Emitted(s, d, m);
    AdvanceTokens(before, s, d, m, Tokenize(text));
    AdvanceText(before, s, d, m, text);
  }

  /** The token half of `Advance`. */
  lemma AdvanceTokens(before: seq<Token>, s: string, d: Delimiter, m: Match, tt: seq<Token>)
    requires s != [] && NextMatch(s) == Some((d, m))
    requires before + Tokenize(s) == tt
    ensures Fits(s, d, m)
    ensures before + Emitted(s, d, m) + Tokenize(s[m.close + Width(d)..]) == tt
  {
    TokenizeStep(s, d, m);
    TokensExtend(before, Emitted(s, d, m), Tokenize(s), Tokenize(s[m.close + Width(d)..]), tt);
  }

  /** The text half of `Advance`. */
  lemma AdvanceText(before: seq<Token>, s: string, d: Delimiter, m: Match, text: string)
    requires MatchAt(s, d, m.open, m.close)
    requires Flatten(before) + s == text
    ensures Fits(s, d, m)
    ensures Flatten(before + Emitted(s, d, m)) + s[m.close + Width(d)..] == text
  {
    MatchText(s, d, m);
    FlattenExtend(before, Emitted(s, d, m), s, s[m.close + Width(d)..], text);
  }

  /** Moving the tokens of one round from the remainder to the parts pushed. */
  lemma TokensExtend(before: seq<Token>, e: seq<Token>, ts: seq<Token>, tr: seq<Token>, tt: seq<Token>)
    requires before + ts == tt && ts == e + tr
    ensures before + e + tr == tt
  {
    assert before + (e + tr) == before + e + tr;
  }

  /** Unfolding `Tokenize` once, for a round that cuts off the match `m` of `d`. */
  lemma TokenizeStep(s: string, d: Delimiter, m: Match)
    requires s != [] && NextMatch(s) == Some((d, m))
    ensures Fits(s, d, m)
    ensures Tokenize(s) == Emitted(s, d, m) + Tokenize(s[m.close + Width(d)..])
  {
    assert Tokenize(s) == TokenizeRound(s);
  }

  /** Associativity of string concatenation, over opaque operands so that no `Flatten` term is unfolded. */
  lemma StringAssoc(a: string, b: string, c: string)
    ensures a + (b + c) == a + b + c
  {
  }

  /** Moving the text of one round from the remainder to the parts pushed. */
  lemma FlattenExtend(before: seq<Token>, e: seq<Token>, s: string, rest: string, text: string)
    requires s == Flatten(e) + rest
    requires Flatten(before) + s == text
    ensures Flatten(before + e) + rest == text
  {
    FlattenAppend(before, e);
    StringAssoc(Flatten(before), Flatten(e), rest);
  }

  /** Unfolding `Tokenize` once, for the last round. */
  lemma TokenizeLast(s: string)
    requires s != [] && NextMatch(s) == None
    ensures Tokenize(s) == [Plain(s)]
  {
    assert Tokenize(s) == TokenizeRound(s);
  }

  // ---------------------------------------------------------------------
  // Properties of the tokenizer
  // ---------------------------------------------------------------------

  /** Reconstruction: the source texts of the tokens, in order, spell the input exactly. */
  lemma {:induction false} TokenizeReconstructs(s: string)
    ensures Flatten(Tokenize(s)) == s
    decreases |s|
  {
    if s != [] {
      match NextMatch(s)
      case Some((d, m)) =>
        TokenizeStep(s, d, m);
        NextMatchSpec(s);
        var rest := s[m.close + Width(d)..];
        TokenizeReconstructs(rest);
        MatchText(s, d, m);
        FlattenAppend(Emitted(s, d, m), Tokenize(rest));
      case None =>
        TokenizeLast(s);
    }
  }

  /** A token the loop can push: plain text is never empty; a body is non-empty, on one line, and an italic body neither starts nor ends with `*`. */
  predicate TokenOk(t: Token) {
    match t
    case Plain(p) => |p| > 0
    case Bold(c) => |c| > 0 && DotRun(c, 0, |c|)
    case Italic(c) => |c| > 0 && DotRun(c, 0, |c|) && c[0] != '*' && c[|c| - 1] != '*'
  }

  /** Every token is well formed and no two plain tokens are adjacent. */
  predicate WellFormed(ts: seq<Token>) {
    && (forall k :: 0 <= k < |ts| ==> TokenOk(ts[k]))
    && (forall k :: 0 < k < |ts| ==> !(ts[k - 1].Plain? && ts[k].Plain?))
  }

  /** Well-formedness is kept by concatenation. */
  lemma WellFormedAppend(a: seq<Token>, b: seq<Token>)
    requires WellFormed(a) && WellFormed(b)
    requires a != [] && !a[|a| - 1].Plain?
    ensures WellFormed(a + b)
  {
    var ab := a + b;
    forall k | 0 < k < |ab| ensures !(ab[k - 1].Plain? && ab[k].Plain?) {
      if k < |a| {
        assert ab[k - 1] == a[k - 1] && ab[k] == a[k];
      } else if k == |a| {
        assert ab[k - 1] == a[|a| - 1];
      } else {
        assert ab[k - 1] == b[k - 1 - |a|] && ab[k] == b[k - |a|];
      }
    }
  }

  /** The tokens of one round are well formed. */
  lemma EmittedWellFormed(s: string, d: Delimiter, m: Match)
    requires MatchAt(s, d, m.open, m.close)
    ensures var e := Emitted(s, d, m); WellFormed(e) && e != [] && !e[|e| - 1].Plain?
  {
    var c := s[m.open + Width(d)..m.close];
    assert DotRun(c, 0, |c|) by {
      forall k | 0 <= k < |c| ensures MatchesDot(c[k]) {
        assert c[k] == s[m.open + Width(d) + k];
      }
    }
  }

  /** No plain token is empty, bodies are non-empty and on one line, and plain text never directly follows plain text. */
  lemma {:induction false} TokenizeWellFormed(s: string)
    ensures WellFormed(Tokenize(s))
    decreases |s|
  {
    if s != [] {
      match NextMatch(s)
      case Some((d, m)) =>
        TokenizeStep(s, d, m);
        NextMatchSpec(s);
        TokenizeWellFormed(s[m.close + Width(d)..]);
        EmittedWellFormed(s, d, m);
        WellFormedAppend(Emitted(s, d, m), Tokenize(s[m.close + Width(d)..]));
      case None =>
        TokenizeLast(s);
    }
  }

  /** Only the empty text yields no tokens. */
  lemma TokenizeEmptyIff(s: string)
    ensures Tokenize(s) == [] <==> s == []
  {
    if s != [] {
      match NextMatch(s)
      case Some((d, m)) => TokenizeStep(s, d, m);
      case None => TokenizeLast(s);
    }
  }

  /** Text without any `*` is a single plain token. */
  lemma TokenizeNoStar(s: string)
    requires s != [] && forall k :: 0 <= k < |s| ==> s[k] != '*'
    ensures Tokenize(s) == [Plain(s)]
  {
    assert NextMatch(s) == None by {
      NextMatchSpec(s);
      if NextMatch(s).Some? {
        var (d, m) := NextMatch(s).value;
        assert false;
      }
    }
    TokenizeLast(s);
  }

  /** A bold match in a suffix of `s` is a bold match in `s`: the bold pattern has no lookbehind. */
  lemma BoldMatchShift(s: string, k: nat, i: nat, j: nat)
    requires k <= |s| && MatchAt(s[k..], DoubleStar, i, j)
    ensures MatchAt(s, DoubleStar, k + i, k + j)
  {
    var t := s[k..];
    assert s[k + i] == t[i] && s[k + i + 1] == t[i + 1];
    assert s[k + j] == t[j] && s[k + j + 1] == t[j + 1];
    forall p | k + i + 2 <= p < k + j ensures MatchesDot(s[p]) {
      assert s[p] == t[p - k];
    }
  }

  /** Once the bold pattern matches nowhere, it matches nowhere in what remains after any cut. */
  lemma BoldFreeSuffix(s: string, k: nat)
    requires k <= |s| && Find(s, DoubleStar) == None
    ensures Find(s[k..], DoubleStar) == None
  {
    FindSpec(s, DoubleStar);
    FindSpec(s[k..], DoubleStar);
    if Find(s[k..], DoubleStar).Some? {
      var m := Find(s[k..], DoubleStar).value;
      BoldMatchShift(s, k, m.open, m.close);
      assert false;
    }
  }

  /** No token of `ts` is `Bold`. */
  predicate NoBold(ts: seq<Token>) {
    forall k :: 0 <= k < |ts| ==> !ts[k].Bold?
  }

  /** No token of `ts` is `Italic`. */
  predicate NoItalic(ts: seq<Token>) {
    forall k :: 0 <= k < |ts| ==> !ts[k].Italic?
  }

  /** Having no bold token is kept by concatenation. */
  lemma NoBoldAppend(a: seq<Token>, b: seq<Token>)
    requires NoBold(a) && NoBold(b)
    ensures NoBold(a + b)
  {
    var ab := a + b;
    forall k | 0 <= k < |ab| ensures !ab[k].Bold? {
      if k >= |a| { assert ab[k] == b[k - |a|]; }
    }
  }

  /** The rules "leftmost opening, then shortest body" pick at most one match. */
  lemma ChosenMatchUnique(s: string, d: Delimiter, m1: Match, m2: Match)
    requires IsChosenMatch(s, d, m1) && IsChosenMatch(s, d, m2)
    ensures m1 == m2
  {
  }

  /** `text.match(pattern)` finds exactly the chosen match: `Find` is the regex search, in both directions. */
  lemma FindExact(s: string, d: Delimiter, m: Match)
    ensures Find(s, d) == Some(m) <==> IsChosenMatch(s, d, m)
  {
    FindSpec(s, d);
    if IsChosenMatch(s, d, m) {
      assert MatchAt(s, d, m.open, m.close);
      ChosenMatchUnique(s, d, m, Find(s, d).value);
    }
  }

  /** One round over a text without bold matches pushes no bold token. */
  lemma BoldFreeRound(s: string, m: Match)
    requires s != [] && NextMatch(s) == Some((SingleStar, m))
    requires NoBold(Tokenize(s[m.close + 1..]))
    ensures NoBold(Tokenize(s))
  {
    TokenizeStep(s, SingleStar, m);
    assert NoBold(Emitted(s, SingleStar, m));
    NoBoldAppend(Emitted(s, SingleStar, m), Tokenize(s[m.close + 1..]));
  }

  /** When the bold pattern matches nowhere in `s`, no `Bold` token is ever pushed for it. */
  lemma {:induction false} BoldFreeTokens(s: string)
    requires Find(s, DoubleStar) == None
    ensures NoBold(Tokenize(s))
    decreases |s|
  {
    if s != [] {
      var next := NextMatch(s);
      if next.Some? {
        var m := next.value.1;
        BoldFreeSuffix(s, m.close + 1);
        BoldFreeTokens(s[m.close + 1..]);
        BoldFreeRound(s, m);
      } else {
        TokenizeLast(s);
      }
    }
  }

  /** No `Bold` token comes after an `Italic` one. */
  predicate BoldsBeforeItalics(ts: seq<Token>) {
    forall a, b :: 0 <= a < b < |ts| && ts[a].Italic? ==> !ts[b].Bold?
  }

  /** Bold-before-italic order is kept when bold-only tokens are put in front. */
  lemma BoldsBeforeItalicsAppend(a: seq<Token>, b: seq<Token>)
    requires NoItalic(a) && BoldsBeforeItalics(b)
    ensures BoldsBeforeItalics(a + b)
  {
    var ab := a + b;
    forall i, j | 0 <= i < j < |ab| && ab[i].Italic? ensures !ab[j].Bold? {
      if i < |a| { assert false; }
      assert ab[i] == b[i - |a|] && ab[j] == b[j - |a|];
    }
  }

  /** A bold round followed by ordered tokens stays ordered. */
  lemma BoldsFirstRound(s: string, m: Match)
    requires s != [] && NextMatch(s) == Some((DoubleStar, m))
    requires BoldsBeforeItalics(Tokenize(s[m.close + 2..]))
    ensures BoldsBeforeItalics(Tokenize(s))
  {
    TokenizeStep(s, DoubleStar, m);
    assert NoItalic(Emitted(s, DoubleStar, m));
    BoldsBeforeItalicsAppend(Emitted(s, DoubleStar, m), Tokenize(s[m.close + 2..]));
  }

  /** Bold is searched over the whole remaining text before italic, so every `Bold` precedes every `Italic`. */
  lemma {:induction false} TokenizeBoldsFirst(s: string)
    ensures BoldsBeforeItalics(Tokenize(s))
    decreases |s|
  {
    if s != [] {
      var next := NextMatch(s);
      if next.None? {
        TokenizeLast(s);
      } else if next.value.0 == DoubleStar {
        var m := next.value.1;
        TokenizeBoldsFirst(s[m.close + 2..]);
        BoldsFirstRound(s, m);
      } else {
        BoldFreeTokens(s);
      }
    }
  }
}
