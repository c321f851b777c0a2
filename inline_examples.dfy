/**
 * Worked inputs for the inline tokenizer: the chosen match is exhibited,
 * `FindExact` turns it into the search result, and one round of
 * `Tokenize` is unfolded per match.
 */
module InlineExamples {
  import opened Chars
  import opened Inline

  /** A line that is one bold span becomes one `Bold` token. */
  lemma BoldOnly()
    ensures Tokenize("**strong**") == [Bold("strong")]
  {
    var s := "**strong**";
    var m := Match(0, 8);
    assert MatchAt(s, DoubleStar, 0, 8);
    assert forall j: nat :: j < 8 ==> !ClosesAt(s, DoubleStar, j) || j <= 2;
    FindExact(s, DoubleStar, m);
    assert NextMatch(s) == Some((DoubleStar, m));
    TokenizeStep(s, DoubleStar, m);
    assert s[10..] == [];
    assert s[2..8] == "strong" && s[..0] == [];
    assert Emitted(s, DoubleStar, m) == [Bold("strong")];
  }

  /** Bold wins even when an italic span comes first: the italic markup before it stays plain text. */
  lemma BoldBeforeItalic()
    ensures Tokenize("*a* **b**") == [Plain("*a* "), Bold("b")]
  {
    var s := "*a* **b**";
    var m := Match(4, 7);
    assert MatchAt(s, DoubleStar, 4, 7);
    assert forall i: nat :: i < 4 ==> !OpensAt(s, DoubleStar, i);
    FindExact(s, DoubleStar, m);
    assert NextMatch(s) == Some((DoubleStar, m));
    TokenizeStep(s, DoubleStar, m);
    assert s[9..] == [];
    assert s[6..7] == "b" && s[..4] == "*a* ";
    assert Emitted(s, DoubleStar, m) == [Plain("*a* "), Bold("b")];
  }

  /** A lone italic span. */
  lemma ItalicOnly()
    ensures Tokenize("*c*") == [Italic("c")]
  {
    var s := "*c*";
    var m := Match(0, 2);
    assert forall i: nat :: !OpensAt(s, DoubleStar, i);
    assert Find(s, DoubleStar) == None;
    assert MatchAt(s, SingleStar, 0, 2);
    FindExact(s, SingleStar, m);
    assert NextMatch(s) == Some((SingleStar, m));
    TokenizeStep(s, SingleStar, m);
    assert s[3..] == [];
    assert s[1..2] == "c" && s[..0] == [];
    assert Emitted(s, SingleStar, m) == [Italic("c")];
  }

  /** In `**b***c*` the bold match is `**b**`; the cursor continues at the last three characters. */
  lemma StarRunHead()
    ensures Tokenize("**b***c*") == [Bold("b")] + Tokenize("*c*")
  {
    var s := "**b***c*";
    var m := Match(0, 3);
    assert MatchAt(s, DoubleStar, 0, 3);
    FindExact(s, DoubleStar, m);
    assert NextMatch(s) == Some((DoubleStar, m));
    TokenizeStep(s, DoubleStar, m);
    assert s[5..] == "*c*";
    assert s[2..3] == "b" && s[..0] == [];
    assert Emitted(s, DoubleStar, m) == [Bold("b")];
  }

  /**
   * The lookbehind of the italic pattern only sees the text that is left:
   * in the whole line the `*c*` follows another `*`, yet once `**b**` is
   * consumed it opens an italic span.
   */
  lemma LookbehindSeesRemainder()
    ensures Tokenize("**b***c*") == [Bold("b"), Italic("c")]
  {
    StarRunHead();
    ItalicOnly();
  }

  /** A single star with nothing to pair with stays in the plain text. */
  lemma UnpairedStar()
    ensures Tokenize("a*b") == [Plain("a*b")]
  {
  }
}
