/** The comma-separated score lists of TUGAS_TEORI, TUGAS_PRAKTIKUM and
    PORTOFOLIO: `val.split(',').map(Number)`. */
module Scores {
  import opened Strings
  import opened Numbers
  import opened Whitespace

  /** One number per comma-separated token, in order. No token is rejected:
      a token that is not a number becomes NaN, and an empty token is 0. */
  function ParseScores(text: string): (ns: seq<Num>)
    ensures |ns| == multiset(text)[','] + 1
  {
    var tokens := Split(text, ",");
    SplitCount(text, ',');
    seq(|tokens|, i requires 0 <= i < |tokens| => ParseNum(tokens[i]))
  }

  /** Reading comma-free tokens joined by commas gives each token's number,
      in the order written. Since every text is such a join of the tokens
      between its commas, element `i` is the number of the `i`-th token. */
  lemma ScoresOfTokens(tokens: seq<string>)
    requires |tokens| >= 1
    requires forall k :: 0 <= k < |tokens| ==> ',' !in tokens[k]
    ensures |ParseScores(Join(tokens, ","))| == |tokens|
    ensures forall k :: 0 <= k < |tokens| ==> ParseScores(Join(tokens, ","))[k] == ParseNum(tokens[k])
  {
    SplitJoin(tokens, ',');
  }

  /** The decimal texts of some scores, as the record store lists them. */
  function ShowScores(ns: seq<nat>): (texts: seq<string>)
    ensures |texts| == |ns|
    ensures forall k :: 0 <= k < |ns| ==> texts[k] == ShowNat(ns[k])
  {
    seq(|ns|, k requires 0 <= k < |ns| => ShowNat(ns[k]))
  }

  /** The text of a list of whole-number scores: `ns.join(',')`. */
  function FormatScores(ns: seq<nat>): string
  {
    Join(ShowScores(ns), ",")
  }

  function IntScores(ns: seq<nat>): (r: seq<Num>)
    ensures |r| == |ns| && forall k :: 0 <= k < |ns| ==> r[k] == Int(ns[k])
  {
    seq(|ns|, k requires 0 <= k < |ns| => Int(ns[k]))
  }

  lemma ShownScore(n: nat)
    ensures ParseNum(ShowNat(n)) == Int(n)
  {
    var s := ShowNat(n);
    assert !IsSpace(s[0]) && !IsSpace(s[|s| - 1]);
    TrimNoEdge(s);
    ShowNatValue(n);
  }

  lemma DigitsHaveNoComma(s: string)
    requires IsDigits(s)
    ensures ',' !in s
  {
  }

  /** Writing whole-number scores separated by commas and parsing the list
      gives the scores back. */
  lemma ScoresRoundTrip(ns: seq<nat>)
    requires |ns| >= 1
    ensures ParseScores(FormatScores(ns)) == IntScores(ns)
  {
    var texts := ShowScores(ns);
    forall k | 0 <= k < |texts| ensures ',' !in texts[k] {
      DigitsHaveNoComma(ShowNat(ns[k]));
    }
    ScoresOfTokens(texts);
    var parsed := ParseScores(Join(texts, ","));
    assert |parsed| == |ns|;
    forall k | 0 <= k < |ns| ensures parsed[k] == IntScores(ns)[k] {
      ShownScore(ns[k]);
    }
  }

  /** Two comma-separated tokens read as two scores, in order. */
  lemma TwoScores(a: string, b: string)
    requires ',' !in a && ',' !in b
    ensures ParseScores(a + "," + b) == [ParseNum(a), ParseNum(b)]
  {
    var toks := [a, b];
    assert toks[1..] == [b];
    assert Join(toks, ",") == a + "," + b;
    ScoresOfTokens(toks);
  }

  /** Two whole-number scores written with a comma between them read back
      as those scores. */
  lemma ShownTwo(a: nat, b: nat)
    ensures ParseScores(ShowNat(a) + "," + ShowNat(b)) == [Int(a), Int(b)]
  {
    DigitsHaveNoComma(ShowNat(a));
    DigitsHaveNoComma(ShowNat(b));
    TwoScores(ShowNat(a), ShowNat(b));
    ShownScore(a);
    ShownScore(b);
  }

  /** The same for four scores. */
  lemma ShownFour(a: nat, b: nat, c: nat, d: nat)
    ensures ParseScores(ShowNat(a) + "," + ShowNat(b) + "," + ShowNat(c) + "," + ShowNat(d))
              == [Int(a), Int(b), Int(c), Int(d)]
  {
    FormatFour(a, b, c, d);
    IntScoresFour(a, b, c, d);
    ScoresRoundTrip([a, b, c, d]);
  }

  lemma FormatFour(a: nat, b: nat, c: nat, d: nat)
    ensures FormatScores([a, b, c, d]) == ShowNat(a) + "," + ShowNat(b) + "," + ShowNat(c) + "," + ShowNat(d)
  {
    assert ShowScores([a, b, c, d]) == [ShowNat(a), ShowNat(b), ShowNat(c), ShowNat(d)];
    JoinFour(ShowNat(a), ShowNat(b), ShowNat(c), ShowNat(d), ",");
  }

  lemma IntScoresFour(a: nat, b: nat, c: nat, d: nat)
    ensures IntScores([a, b, c, d]) == [Int(a), Int(b), Int(c), Int(d)]
  {
    var r := IntScores([a, b, c, d]);
    assert r[0] == Int(a) && r[1] == Int(b) && r[2] == Int(c) && r[3] == Int(d);
  }
}
