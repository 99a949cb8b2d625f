/** Approximate vertical position of each text line of a page: the mean `top`
    of the extracted words whose text occurs in the line, or `None` when no
    word occurs in it. */
module LinePositions {
  import opened Wrappers
  import opened Text

  /** A word as the PDF extraction layer reports it: its text and the
      distance of its top edge from the top of the page. */
  datatype Word = Word(text: string, top: real)

  /** A line of page text with its approximate position (`avg_y`). */
  datatype PosLine = PosLine(text: string, pos: Option<real>)

  /** The word's text occurs in the line (`w['text'] in ln`). */
  predicate Matches(w: Word, line: string)
  {
    Contains(line, w.text)
  }

  /** The `top` of every word that matches the line, in word order. */
  function MatchingTops(words: seq<Word>, line: string): (tops: seq<real>)
    ensures |tops| <= |words|
    ensures |tops| == 0 <==> forall i :: 0 <= i < |words| ==> !Matches(words[i], line)
  {
    if words == [] then []
    else (if Matches(words[0], line) then [words[0].top] else []) + MatchingTops(words[1..], line)
  }

  function Sum(xs: seq<real>): real
  {
    if xs == [] then 0.0 else xs[0] + Sum(xs[1..])
  }

  function Min(xs: seq<real>): real
    requires |xs| > 0
  {
    if |xs| == 1 then xs[0]
    else var m := Min(xs[1..]); if xs[0] <= m then xs[0] else m
  }

  function Max(xs: seq<real>): real
    requires |xs| > 0
  {
    if |xs| == 1 then xs[0]
    else var m := Max(xs[1..]); if xs[0] >= m then xs[0] else m
  }

  /** The position of one line: `sum(tops) / len(tops)` over the matching words. */
  function LinePosition(words: seq<Word>, line: string): Option<real>
  {
    var tops := MatchingTops(words, line);
    if |tops| == 0 then None else Some(Mean(tops))
  }

  /** `sum(xs) / len(xs)`. */
  function Mean(xs: seq<real>): real
    requires |xs| > 0
  {
    Sum(xs) / (|xs| as real)
  }

  /** A line has no position exactly when no word occurs in it. */
  lemma PositionAbsentIff(words: seq<Word>, line: string)
    ensures LinePosition(words, line).None? <==>
      forall i :: 0 <= i < |words| ==> !Matches(words[i], line)
  {
  }

  /** The minimum and the maximum bound the sum from both sides. */
  lemma {:induction false} SumBounds(xs: seq<real>)
    requires |xs| > 0
    ensures (|xs| as real) * Min(xs) <= Sum(xs) <= (|xs| as real) * Max(xs)
  {
    if |xs| > 1 {
      var n := (|xs| - 1) as real;
      var lo, hi := Min(xs), Max(xs);
      SumBounds(xs[1..]);
      assert lo <= Min(xs[1..]) && lo <= xs[0];
      assert Max(xs[1..]) <= hi && xs[0] <= hi;
      ScaleMonotone(n, lo, Min(xs[1..]));
      ScaleMonotone(n, Max(xs[1..]), hi);
      ScaleSucc(n, lo);
      ScaleSucc(n, hi);
      assert |xs| as real == n + 1.0;
      assert Sum(xs) == xs[0] + Sum(xs[1..]);
    }
  }

  lemma ScaleMonotone(n: real, a: real, b: real)
    requires n >= 0.0 && a <= b
    ensures n * a <= n * b
  {
  }

  lemma ScaleSucc(n: real, a: real)
    ensures (n + 1.0) * a == n * a + a
  {
  }

  /** The mean of a non-empty sequence lies between its minimum and its maximum. */
  lemma MeanBetween(xs: seq<real>)
    requires |xs| > 0
    ensures Min(xs) <= Mean(xs) <= Max(xs)
  {
    SumBounds(xs);
    DivideBounds(|xs| as real, Sum(xs), Min(xs), Max(xs));
  }

  lemma DivideBounds(n: real, s: real, lo: real, hi: real)
    requires n > 0.0 && n * lo <= s <= n * hi
    ensures lo <= s / n <= hi
  {
    MulDiv(s, n);
    CancelPositive(n, lo, s / n);
    CancelPositive(n, s / n, hi);
  }

  lemma MulDiv(s: real, n: real)
    requires n > 0.0
    ensures n * (s / n) == s
  {
  }

  lemma CancelPositive(n: real, a: real, b: real)
    requires n > 0.0 && n * a <= n * b
    ensures a <= b
  {
  }

  /** A present position comes from at least one matching word and lies
      between the least and the greatest `top` of the matching words. */
  lemma PositionWithinTops(words: seq<Word>, line: string)
    requires LinePosition(words, line).Some?
    ensures |MatchingTops(words, line)| > 0
    ensures Min(MatchingTops(words, line)) <= LinePosition(words, line).value
      <= Max(MatchingTops(words, line))
  {
    MeanBetween(MatchingTops(words, line));
  }

  /** A present position times the number of matching words is the sum of
      their `top` values. */
  lemma PositionIsMean(words: seq<Word>, line: string)
    requires LinePosition(words, line).Some?
    ensures (|MatchingTops(words, line)| as real) * LinePosition(words, line).value
      == Sum(MatchingTops(words, line))
  {
    MeanTimesLength(MatchingTops(words, line));
  }

  lemma MeanTimesLength(xs: seq<real>)
    requires |xs| > 0
    ensures (|xs| as real) * Mean(xs) == Sum(xs)
  {
    MulDiv(Sum(xs), |xs| as real);
  }

  /** Positions every line of the page in turn (`line_positions.append(...)`). */
  method PositionLines(lines: seq<string>, words: seq<Word>) returns (positioned: seq<PosLine>)
    ensures |positioned| == |lines|
    ensures forall i :: 0 <= i < |lines| ==>
      positioned[i] == PosLine(lines[i], LinePosition(words, lines[i]))
  {
    positioned := [];
    for i := 0 to |lines|
      invariant |positioned| == i
      invariant forall j :: 0 <= j < i ==>
        positioned[j] == PosLine(lines[j], LinePosition(words, lines[j]))
    {
      positioned := positioned + [PosLine(lines[i], LinePosition(words, lines[i]))];
    }
  }
}
