/** Figures of one page: each embedded image gets a vertical midpoint and a
    numbered caption, and the page's figures are then stably sorted by
    midpoint. */
module Figures {
  import opened Text

  /** An embedded image region as the extraction layer reports it, together
      with the description the vision model returned for its crop. */
  datatype Image = Image(x0: real, y0: real, x1: real, y1: real, desc: string)

  /** A captioned figure: sort key, document-wide figure number, caption text. */
  datatype Fig = Fig(mid: real, number: nat, caption: string)

  /** `y0 + (y1 - y0) / 2.0`: the point half way between the two edges. */
  function Midpoint(y0: real, y1: real): (m: real)
    ensures m - y0 == y1 - m
    ensures y0 <= y1 ==> y0 <= m <= y1
    ensures y1 <= y0 ==> y1 <= m <= y0
  {
    y0 + (y1 - y0) / 2.0
  }

  /** `f"{figure_text} {n}: {desc}"`. */
  function Caption(figureText: string, n: nat, desc: string): string
  {
    figureText + " " + NatToString(n) + ": " + desc
  }

  /** The caption starts with the label and a space, ends with a colon, a space
      and the description, and the digits between them read back as `n`. */
  lemma CaptionParts(figureText: string, n: nat, desc: string)
    ensures var c := Caption(figureText, n, desc);
      |c| == |figureText| + 1 + |NatToString(n)| + 2 + |desc| &&
      c[..|figureText| + 1] == figureText + " " &&
      c[|c| - |desc| - 2..] == ": " + desc &&
      c[|figureText| + 1..|c| - |desc| - 2] == NatToString(n)
  {
  }

  /** Captions with the same label and description differ whenever their
      numbers do. */
  lemma {:induction false} CaptionNumberRecoverable(figureText: string, m: nat, n: nat, desc: string)
    requires Caption(figureText, m, desc) == Caption(figureText, n, desc)
    ensures m == n
  {
    CaptionParts(figureText, m, desc);
    CaptionParts(figureText, n, desc);
    FormatInjective(m, n);
  }

  /** The figures of a page whose first image gets number `counter`, in image order. */
  function PageFigs(images: seq<Image>, figureText: string, counter: nat): seq<Fig>
  {
    seq(|images|, i requires 0 <= i < |images| =>
      Fig(Midpoint(images[i].y0, images[i].y1), counter + i,
          Caption(figureText, counter + i, images[i].desc)))
  }

  /** Figure numbers rise by exactly one from figure to figure. */
  predicate Consecutive(figs: seq<Fig>, first: nat)
  {
    forall i :: 0 <= i < |figs| ==> figs[i].number == first + i
  }

  /** Walks the page's images, describing and numbering each one and advancing
      the document-wide `figure_counter`. */
  method CaptionImages(images: seq<Image>, figureText: string, counter: nat)
    returns (figs: seq<Fig>, next: nat)
    ensures next == counter + |images|
    ensures figs == PageFigs(images, figureText, counter)
  {
    figs := [];
    next := counter;
    for i := 0 to |images|
      invariant next == counter + i
      invariant figs == PageFigs(images[..i], figureText, counter)
    {
      var im := images[i];
      var mid := Midpoint(im.y0, im.y1);
      figs := figs + [Fig(mid, next, Caption(figureText, next, im.desc))];
      next := next + 1;
    }
    assert images[..|images|] == images;
  }

  /** The figures of a page carry the numbers `counter`, `counter + 1`, ... */
  lemma PageFigsConsecutive(images: seq<Image>, figureText: string, counter: nat)
    ensures |PageFigs(images, figureText, counter)| == |images|
    ensures Consecutive(PageFigs(images, figureText, counter), counter)
  {
  }

  // ---------------------------------------------------------------------------
  // `figs.sort(key=lambda f: f[0])`: a stable sort on the midpoint
  // ---------------------------------------------------------------------------

  /** Inserts `f` after every figure whose midpoint is not greater than its own. */
  function Insert(f: Fig, sorted: seq<Fig>): (r: seq<Fig>)
    ensures multiset(r) == multiset(sorted) + multiset{f}
  {
    if sorted == [] || f.mid < sorted[0].mid then [f] + sorted
    else
      assert sorted == [sorted[0]] + sorted[1..];
      [sorted[0]] + Insert(f, sorted[1..])
  }

  /** Python's stable `list.sort` keyed on the midpoint, as an insertion sort
      that inserts later figures after earlier ones of equal midpoint. */
  function SortByMid(figs: seq<Fig>): (r: seq<Fig>)
    ensures multiset(r) == multiset(figs)
  {
    if figs == [] then []
    else
      assert figs == figs[..|figs| - 1] + [figs[|figs| - 1]];
      Insert(figs[|figs| - 1], SortByMid(figs[..|figs| - 1]))
  }

  predicate SortedByMid(figs: seq<Fig>)
  {
    forall i, j :: 0 <= i < j < |figs| ==> figs[i].mid <= figs[j].mid
  }

  /** `a` comes before `b` in a stable sort of figures numbered in input order. */
  predicate Precedes(a: Fig, b: Fig)
  {
    a.mid < b.mid || (a.mid == b.mid && a.number < b.number)
  }

  /** Ordered by midpoint, ties broken by figure number. */
  predicate StablyOrdered(figs: seq<Fig>)
  {
    forall i, j :: 0 <= i < j < |figs| ==> Precedes(figs[i], figs[j])
  }

  predicate IncreasingNumbers(figs: seq<Fig>)
  {
    forall i, j :: 0 <= i < j < |figs| ==> figs[i].number < figs[j].number
  }

  /** Every figure of `Insert(f, sorted)` is `f` or a figure of `sorted`. */
  lemma {:induction false} InsertFrom(f: Fig, sorted: seq<Fig>)
    ensures forall k :: 0 <= k < |Insert(f, sorted)| ==>
      Insert(f, sorted)[k] == f || Insert(f, sorted)[k] in sorted
  {
    if sorted != [] && f.mid >= sorted[0].mid {
      InsertFrom(f, sorted[1..]);
    }
  }

  lemma ConsOrdered(h: Fig, r: seq<Fig>)
    requires StablyOrdered(r)
    requires forall k :: 0 <= k < |r| ==> Precedes(h, r[k])
    ensures StablyOrdered([h] + r)
  {
  }

  lemma {:induction false} InsertOrdered(f: Fig, sorted: seq<Fig>)
    requires StablyOrdered(sorted)
    requires forall k :: 0 <= k < |sorted| ==> sorted[k].number < f.number
    ensures StablyOrdered(Insert(f, sorted))
  {
    if sorted == [] || f.mid < sorted[0].mid {
      ConsOrdered(f, sorted);
    } else {
      var h, rest := sorted[0], sorted[1..];
      InsertOrdered(f, rest);
      var r := Insert(f, rest);
      InsertFrom(f, rest);
      forall k | 0 <= k < |r|
        ensures Precedes(h, r[k])
      {
        if r[k] != f {
          var j :| 0 <= j < |rest| && rest[j] == r[k];
          assert sorted[j + 1] == r[k];
        }
      }
      ConsOrdered(h, r);
    }
  }

  /** The sort puts figures numbered in input order into midpoint order and
      keeps figures of equal midpoint in their input order. */
  lemma {:induction false} SortByMidStable(figs: seq<Fig>)
    requires IncreasingNumbers(figs)
    ensures StablyOrdered(SortByMid(figs))
    ensures SortedByMid(SortByMid(figs))
  {
    if figs != [] {
      var init := figs[..|figs| - 1];
      var last := figs[|figs| - 1];
      SortByMidStable(init);
      var s := SortByMid(init);
      forall k | 0 <= k < |s|
        ensures s[k].number < last.number
      {
        assert s[k] in multiset(init);
        var j :| 0 <= j < |init| && init[j] == s[k];
      }
      InsertOrdered(last, s);
    }
  }

  /** Two stably ordered permutations of the same figures start alike. */
  lemma StableHeadsAgree(a: seq<Fig>, b: seq<Fig>)
    requires StablyOrdered(a) && StablyOrdered(b)
    requires multiset(a) == multiset(b) && |a| > 0
    ensures |b| > 0 && a[0] == b[0]
  {
    assert |b| == |a| by { assert |multiset(a)| == |multiset(b)|; }
    var x, y := a[0], b[0];
    assert y in multiset(a);
    assert x in multiset(b);
    var i :| 0 <= i < |a| && a[i] == y;
    var j :| 0 <= j < |b| && b[j] == x;
    assert i > 0 ==> Precedes(x, y);
    assert j > 0 ==> Precedes(y, x);
  }

  /** Removing equal heads leaves permutations of the same figures. */
  lemma TailsPermuted(a: seq<Fig>, b: seq<Fig>)
    requires |a| > 0 && |b| > 0 && a[0] == b[0] && multiset(a) == multiset(b)
    ensures multiset(a[1..]) == multiset(b[1..])
  {
    assert a == [a[0]] + a[1..] && b == [b[0]] + b[1..];
    assert multiset(a[1..]) == multiset(a) - multiset{a[0]};
    assert multiset(b[1..]) == multiset(b) - multiset{b[0]};
  }

  /** The order of a stable sort is the only one: a stably ordered permutation
      of the same figures is the sorted sequence itself. */
  lemma {:induction false} StablyOrderedUnique(a: seq<Fig>, b: seq<Fig>)
    requires StablyOrdered(a) && StablyOrdered(b)
    requires multiset(a) == multiset(b)
    ensures a == b
    decreases |a|
  {
    if a != [] {
      StableHeadsAgree(a, b);
      TailsPermuted(a, b);
      StablyOrderedUnique(a[1..], b[1..]);
      assert a == [a[0]] + a[1..] && b == [b[0]] + b[1..];
    } else {
      assert |b| == 0 by { assert |multiset(a)| == |multiset(b)|; }
    }
  }
}
