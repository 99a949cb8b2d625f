/** Merging one page's positioned text lines with its sorted figures: after
    each line, pending figures are emitted while the line has a position and
    the next figure's midpoint is greater than or equal to it
    (`fig_y >= avg_y`); figures still pending after the last line are
    appended in order. */
module Interleave {
  import opened Wrappers
  import opened LinePositions
  import opened Figures

  /** One element of a page's output, remembering where it came from. */
  datatype Entry = LineE(text: string) | FigE(fig: Fig)
  {
    /** The output line this entry becomes. */
    function Text(): string
    {
      match this
      case LineE(t) => t
      case FigE(f) => f.caption
    }
  }

  function Texts(es: seq<Entry>): seq<string>
  {
    seq(|es|, i requires 0 <= i < |es| => es[i].Text())
  }

  function LineEs(lines: seq<PosLine>): seq<Entry>
  {
    seq(|lines|, i requires 0 <= i < |lines| => LineE(lines[i].text))
  }

  function FigEs(figs: seq<Fig>): seq<Entry>
  {
    seq(|figs|, i requires 0 <= i < |figs| => FigE(figs[i]))
  }

  function Captions(figs: seq<Fig>): seq<string>
  {
    seq(|figs|, i requires 0 <= i < |figs| => figs[i].caption)
  }

  function LineTexts(lines: seq<PosLine>): seq<string>
  {
    seq(|lines|, i requires 0 <= i < |lines| => lines[i].text)
  }

  /** The texts of the line entries, in order (the output with captions removed). */
  function LinesOf(es: seq<Entry>): seq<string>
  {
    if es == [] then []
    else (if es[0].LineE? then [es[0].text] else []) + LinesOf(es[1..])
  }

  /** The figures of the figure entries, in order. */
  function FigsOf(es: seq<Entry>): seq<Fig>
  {
    if es == [] then []
    else (if es[0].FigE? then [es[0].fig] else []) + FigsOf(es[1..])
  }

  /** The cursor after one line: starting at `k`, the longest run of pending
      figures that the line lets through (`avg_y is not None and fig_y >= avg_y`). */
  function Take(pos: Option<real>, figs: seq<Fig>, k: nat): (r: nat)
    requires k <= |figs|
    ensures k <= r <= |figs|
    ensures forall j :: k <= j < r ==> pos.Some? && figs[j].mid >= pos.value
    ensures r < |figs| ==> pos.None? || figs[r].mid < pos.value
    decreases |figs| - k
  {
    if k < |figs| && pos.Some? && figs[k].mid >= pos.value then Take(pos, figs, k + 1) else k
  }

  /** The page's output from cursor `k` on: each line, then the figures it lets
      through; after the last line, every figure still pending. */
  function MergeFrom(lines: seq<PosLine>, figs: seq<Fig>, k: nat): seq<Entry>
    requires k <= |figs|
    decreases |lines|
  {
    if lines == [] then FigEs(figs[k..])
    else
      var k' := Take(lines[0].pos, figs, k);
      [LineE(lines[0].text)] + FigEs(figs[k..k']) + MergeFrom(lines[1..], figs, k')
  }

  /** The page's whole output. */
  function Merge(lines: seq<PosLine>, figs: seq<Fig>): seq<Entry>
  {
    MergeFrom(lines, figs, 0)
  }

  lemma TextsAppend(a: seq<Entry>, b: seq<Entry>)
    ensures Texts(a + b) == Texts(a) + Texts(b)
  {
  }

  /** One step of the merge: a line, the figures it lets through, and the rest. */
  lemma MergeStep(lines: seq<PosLine>, i: nat, figs: seq<Fig>, k: nat)
    requires i < |lines| && k <= |figs|
    ensures var t := Take(lines[i].pos, figs, k);
      Texts(MergeFrom(lines[i..], figs, k))
        == [lines[i].text] + Captions(figs[k..t]) + Texts(MergeFrom(lines[i + 1..], figs, t))
  {
    var t := Take(lines[i].pos, figs, k);
    assert lines[i..][1..] == lines[i + 1..];
    var rest := MergeFrom(lines[i + 1..], figs, t);
    assert MergeFrom(lines[i..], figs, k) == [LineE(lines[i].text)] + FigEs(figs[k..t]) + rest;
    assert Texts([LineE(lines[i].text)] + FigEs(figs[k..t])) == [lines[i].text] + Captions(figs[k..t]);
    TextsAppend([LineE(lines[i].text)] + FigEs(figs[k..t]), rest);
  }

  /** The inner loop after one line: emits pending figures while the line has a
      position and the next figure's midpoint is greater than or equal to it. */
  method EmitAfterLine(pos: Option<real>, figs: seq<Fig>, start: nat)
    returns (emitted: seq<string>, next: nat)
    requires start <= |figs|
    ensures next == Take(pos, figs, start)
    ensures emitted == Captions(figs[start..next])
  {
    emitted := [];
    next := start;
    while next < |figs|
      invariant start <= next <= Take(pos, figs, start)
      invariant Take(pos, figs, next) == Take(pos, figs, start)
      invariant emitted == Captions(figs[start..next])
      decreases |figs| - next
    {
      var fig := figs[next];
      if pos.Some? && fig.mid >= pos.value {
        assert Captions(figs[start..next + 1]) == Captions(figs[start..next]) + [fig.caption];
        emitted := emitted + [fig.caption];
        next := next + 1;
      } else {
        break;
      }
    }
  }

  /** One turn of the interleaving loop keeps the output a prefix of the whole. */
  lemma InterleaveStep(lines: seq<PosLine>, i: nat, figs: seq<Fig>, k: nat,
                       output: seq<string>, whole: seq<string>)
    requires i < |lines| && k <= |figs|
    requires output + Texts(MergeFrom(lines[i..], figs, k)) == whole
    ensures var t := Take(lines[i].pos, figs, k);
      output + [lines[i].text] + Captions(figs[k..t]) + Texts(MergeFrom(lines[i + 1..], figs, t)) == whole
  {
    MergeStep(lines, i, figs, k);
  }

  /** The loop after the last line: every figure still pending, in order. */
  method EmitRemaining(figs: seq<Fig>, start: nat) returns (emitted: seq<string>)
    requires start <= |figs|
    ensures emitted == Captions(figs[start..])
  {
    emitted := [];
    var figIdx := start;
    while figIdx < |figs|
      invariant start <= figIdx <= |figs|
      invariant emitted == Captions(figs[start..figIdx])
      decreases |figs| - figIdx
    {
      assert Captions(figs[start..figIdx + 1]) == Captions(figs[start..figIdx]) + [figs[figIdx].caption];
      emitted := emitted + [figs[figIdx].caption];
      figIdx := figIdx + 1;
    }
    assert figs[start..figIdx] == figs[start..];
  }

  /** The interleaving loop of the page assembly: `output_lines` is built by
      appending, and `fig_idx` only moves forward. */
  method InterleavePage(lines: seq<PosLine>, figs: seq<Fig>) returns (output: seq<string>)
    ensures output == Texts(Merge(lines, figs))
  {
    ghost var whole := Texts(Merge(lines, figs));
    output := [];
    var figIdx: nat := 0;
    for i := 0 to |lines|
      invariant figIdx <= |figs|
      invariant output + Texts(MergeFrom(lines[i..], figs, figIdx)) == whole
    {
      var emitted, next := EmitAfterLine(lines[i].pos, figs, figIdx);
      InterleaveStep(lines, i, figs, figIdx, output, whole);
      output := output + [lines[i].text] + emitted;
      figIdx := next;
    }
    var rest := EmitRemaining(figs, figIdx);
    assert lines[|lines|..] == [];
    assert Texts(MergeFrom([], figs, figIdx)) == rest;
    output := output + rest;
  }

  // ---------------------------------------------------------------------------
  // What the merge keeps and where it puts the figures
  // ---------------------------------------------------------------------------

  lemma {:induction false} LinesOfAppend(a: seq<Entry>, b: seq<Entry>)
    ensures LinesOf(a + b) == LinesOf(a) + LinesOf(b)
  {
    if a != [] {
      assert (a + b)[0] == a[0];
      assert (a + b)[1..] == a[1..] + b;
      LinesOfAppend(a[1..], b);
    } else {
      assert a + b == b;
    }
  }

  lemma {:induction false} FigsOfAppend(a: seq<Entry>, b: seq<Entry>)
    ensures FigsOf(a + b) == FigsOf(a) + FigsOf(b)
  {
    if a != [] {
      assert (a + b)[0] == a[0];
      assert (a + b)[1..] == a[1..] + b;
      FigsOfAppend(a[1..], b);
    } else {
      assert a + b == b;
    }
  }

  lemma {:induction false} FigEntries(figs: seq<Fig>)
    ensures LinesOf(FigEs(figs)) == [] && FigsOf(FigEs(figs)) == figs
  {
    if figs != [] {
      assert FigEs(figs)[1..] == FigEs(figs[1..]);
      FigEntries(figs[1..]);
    }
  }

  /** Removing the captions from the output leaves exactly the page's lines, in order. */
  lemma {:induction false} MergeKeepsLines(lines: seq<PosLine>, figs: seq<Fig>, k: nat)
    requires k <= |figs|
    ensures LinesOf(MergeFrom(lines, figs, k)) == LineTexts(lines)
    decreases |lines|
  {
    if lines == [] {
      FigEntries(figs[k..]);
    } else {
      var t := Take(lines[0].pos, figs, k);
      var head := [LineE(lines[0].text)] + FigEs(figs[k..t]);
      LinesOfAppend(head, MergeFrom(lines[1..], figs, t));
      LinesOfAppend([LineE(lines[0].text)], FigEs(figs[k..t]));
      FigEntries(figs[k..t]);
      MergeKeepsLines(lines[1..], figs, t);
      assert LineTexts(lines) == [lines[0].text] + LineTexts(lines[1..]);
    }
  }

  /** Removing the lines from the output leaves exactly the pending figures, in
      their (sorted) order: every figure appears once and none is reordered. */
  lemma {:induction false} MergeKeepsFigs(lines: seq<PosLine>, figs: seq<Fig>, k: nat)
    requires k <= |figs|
    ensures FigsOf(MergeFrom(lines, figs, k)) == figs[k..]
    decreases |lines|
  {
    if lines == [] {
      FigEntries(figs[k..]);
    } else {
      var t := Take(lines[0].pos, figs, k);
      var head := [LineE(lines[0].text)] + FigEs(figs[k..t]);
      var rest := MergeFrom(lines[1..], figs, t);
      assert MergeFrom(lines, figs, k) == head + rest;
      assert FigsOf(head) == figs[k..t] by {
        assert FigsOf([LineE(lines[0].text)]) == [] by {
          assert [LineE(lines[0].text)][1..] == [];
        }
        FigsOfAppend([LineE(lines[0].text)], FigEs(figs[k..t]));
        FigEntries(figs[k..t]);
      }
      FigsOfAppend(head, rest);
      MergeKeepsFigs(lines[1..], figs, t);
      assert figs[k..] == figs[k..t] + figs[t..];
    }
  }

  /** The output has one entry per line and one per pending figure. */
  lemma {:induction false} MergeLength(lines: seq<PosLine>, figs: seq<Fig>, k: nat)
    requires k <= |figs|
    ensures |MergeFrom(lines, figs, k)| == |lines| + |figs| - k
    decreases |lines|
  {
    if lines != [] {
      MergeLength(lines[1..], figs, Take(lines[0].pos, figs, k));
    }
  }

  /** The output always opens with the page's first line. */
  lemma MergeStartsWithLine(lines: seq<PosLine>, figs: seq<Fig>, k: nat)
    requires k <= |figs| && |lines| > 0
    ensures MergeFrom(lines, figs, k)[0] == LineE(lines[0].text)
  {
  }

  /** Once every figure has been emitted, the remaining lines follow unchanged. */
  lemma {:induction false} MergeExhausted(lines: seq<PosLine>, figs: seq<Fig>)
    ensures MergeFrom(lines, figs, |figs|) == LineEs(lines)
    decreases |lines|
  {
    if lines != [] {
      MergeExhausted(lines[1..], figs);
      assert LineEs(lines) == [LineE(lines[0].text)] + LineEs(lines[1..]);
    }
  }

  /** A page without figures is output as its lines, unchanged. */
  lemma MergeNoFigures(lines: seq<PosLine>)
    ensures Merge(lines, []) == LineEs(lines)
  {
    MergeExhausted(lines, []);
  }

  /** When no line has a position, every figure goes after the last line. */
  lemma {:induction false} MergeUnknownPositions(lines: seq<PosLine>, figs: seq<Fig>, k: nat)
    requires k <= |figs|
    requires forall i :: 0 <= i < |lines| ==> lines[i].pos.None?
    ensures MergeFrom(lines, figs, k) == LineEs(lines) + FigEs(figs[k..])
    decreases |lines|
  {
    if lines != [] {
      assert Take(lines[0].pos, figs, k) == k;
      assert FigEs(figs[k..k]) == [];
      assert MergeFrom(lines, figs, k) == [LineE(lines[0].text)] + MergeFrom(lines[1..], figs, k);
      MergeUnknownPositions(lines[1..], figs, k);
      assert LineEs(lines) == [LineE(lines[0].text)] + LineEs(lines[1..]);
    }
  }

  /** With figures sorted by midpoint, a line that lets one pending figure
      through lets all of them through. */
  lemma SortedTakeAll(pos: Option<real>, figs: seq<Fig>, k: nat)
    requires k <= |figs| && SortedByMid(figs)
    requires Take(pos, figs, k) > k
    ensures Take(pos, figs, k) == |figs|
  {
  }

  /** The line has a position smaller than or equal to the midpoint `m`. */
  predicate Reaches(line: PosLine, m: real)
  {
    line.pos.Some? && line.pos.value <= m
  }

  /** How many lines precede the figures when the least figure midpoint is
      `m`: up to and including the first line that reaches `m`, or all lines. */
  function LinesBeforeFigures(lines: seq<PosLine>, m: real): (c: nat)
    ensures c <= |lines|
    ensures forall i :: 0 <= i < c - 1 ==> !Reaches(lines[i], m)
    ensures c < |lines| ==> 0 < c && Reaches(lines[c - 1], m)
  {
    if lines == [] then 0
    else if Reaches(lines[0], m) then 1
    else 1 + LinesBeforeFigures(lines[1..], m)
  }

  lemma LineEsAppend(a: seq<PosLine>, b: seq<PosLine>)
    ensures LineEs(a + b) == LineEs(a) + LineEs(b)
  {
  }

  /** A first line that reaches the least midpoint lets every figure through. */
  lemma ShapeFirstReaches(lines: seq<PosLine>, figs: seq<Fig>)
    requires SortedByMid(figs) && |figs| > 0 && |lines| > 0
    requires Reaches(lines[0], figs[0].mid)
    ensures Merge(lines, figs) == LineEs(lines[..1]) + FigEs(figs) + LineEs(lines[1..])
  {
    assert LineEs(lines[..1]) == [LineE(lines[0].text)];
    SortedTakeAll(lines[0].pos, figs, 0);
    MergeExhausted(lines[1..], figs);
    assert figs[0..|figs|] == figs;
  }

  /** A first line that does not reach the least midpoint lets none through. */
  lemma ShapeFirstMisses(lines: seq<PosLine>, figs: seq<Fig>)
    requires SortedByMid(figs) && |figs| > 0 && |lines| > 0
    requires !Reaches(lines[0], figs[0].mid)
    ensures Merge(lines, figs) == [LineE(lines[0].text)] + Merge(lines[1..], figs)
  {
    assert Take(lines[0].pos, figs, 0) == 0;
    assert FigEs(figs[0..0]) == [];
  }

  /** With sorted figures, the page's figures all appear together, right after
      the first line whose position is smaller than or equal to the least
      figure midpoint, or after the last line if there is no such line. */
  lemma {:induction false} MergeSortedShape(lines: seq<PosLine>, figs: seq<Fig>)
    requires SortedByMid(figs) && |figs| > 0
    ensures var c := LinesBeforeFigures(lines, figs[0].mid);
      Merge(lines, figs) == LineEs(lines[..c]) + FigEs(figs) + LineEs(lines[c..])
    decreases |lines|
  {
    var c := LinesBeforeFigures(lines, figs[0].mid);
    if lines == [] {
      assert figs[0..] == figs;
    } else if Reaches(lines[0], figs[0].mid) {
      ShapeFirstReaches(lines, figs);
    } else {
      var c' := LinesBeforeFigures(lines[1..], figs[0].mid);
      assert c == 1 + c';
      ShapeFirstMisses(lines, figs);
      MergeSortedShape(lines[1..], figs);
      assert lines[..c] == lines[..1] + lines[1..][..c'];
      LineEsAppend(lines[..1], lines[1..][..c']);
      assert LineEs(lines[..1]) == [LineE(lines[0].text)];
      assert LineEs(lines[..c]) == [LineE(lines[0].text)] + LineEs(lines[1..][..c']);
      assert lines[1..][c'..] == lines[c..];
    }
  }

  /** Lines at 10, 50 and 90 with one figure at 60: the figure follows the line
      at 10, the first line whose position is smaller than or equal to 60. */
  lemma ExampleFigureFollowsFirstReachingLine(caption: string)
    ensures var a, b, c := PosLine("a", Some(10.0)), PosLine("b", Some(50.0)), PosLine("c", Some(90.0));
      var f := Fig(60.0, 1, caption);
      Merge([a, b, c], [f]) == [LineE("a"), FigE(f), LineE("b"), LineE("c")]
  {
    var a, b, c := PosLine("a", Some(10.0)), PosLine("b", Some(50.0)), PosLine("c", Some(90.0));
    var f := Fig(60.0, 1, caption);
    MergeExhausted([b, c], [f]);
    assert [a, b, c][1..] == [b, c];
  }
}
