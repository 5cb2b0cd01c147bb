/** The second step of line reconstruction: one greedy pass over the
    y-sorted detections that cuts them into lines. The pass keeps an open
    line and a reference y (`current_y`), pinned to the y of the line's
    first member; a detection whose y differs from the reference by more
    than the threshold closes the open line and opens a new one with itself
    as first member.

    `Scan` is that loop, one detection at a time; `LineGroups` gives the
    lines it produces, before their tokens are joined. `IsGreedyPartition`
    describes the same lines without reference to the loop, and the lemmas
    below prove that the loop's lines are exactly the one partition it
    describes. */
module LineScan {
  import opened Detections
  import opened StableSort

  /** The loop's variables after some prefix of the sorted detections:
      the lines already closed (`lines`, before the join), the open line
      (`current_line`) and the reference y (`current_y`). */
  datatype ScanState = ScanState(closed: seq<seq<Detection>>, open: seq<Detection>, ref: int)

  /** One iteration of the loop: the strict comparison of the distance to
      the reference with the threshold decides between opening a new line
      and extending the open one. */
  function Step(st: ScanState, d: Detection, threshold: int): ScanState
  {
    if Abs(d.y - st.ref) > threshold then ScanState(st.closed + [st.open], [d], d.y)
    else ScanState(st.closed, st.open + [d], st.ref)
  }

  /** The loop run over `s`, starting with no lines, an empty open line and
      the reference `ref0`. */
  function Scan(s: seq<Detection>, ref0: int, threshold: int): ScanState
  {
    if s == [] then ScanState([], [], ref0)
    else Step(Scan(s[..|s| - 1], ref0, threshold), s[|s| - 1], threshold)
  }

  /** Reading one more detection is one more step. */
  lemma ScanAppend(s: seq<Detection>, d: Detection, ref0: int, threshold: int)
    ensures Scan(s + [d], ref0, threshold) == Step(Scan(s, ref0, threshold), d, threshold)
  {
    assert (s + [d])[..|s|] == s;
  }

  /** Either way an iteration goes, the detection ends the open line; the
      reference moves only when the detection opens a new line, and the
      only line closed is the old open one. */
  lemma StepFacts(st: ScanState, d: Detection, threshold: int)
    ensures Step(st, d, threshold).open != []
    ensures Step(st, d, threshold).open[|Step(st, d, threshold).open| - 1] == d
    ensures Step(st, d, threshold).ref == st.ref
         || (Step(st, d, threshold).open == [d] && Step(st, d, threshold).ref == d.y)
    ensures Step(st, d, threshold).closed == st.closed
         || Step(st, d, threshold).closed == st.closed + [st.open]
  {
  }

  /** An iteration loses no detection: the lines and the open line gain
      exactly the detection read. */
  lemma StepConserves(st: ScanState, d: Detection, threshold: int)
    ensures Flatten(Step(st, d, threshold).closed + [Step(st, d, threshold).open])
         == Flatten(st.closed + [st.open]) + [d]
  {
    if Abs(d.y - st.ref) > threshold {
      FlattenAppend(st.closed + [st.open], [d]);
    } else {
      FlattenAppend(st.closed, st.open + [d]);
      FlattenAppend(st.closed, st.open);
    }
  }

  /** Every detection read so far lies in a closed line or the open line,
      in reading order, and once a detection is read the open line is never
      empty. */
  lemma {:induction false} ScanConserves(s: seq<Detection>, ref0: int, threshold: int)
    ensures Flatten(Scan(s, ref0, threshold).closed + [Scan(s, ref0, threshold).open]) == s
    ensures s != [] ==> Scan(s, ref0, threshold).open != []
  {
    if s == [] {
      FlattenAppend<Detection>([], []);
    } else {
      var init, d := s[..|s| - 1], s[|s| - 1];
      var st := Scan(init, ref0, threshold);
      ScanConserves(init, ref0, threshold);
      assert Scan(s, ref0, threshold) == Step(st, d, threshold);
      StepConserves(st, d, threshold);
      StepFacts(st, d, threshold);
      assert s == init + [d];
    }
  }


  /** The lines, before joining, that the pass makes of `s`: the reference
      starts at the y of the first detection, and after the loop the open
      line is closed when it is non-empty. With no detections there is no
      first y to read; that path yields no lines. */
  function LineGroups(s: seq<Detection>, threshold: int): seq<seq<Detection>>
  {
    if s == [] then []
    else
      var st := Scan(s, s[0].y, threshold);
      st.closed + (if st.open == [] then [] else [st.open])
  }

  /** No detections give no lines, and otherwise the last line holds a
      detection: the final `if current_line` never adds an empty line. */
  lemma LineGroupsLastLine(s: seq<Detection>, threshold: int)
    ensures s == [] <==> LineGroups(s, threshold) == []
    ensures s != [] ==> LineGroups(s, threshold)[|LineGroups(s, threshold)| - 1] != []
  {
    if s != [] {
      ScanConserves(s, s[0].y, threshold);
    }
  }

  /** A line whose every member lies within `threshold` of its first
      member; the empty line is not one. */
  predicate PinnedLine(line: seq<Detection>, threshold: int)
  {
    line != [] && forall m :: 0 <= m < |line| ==> Abs(line[m].y - line[0].y) <= threshold
  }

  /** `lines` cuts `s` into consecutive pinned lines, and the first member
      of every line but the first lies farther than `threshold` from the
      first member of the line before it. Consecutive lines are named by two
      indices `i` and `j == i + 1` rather than by `i` and `i - 1`: a
      trigger on `lines[i - 1]` lets the quantifier instantiate itself over
      and over (a matching loop). The statements about consecutive lines
      below use the same form. */
  ghost predicate IsGreedyPartition(s: seq<Detection>, lines: seq<seq<Detection>>, threshold: int)
  {
    && Flatten(lines) == s
    && (forall i :: 0 <= i < |lines| ==> PinnedLine(lines[i], threshold))
    && (forall i, j :: 0 <= i < j < |lines| && j == i + 1 ==> Abs(lines[j][0].y - lines[i][0].y) > threshold)
  }

  /** Opening a new line with `d` keeps a greedy partition greedy when
      `d` lies farther than the threshold from the last line's first member. */
  lemma GreedyOpen(s: seq<Detection>, lines: seq<seq<Detection>>, d: Detection, threshold: int)
    requires IsGreedyPartition(s, lines, threshold) && lines != []
    requires Abs(d.y - lines[|lines| - 1][0].y) > threshold
    requires threshold >= 0
    ensures IsGreedyPartition(s + [d], lines + [[d]], threshold)
  {
    var lines': seq<seq<Detection>> := lines + [[d]];
    FlattenAppend(lines, [d]);
    assert PinnedLine([d], threshold);
    forall i: int | 0 <= i < |lines|
      ensures lines'[i] == lines[i]
    {
    }
  }

  /** Appending `d` to the last line keeps a greedy partition greedy when
      `d` lies within the threshold of that line's first member. */
  lemma GreedyExtend(s: seq<Detection>, lines: seq<seq<Detection>>, d: Detection, threshold: int)
    requires IsGreedyPartition(s, lines, threshold) && lines != []
    requires Abs(d.y - lines[|lines| - 1][0].y) <= threshold
    ensures IsGreedyPartition(s + [d], lines[..|lines| - 1] + [lines[|lines| - 1] + [d]], threshold)
  {
    var init, last := lines[..|lines| - 1], lines[|lines| - 1];
    var lines': seq<seq<Detection>> := init + [last + [d]];
    FlattenAppend(init, last + [d]);
    assert lines == init + [last];
    FlattenAppend(init, last);
    assert PinnedLine(last, threshold);
    assert PinnedLine(last + [d], threshold) by {
      forall m | 0 <= m < |last + [d]|
        ensures Abs((last + [d])[m].y - (last + [d])[0].y) <= threshold
      {
        if m < |last| {
          assert (last + [d])[m] == last[m];
        }
      }
    }
    forall i: int | 0 <= i < |init|
      ensures lines'[i] == lines[i]
    {
    }
    assert lines'[|init|][0] == lines[|init|][0];
  }

  /** Removing a last line of one member leaves a greedy partition of the
      rest, whose last first member lies farther than the threshold from
      the removed one. */
  lemma GreedyUnopen(s: seq<Detection>, lines: seq<seq<Detection>>, threshold: int)
    requires IsGreedyPartition(s, lines, threshold) && lines != []
    requires |lines[|lines| - 1]| == 1
    ensures s != [] && s[|s| - 1] == lines[|lines| - 1][0]
    ensures IsGreedyPartition(s[..|s| - 1], lines[..|lines| - 1], threshold)
    ensures |lines| > 1 ==> Abs(s[|s| - 1].y - lines[|lines| - 2][0].y) > threshold
  {
    var init: seq<seq<Detection>> := lines[..|lines| - 1];
    assert Flatten(lines) == Flatten(init) + lines[|lines| - 1];
    forall i: int | 0 <= i < |init|
      ensures init[i] == lines[i]
    {
    }
  }

  /** Removing the last member of a last line of several members leaves a
      greedy partition of the rest, and the removed member lies within the
      threshold of that line's first member. */
  lemma GreedyUnextend(s: seq<Detection>, lines: seq<seq<Detection>>, threshold: int)
    requires IsGreedyPartition(s, lines, threshold) && lines != []
    requires |lines[|lines| - 1]| > 1
    ensures s != [] && s[|s| - 1] == lines[|lines| - 1][|lines[|lines| - 1]| - 1]
    ensures IsGreedyPartition(s[..|s| - 1],
      lines[..|lines| - 1] + [lines[|lines| - 1][..|lines[|lines| - 1]| - 1]], threshold)
    ensures Abs(s[|s| - 1].y - lines[|lines| - 1][0].y) <= threshold
  {
    var init, last := lines[..|lines| - 1], lines[|lines| - 1];
    var last' := last[..|last| - 1];
    var lines': seq<seq<Detection>> := init + [last'];
    assert Flatten(lines) == Flatten(init) + last;
    FlattenAppend(init, last');
    assert last == last' + [last[|last| - 1]];
    assert PinnedLine(last, threshold);
    assert PinnedLine(last', threshold) by {
      forall m | 0 <= m < |last'|
        ensures Abs(last'[m].y - last'[0].y) <= threshold
      {
        assert last'[m] == last[m];
      }
    }
    forall i: int | 0 <= i < |init|
      ensures lines'[i] == lines[i]
    {
    }
    assert lines'[|init|][0] == lines[|init|][0];
    assert s[|s| - 1] == last[|last| - 1];
  }

  /** The loop invariant of the pass for a non-negative threshold, over
      the detections `s` read so far: the open line is non-empty, its first
      member fixes the reference, and closed lines plus the open line form a
      greedy partition of `s`. */
  ghost predicate ScanInvariant(s: seq<Detection>, st: ScanState, threshold: int)
  {
    && st.open != []
    && st.ref == st.open[0].y
    && IsGreedyPartition(s, st.closed + [st.open], threshold)
  }

  /** One iteration keeps the loop invariant. */
  lemma StepKeepsInvariant(s: seq<Detection>, st: ScanState, d: Detection, threshold: int)
    requires threshold >= 0 && ScanInvariant(s, st, threshold)
    ensures ScanInvariant(s + [d], Step(st, d, threshold), threshold)
  {
    var lines := st.closed + [st.open];
    assert lines[|lines| - 1] == st.open;
    if Abs(d.y - st.ref) > threshold {
      GreedyOpen(s, lines, d, threshold);
      assert Step(st, d, threshold).closed + [Step(st, d, threshold).open] == lines + [[d]];
    } else {
      GreedyExtend(s, lines, d, threshold);
      assert lines[..|lines| - 1] == st.closed;
    }
  }

  /** After the first detection the invariant holds: the first comparison
      is of a y with itself, so the detection joins the empty open line. */
  lemma ScanGreedyFirst(s: seq<Detection>, threshold: int)
    requires threshold >= 0 && |s| == 1
    ensures ScanInvariant(s, Scan(s, s[0].y, threshold), threshold)
  {
    var d := s[0];
    FlattenAppend([], [d]);
    assert s == [d];
    assert Scan(s, s[0].y, threshold) == ScanState([], [d], d.y);
    assert [] + [[d]] == [[d]];
  }

  /** The loop invariant holds after every non-empty prefix. */
  lemma {:induction false} ScanGreedy(s: seq<Detection>, threshold: int)
    requires threshold >= 0 && s != []
    ensures ScanInvariant(s, Scan(s, s[0].y, threshold), threshold)
  {
    var n := |s|;
    var init, d := s[..n - 1], s[n - 1];
    assert s == init + [d];
    if n == 1 {
      ScanGreedyFirst(s, threshold);
    } else {
      assert init[0] == s[0];
      ScanGreedy(init, threshold);
      StepKeepsInvariant(init, Scan(init, s[0].y, threshold), d, threshold);
      assert Scan(s, s[0].y, threshold) == Step(Scan(init, s[0].y, threshold), d, threshold);
    }
  }

  /** For a non-negative threshold the pass yields a greedy partition of
      its input: no detection is dropped, duplicated or reordered, no line
      is empty, members stay within the threshold of their line's first
      member, and consecutive first members are farther apart than it. */
  lemma LineGroupsGreedy(s: seq<Detection>, threshold: int)
    requires threshold >= 0
    ensures IsGreedyPartition(s, LineGroups(s, threshold), threshold)
  {
    if s != [] {
      ScanGreedy(s, threshold);
    }
  }

  /** The pass over `s + [d]` when `d` is too far from the reference: the
      open line is closed and `d` opens the next one. */
  lemma ScanOpens(s: seq<Detection>, d: Detection, init: seq<seq<Detection>>, threshold: int)
    requires s != [] && init != [] && init[|init| - 1] != []
    requires Scan(s, s[0].y, threshold)
      == ScanState(init[..|init| - 1], init[|init| - 1], init[|init| - 1][0].y)
    requires Abs(d.y - init[|init| - 1][0].y) > threshold
    ensures Scan(s + [d], s[0].y, threshold) == ScanState(init, [d], d.y)
  {
    assert (s + [d])[..|s|] == s;
    assert init[..|init| - 1] + [init[|init| - 1]] == init;
  }

  /** The pass over `s + [d]` when `d` is close enough to the reference: `d`
      joins the open line. */
  lemma ScanExtends(s: seq<Detection>, d: Detection, init: seq<seq<Detection>>, open: seq<Detection>, threshold: int)
    requires s != [] && open != []
    requires Scan(s, s[0].y, threshold) == ScanState(init, open, open[0].y)
    requires Abs(d.y - open[0].y) <= threshold
    ensures Scan(s + [d], s[0].y, threshold) == ScanState(init, open + [d], open[0].y)
  {
    assert (s + [d])[..|s|] == s;
  }

  /** The pass reproduces any greedy partition of `s`: its closed lines
      are all but the last line, its open line is the last one and its
      reference is that line's first y. */
  lemma {:induction false} ScanOfGreedy(s: seq<Detection>, lines: seq<seq<Detection>>, threshold: int)
    requires IsGreedyPartition(s, lines, threshold) && lines != []
    ensures s != []
    ensures Scan(s, s[0].y, threshold)
      == ScanState(lines[..|lines| - 1], lines[|lines| - 1], lines[|lines| - 1][0].y)
    decreases |s|
  {
    var init, last := lines[..|lines| - 1], lines[|lines| - 1];
    assert PinnedLine(last, threshold);
    assert Flatten(lines) == Flatten(init) + last;
    var s', d := s[..|s| - 1], s[|s| - 1];
    assert s == s' + [d];
    if |last| == 1 {
      GreedyUnopen(s, lines, threshold);
      if init == [] {
        assert s == [d];
      } else {
        ScanOfGreedy(s', init, threshold);
        assert PinnedLine(init[|init| - 1], threshold);
        ScanOpens(s', d, init, threshold);
        assert last == [d];
      }
    } else {
      var last' := last[..|last| - 1];
      GreedyUnextend(s, lines, threshold);
      ScanOfGreedy(s', init + [last'], threshold);
      assert (init + [last'])[..|init|] == init;
      ScanExtends(s', d, init, last', threshold);
      assert last == last' + [d];
    }
  }

  /** Conversely, a greedy partition is the one the pass yields: the
      partition is unique, so it specifies the pass completely. */
  lemma GreedyPartitionUnique(s: seq<Detection>, lines: seq<seq<Detection>>, threshold: int)
    requires IsGreedyPartition(s, lines, threshold)
    ensures lines == LineGroups(s, threshold)
  {
    if lines == [] {
      assert s == [];
    } else {
      ScanOfGreedy(s, lines, threshold);
      assert lines[..|lines| - 1] + [lines[|lines| - 1]] == lines;
    }
  }

  function Singletons(s: seq<Detection>): seq<seq<Detection>>
  {
    seq(|s|, i requires 0 <= i < |s| => [s[i]])
  }

  lemma {:induction false} FlattenSingletons(s: seq<Detection>)
    ensures Flatten(Singletons(s)) == s
  {
    if s != [] {
      var init := s[..|s| - 1];
      FlattenSingletons(init);
      assert Singletons(s)[..|s| - 1] == Singletons(init);
      assert s == init + [s[|s| - 1]];
    }
  }

  /** The pass with a negative threshold: every comparison fires. */
  lemma {:induction false} ScanNegative(s: seq<Detection>, threshold: int)
    requires threshold < 0 && s != []
    ensures Scan(s, s[0].y, threshold)
         == ScanState([[]] + Singletons(s[..|s| - 1]), [s[|s| - 1]], s[|s| - 1].y)
  {
    var n := |s|;
    var init := s[..n - 1];
    if n > 1 {
      assert init[0] == s[0];
      ScanNegative(init, threshold);
      assert init[..n - 2] == s[..n - 2];
      assert Singletons(init[..n - 2]) + [[init[n - 2]]] == Singletons(init);
    }
  }

  /** With a negative threshold even the first detection, compared with
      its own y, closes the still empty open line: the pass yields one
      empty line followed by one line per detection. */
  lemma LineGroupsNegative(s: seq<Detection>, threshold: int)
    requires threshold < 0 && s != []
    ensures LineGroups(s, threshold) == [[]] + Singletons(s)
  {
    ScanNegative(s, threshold);
    assert Singletons(s[..|s| - 1]) + [[s[|s| - 1]]] == Singletons(s);
  }

  /** Whatever the threshold, the lines concatenate to the input. */
  lemma LineGroupsConserve(s: seq<Detection>, threshold: int)
    ensures Flatten(LineGroups(s, threshold)) == s
  {
    if threshold >= 0 {
      LineGroupsGreedy(s, threshold);
    } else if s != [] {
      LineGroupsNegative(s, threshold);
      FlattenConcat([[]], Singletons(s));
      FlattenSingletons(s);
      FlattenAppend<Detection>([], []);
    }
  }

  /** For a non-negative threshold, a non-empty input yields at least one
      and at most as many lines as detections, none of them empty. */
  lemma LineGroupsCount(s: seq<Detection>, threshold: int)
    requires threshold >= 0 && s != []
    ensures 1 <= |LineGroups(s, threshold)| <= |s|
    ensures forall i :: 0 <= i < |LineGroups(s, threshold)| ==> LineGroups(s, threshold)[i] != []
  {
    LineGroupsGreedy(s, threshold);
    FlattenLength(LineGroups(s, threshold));
  }

  /** Cutting a y-sorted sequence into non-empty pieces: within a piece no
      member lies above the first, and first members do not go up. */
  lemma {:induction false} SortedPieces(lines: seq<seq<Detection>>)
    requires forall i :: 0 <= i < |lines| ==> lines[i] != []
    requires SortedByY(Flatten(lines))
    ensures forall i, m :: 0 <= i < |lines| && 0 <= m < |lines[i]| ==> lines[i][0].y <= lines[i][m].y
    ensures forall i, j :: 0 <= i < j < |lines| && j == i + 1 ==> lines[i][0].y <= lines[j][0].y
  {
    if lines != [] {
      var init, last := lines[..|lines| - 1], lines[|lines| - 1];
      var f := Flatten(init);
      var all := Flatten(lines);
      assert all == f + last;
      forall i, j | 0 <= i < j < |f|
        ensures f[i].y <= f[j].y
      {
        assert f[i] == all[i] && f[j] == all[j];
      }
      SortedPieces(init);
      forall m | 0 <= m < |last|
        ensures last[0].y <= last[m].y
      {
        assert last[0] == all[|f|] && last[m] == all[|f| + m];
      }
      if |init| > 0 {
        var prev := init[|init| - 1];
        var before := Flatten(init[..|init| - 1]);
        assert f == before + prev;
        assert prev[0] == all[|before|];
        assert last[0] == all[|f|];
      }
      forall i, m | 0 <= i < |lines| && 0 <= m < |lines[i]|
        ensures lines[i][0].y <= lines[i][m].y
      {
        if i < |init| {
          assert lines[i] == init[i];
        }
      }
      forall i, j | 0 <= i < j < |lines| && j == i + 1
        ensures lines[i][0].y <= lines[j][0].y
      {
        if j < |init| {
          assert lines[i] == init[i] && lines[j] == init[j];
        }
      }
    }
  }

  /** On y-sorted input with a non-negative threshold, the reference pinned
      to the first member bounds the line from both sides: every member's y
      lies in `[r, r + threshold]` for the line's first y `r`, so a member
      exactly `threshold` below the first stays on the line; and each line's
      first y exceeds the previous line's first y by more than `threshold`. */
  lemma SortedLines(s: seq<Detection>, threshold: int)
    requires SortedByY(s) && threshold >= 0
    ensures forall i :: 0 <= i < |LineGroups(s, threshold)| ==> LineGroups(s, threshold)[i] != []
    ensures forall i, m :: 0 <= i < |LineGroups(s, threshold)| && 0 <= m < |LineGroups(s, threshold)[i]| ==>
      LineGroups(s, threshold)[i][0].y <= LineGroups(s, threshold)[i][m].y <= LineGroups(s, threshold)[i][0].y + threshold
    ensures forall i, j :: 0 <= i < j < |LineGroups(s, threshold)| && j == i + 1 ==>
      LineGroups(s, threshold)[i][0].y + threshold < LineGroups(s, threshold)[j][0].y
  {
    var lines := LineGroups(s, threshold);
    LineGroupsGreedy(s, threshold);
    SortedPieces(lines);
  }

  /** On y-sorted input the reference never exceeds the y of the last
      detection read. */
  lemma ScanRefAtMostLast(s: seq<Detection>, threshold: int)
    requires threshold >= 0 && s != [] && SortedByY(s)
    ensures Scan(s, s[0].y, threshold).ref <= s[|s| - 1].y
  {
    ScanGreedy(s, threshold);
    var st := Scan(s, s[0].y, threshold);
    FlattenAppend(st.closed, st.open);
    var before := Flatten(st.closed);
    assert s == before + st.open;
    assert s[|before|] == st.open[0];
  }

  /** Two passes over the same y-sorted input, the second with the larger
      threshold: the second has closed no more lines than the first, and
      when both have closed equally many its reference is not above the
      first's. */
  lemma {:induction false} ScanCountMonotone(s: seq<Detection>, t1: int, t2: int)
    requires 0 <= t1 <= t2 && s != [] && SortedByY(s)
    ensures |Scan(s, s[0].y, t2).closed| <= |Scan(s, s[0].y, t1).closed|
    ensures |Scan(s, s[0].y, t2).closed| == |Scan(s, s[0].y, t1).closed| ==>
      Scan(s, s[0].y, t1).ref <= Scan(s, s[0].y, t2).ref
  {
    var n := |s|;
    var init := s[..n - 1];
    if n > 1 {
      assert init[0] == s[0];
      assert SortedByY(init);
      ScanCountMonotone(init, t1, t2);
      ScanRefAtMostLast(init, t1);
      ScanRefAtMostLast(init, t2);
      assert init[n - 2].y <= s[n - 1].y;
    }
  }

  /** Raising the threshold never increases the number of lines of a
      y-sorted input. */
  lemma LineCountMonotone(s: seq<Detection>, t1: int, t2: int)
    requires SortedByY(s) && t1 <= t2
    ensures |LineGroups(s, t2)| <= |LineGroups(s, t1)|
  {
    if s != [] {
      if t1 < 0 {
        LineGroupsNegative(s, t1);
        if t2 < 0 {
          LineGroupsNegative(s, t2);
        } else {
          LineGroupsCount(s, t2);
        }
      } else {
        ScanGreedy(s, t1);
        ScanGreedy(s, t2);
        ScanCountMonotone(s, t1, t2);
      }
    }
  }
}
