/** `extract_text_as_lines`: the detections returned by the OCR engine are
    sorted by top-left y, cut into lines by the greedy pass, and the tokens
    of every line are joined with single spaces. `ExtractLines` specifies
    the result; `ExtractTextAsLines` computes it the way the source does,
    with an in-place sort and a loop over the sorted detections. */
module OcrDemo {
  import opened Detections
  import opened StableSort
  import opened LineScan

  /** The default of the `threshold` parameter, in pixels. */
  const DefaultThreshold: int := 10

  /** The detections of every line, in the order of the sorted input. */
  function DetectionLines(ds: seq<Detection>, threshold: int): seq<seq<Detection>>
  {
    LineGroups(SortByY(ds), threshold)
  }

  /** The tokens of every line: the value of `current_line` when the line
      is closed. */
  function TextLines(groups: seq<seq<Detection>>): seq<seq<string>>
  {
    seq(|groups|, i requires 0 <= i < |groups| => Texts(groups[i]))
  }

  /** Every line's tokens joined by `' '.join`. */
  function JoinLines(tokenLines: seq<seq<string>>): seq<string>
  {
    seq(|tokenLines|, i requires 0 <= i < |tokenLines| => Join(tokenLines[i]))
  }

  /** The lines before joining. */
  function TokenLines(ds: seq<Detection>, threshold: int): seq<seq<string>>
  {
    TextLines(DetectionLines(ds, threshold))
  }

  /** The lines `extract_text_as_lines` returns for the detections `ds`. */
  function ExtractLines(ds: seq<Detection>, threshold: int): seq<string>
  {
    JoinLines(TokenLines(ds, threshold))
  }

  /** `extract_text_as_lines` after `reader.readtext` has produced
      `detections`: sorts a copy of them in place, reads the reference
      from the first, and runs the loop. With no detections, reading
      `result[0]` raises `IndexError` and the handler returns no lines. */
  method ExtractTextAsLines(detections: seq<Detection>, threshold: int := DefaultThreshold) returns (lines: seq<string>)
    ensures lines == ExtractLines(detections, threshold)
    ensures detections == [] ==> lines == []
  {
    var result := new Detection[|detections|](i requires 0 <= i < |detections| => detections[i]);
    assert result[..] == detections;
    SortByTopLeftY(result);
    ghost var sorted := result[..];
    if result.Length == 0 {
      return [];
    }
    lines := [];
    var currentLine: seq<string> := [];
    var currentY := result[0].y;
    var i := 0;
    while i < result.Length
      invariant 0 <= i <= result.Length
      invariant result[..] == sorted
      invariant lines == JoinLines(TextLines(Scan(sorted[..i], sorted[0].y, threshold).closed))
      invariant currentLine == Texts(Scan(sorted[..i], sorted[0].y, threshold).open)
      invariant currentY == Scan(sorted[..i], sorted[0].y, threshold).ref
    {
      LoopStep(sorted, i, threshold);
      var y, text := result[i].y, result[i].text;
      if Abs(y - currentY) > threshold {
        lines := lines + [Join(currentLine)];
        currentLine := [text];
        currentY := y;
      } else {
        currentLine := currentLine + [text];
      }
      i := i + 1;
    }
    assert sorted[..i] == sorted;
    LoopEnd(detections, threshold);
    if |currentLine| > 0 {
      lines := lines + [Join(currentLine)];
    }
  }

  /** What one iteration of the loop does to `lines`, `current_line` and
      `current_y`, read off the pass. */
  lemma LoopStep(sorted: seq<Detection>, i: nat, threshold: int)
    requires i < |sorted|
    ensures
      var st, st' := Scan(sorted[..i], sorted[0].y, threshold), Scan(sorted[..i + 1], sorted[0].y, threshold);
      if Abs(sorted[i].y - st.ref) > threshold then
        && JoinLines(TextLines(st'.closed)) == JoinLines(TextLines(st.closed)) + [Join(Texts(st.open))]
        && Texts(st'.open) == [sorted[i].text]
        && st'.ref == sorted[i].y
      else
        && JoinLines(TextLines(st'.closed)) == JoinLines(TextLines(st.closed))
        && Texts(st'.open) == Texts(st.open) + [sorted[i].text]
        && st'.ref == st.ref
  {
    var st := Scan(sorted[..i], sorted[0].y, threshold);
    assert sorted[..i + 1] == sorted[..i] + [sorted[i]];
    ScanAppend(sorted[..i], sorted[i], sorted[0].y, threshold);
    if Abs(sorted[i].y - st.ref) > threshold {
      JoinTextLinesAppend(st.closed, st.open);
      assert Texts([sorted[i]]) == [sorted[i].text];
    } else {
      TextsAppend(st.open, [sorted[i]]);
    }
  }

  /** After the loop: the lines are the closed lines joined, and the open
      line joined when it has a token. */
  lemma LoopEnd(ds: seq<Detection>, threshold: int)
    requires ds != []
    ensures |SortByY(ds)| == |ds|
    ensures
      var st := Scan(SortByY(ds), SortByY(ds)[0].y, threshold);
      ExtractLines(ds, threshold)
        == JoinLines(TextLines(st.closed)) + (if |Texts(st.open)| > 0 then [Join(Texts(st.open))] else [])
  {
    SortByYPermutation(ds);
    var s := SortByY(ds);
    var st := Scan(s, s[0].y, threshold);
    JoinTextLinesAppend(st.closed, st.open);
  }

  lemma JoinTextLinesAppend(groups: seq<seq<Detection>>, line: seq<Detection>)
    ensures JoinLines(TextLines(groups + [line]))
         == JoinLines(TextLines(groups)) + [Join(Texts(line))]
  {
  }

  lemma {:induction false} FlattenTextLines(groups: seq<seq<Detection>>)
    ensures Flatten(TextLines(groups)) == Texts(Flatten(groups))
  {
    if groups != [] {
      var init, last := groups[..|groups| - 1], groups[|groups| - 1];
      FlattenTextLines(init);
      assert TextLines(groups)[..|groups| - 1] == TextLines(init);
      TextsAppend(Flatten(init), last);
    }
  }

  lemma {:induction false} InsertByYTexts(s: seq<Detection>, d: Detection)
    ensures multiset(Texts(InsertByY(s, d))) == multiset(Texts(s)) + multiset{d.text}
  {
    if s == [] {
      assert Texts([d]) == [d.text];
    } else if s[0].y <= d.y {
      var rest := InsertByY(s[1..], d);
      assert InsertByY(s, d) == [s[0]] + rest;
      InsertByYTexts(s[1..], d);
      TextsAppend([s[0]], rest);
      assert s == [s[0]] + s[1..];
      TextsAppend([s[0]], s[1..]);
    } else {
      assert InsertByY(s, d) == [d] + s;
      TextsAppend([d], s);
    }
  }

  /** Sorting permutes the detections, so it permutes their texts. */
  lemma {:induction false} SortByYTexts(s: seq<Detection>)
    ensures multiset(Texts(SortByY(s))) == multiset(Texts(s))
  {
    if s != [] {
      var init, d := s[..|s| - 1], s[|s| - 1];
      SortByYTexts(init);
      InsertByYTexts(SortByY(init), d);
      assert s == init + [d];
      TextsAppend(init, [d]);
    }
  }

  /** No token is lost, duplicated or reordered: the lines before joining
      concatenate to the texts in y-sorted order, which are the input texts
      up to order. */
  lemma TokensConserved(ds: seq<Detection>, threshold: int)
    ensures Flatten(TokenLines(ds, threshold)) == Texts(SortByY(ds))
    ensures multiset(Flatten(TokenLines(ds, threshold))) == multiset(Texts(ds))
  {
    FlattenTextLines(DetectionLines(ds, threshold));
    LineGroupsConserve(SortByY(ds), threshold);
    SortByYTexts(ds);
  }

  /** With a non-negative threshold and at least one detection there are
      between one and as many lines as detections, and no line lacks a
      token. */
  lemma LineCountBounds(ds: seq<Detection>, threshold: int)
    requires threshold >= 0 && ds != []
    ensures 1 <= |ExtractLines(ds, threshold)| <= |ds|
    ensures forall i :: 0 <= i < |TokenLines(ds, threshold)| ==> TokenLines(ds, threshold)[i] != []
  {
    SortByYPermutation(ds);
    LineGroupsCount(SortByY(ds), threshold);
  }

  /** With a non-negative threshold the lines are the one greedy partition
      of the sorted detections: the lines satisfy it, and any partition
      that satisfies it is the lines. */
  lemma DetectionLinesGreedy(ds: seq<Detection>, threshold: int, lines: seq<seq<Detection>>)
    requires threshold >= 0
    ensures IsGreedyPartition(SortByY(ds), lines, threshold) <==> lines == DetectionLines(ds, threshold)
  {
    LineGroupsGreedy(SortByY(ds), threshold);
    if IsGreedyPartition(SortByY(ds), lines, threshold) {
      GreedyPartitionUnique(SortByY(ds), lines, threshold);
    }
  }

  /** The reference pinned to a line's first member: every member of a
      line lies between the first member's y and that y plus the threshold,
      and every line opens more than the threshold below the opener of the
      line before it (consecutive lines `i` and `j == i + 1`, written with
      two indices as in `IsGreedyPartition`). */
  lemma PinnedReference(ds: seq<Detection>, threshold: int)
    requires threshold >= 0
    ensures forall i :: 0 <= i < |DetectionLines(ds, threshold)| ==> DetectionLines(ds, threshold)[i] != []
    ensures forall i, m :: 0 <= i < |DetectionLines(ds, threshold)| && 0 <= m < |DetectionLines(ds, threshold)[i]| ==>
      DetectionLines(ds, threshold)[i][0].y <= DetectionLines(ds, threshold)[i][m].y
                                            <= DetectionLines(ds, threshold)[i][0].y + threshold
    ensures forall i, j :: 0 <= i < j < |DetectionLines(ds, threshold)| && j == i + 1 ==>
      DetectionLines(ds, threshold)[i][0].y + threshold < DetectionLines(ds, threshold)[j][0].y
  {
    SortByYSorted(ds);
    SortedLines(SortByY(ds), threshold);
  }

  /** Raising the threshold never yields more lines. */
  lemma ThresholdMonotone(ds: seq<Detection>, t1: int, t2: int)
    requires t1 <= t2
    ensures |ExtractLines(ds, t2)| <= |ExtractLines(ds, t1)|
  {
    SortByYSorted(ds);
    LineCountMonotone(SortByY(ds), t1, t2);
  }

  /** With a negative threshold the first detection, compared with its own
      y, already closes the empty open line: the result is one empty line
      followed by every text on a line of its own. */
  lemma NegativeThreshold(ds: seq<Detection>, threshold: int)
    requires threshold < 0 && ds != []
    ensures ExtractLines(ds, threshold) == [""] + Texts(SortByY(ds))
  {
    var s := SortByY(ds);
    SortByYPermutation(ds);
    LineGroupsNegative(s, threshold);
    var r := ExtractLines(ds, threshold);
    forall k | 0 <= k < |s|
      ensures r[k + 1] == Texts(s)[k]
    {
      assert DetectionLines(ds, threshold)[k + 1] == [s[k]];
      assert Texts([s[k]]) == [s[k].text];
    }
    assert r[0] == Join(Texts([]));
  }

  /** Each text of the sorted copy is the text of some input detection. */
  lemma SortedTextFromInput(ds: seq<Detection>, i: nat)
    requires i < |SortByY(ds)|
    ensures exists k :: 0 <= k < |ds| && ds[k].text == SortByY(ds)[i].text
  {
    SortByYPermutation(ds);
    assert SortByY(ds)[i] in multiset(ds);
  }

  /** The join keeps token boundaries when no text holds a space:
      splitting a line on single spaces gives back its tokens, in scan
      order. */
  lemma LinesSplitBack(ds: seq<Detection>, threshold: int)
    requires threshold >= 0
    requires forall k :: 0 <= k < |ds| ==> NoSpace(ds[k].text)
    ensures |ExtractLines(ds, threshold)| == |TokenLines(ds, threshold)|
    ensures forall i :: 0 <= i < |ExtractLines(ds, threshold)| ==>
      Split(ExtractLines(ds, threshold)[i]) == TokenLines(ds, threshold)[i]
  {
    var tl := TokenLines(ds, threshold);
    if ds != [] {
      LineCountBounds(ds, threshold);
    }
    TokensConserved(ds, threshold);
    forall i | 0 <= i < |tl|
      ensures Split(ExtractLines(ds, threshold)[i]) == tl[i]
    {
      forall m | 0 <= m < |tl[i]|
        ensures NoSpace(tl[i][m])
      {
        FlattenContains(tl, i, m);
        var j :| 0 <= j < |Texts(SortByY(ds))| && Texts(SortByY(ds))[j] == tl[i][m];
        SortedTextFromInput(ds, j);
      }
      SplitJoin(tl[i]);
    }
  }

  /** The lines of `ds` are `groups`, so the result joins their texts. */
  lemma ExtractLinesOf(ds: seq<Detection>, threshold: int, groups: seq<seq<Detection>>)
    requires DetectionLines(ds, threshold) == groups
    ensures |ExtractLines(ds, threshold)| == |groups|
    ensures forall i :: 0 <= i < |groups| ==> ExtractLines(ds, threshold)[i] == Join(Texts(groups[i]))
  {
  }

  lemma JoinPair(a: Detection, b: Detection)
    ensures Join(Texts([a, b])) == a.text + " " + b.text
  {
    assert Texts([a, b]) == [a.text, b.text];
    assert [a.text, b.text][1..] == [b.text];
  }

  lemma JoinOne(a: Detection)
    ensures Join(Texts([a])) == a.text
  {
    assert Texts([a]) == [a.text];
  }

  /** Input already in y order is left as it is by the sort. */
  lemma SortedUnchanged(s: seq<Detection>)
    requires SortedByY(s)
    ensures SortByY(s) == s
  {
    SortByYIsTheStableSort(s, s);
  }

  /** The pass over three sorted detections where the second lies within
      the threshold of the first and the third beyond it. */
  lemma ScanPinned(a: Detection, b: Detection, c: Detection, threshold: int)
    requires 0 <= b.y - a.y <= threshold < c.y - a.y
    ensures LineGroups([a, b, c], threshold) == [[a, b], [c]]
  {
    ScanAppend([], a, a.y, threshold);
    assert [] + [a] == [a];
    assert Scan([a], a.y, threshold) == ScanState([], [a], a.y);
    ScanAppend([a], b, a.y, threshold);
    assert [a] + [b] == [a, b];
    assert Scan([a, b], a.y, threshold) == ScanState([], [a, b], a.y);
    ScanAppend([a, b], c, a.y, threshold);
    assert [a, b] + [c] == [a, b, c];
    assert Scan([a, b, c], a.y, threshold) == ScanState([[a, b]], [c], c.y);
  }

  /** The reference stays with a line's first member: for three sorted
      detections where the second lies within the threshold of the first and
      the third beyond it, the third opens a new line, even when it lies
      within the threshold of the second. */
  lemma PinnedNotRolling(a: Detection, b: Detection, c: Detection, threshold: int)
    requires a.y <= b.y <= c.y
    requires b.y - a.y <= threshold < c.y - a.y
    ensures ExtractLines([a, b, c], threshold) == [a.text + " " + b.text, c.text]
  {
    var s := [a, b, c];
    assert SortedByY(s) by {
      forall i, j | 0 <= i < j < 3
        ensures s[i].y <= s[j].y
      {
      }
    }
    SortedUnchanged(s);
    ScanPinned(a, b, c, threshold);
    ExtractLinesOf(s, threshold, [[a, b], [c]]);
    JoinPair(a, b);
    JoinOne(c);
  }

  /** With y values 0, 8 and 16 and the default threshold, the third
      detection lies 16 below the first and opens a new line, although it
      lies only 8 below the second. */
  lemma PinnedNotRollingExample()
    ensures ExtractLines([Detection(0, "a"), Detection(8, "b"), Detection(16, "c")], DefaultThreshold)
         == ["a b", "c"]
  {
    PinnedNotRolling(Detection(0, "a"), Detection(8, "b"), Detection(16, "c"), DefaultThreshold);
    assert "a" + " " + "b" == "a b";
  }

  /** Two sorted detections share a line exactly when their gap is at most
      the threshold: the comparison is strict. */
  lemma TwoDetections(a: Detection, b: Detection, threshold: int)
    requires a.y <= b.y && threshold >= 0
    ensures b.y - a.y <= threshold ==> ExtractLines([a, b], threshold) == [a.text + " " + b.text]
    ensures b.y - a.y > threshold ==> ExtractLines([a, b], threshold) == [a.text, b.text]
  {
    var s := [a, b];
    SortedUnchanged(s);
    ScanAppend([], a, a.y, threshold);
    assert [] + [a] == [a];
    assert Scan([a], a.y, threshold) == ScanState([], [a], a.y);
    ScanAppend([a], b, a.y, threshold);
    assert [a] + [b] == s;
    if b.y - a.y <= threshold {
      assert LineGroups(s, threshold) == [[a, b]];
      ExtractLinesOf(s, threshold, [[a, b]]);
      JoinPair(a, b);
    } else {
      assert LineGroups(s, threshold) == [[a], [b]];
      ExtractLinesOf(s, threshold, [[a], [b]]);
      JoinOne(a);
      JoinOne(b);
    }
  }

  /** A gap of exactly the default threshold stays on the line; one more
      pixel opens a new one. */
  lemma GapAtThreshold()
    ensures ExtractLines([Detection(0, "a"), Detection(10, "b")], DefaultThreshold) == ["a b"]
    ensures ExtractLines([Detection(0, "a"), Detection(11, "b")], DefaultThreshold) == ["a", "b"]
  {
    TwoDetections(Detection(0, "a"), Detection(10, "b"), DefaultThreshold);
    TwoDetections(Detection(0, "a"), Detection(11, "b"), DefaultThreshold);
    assert "a" + " " + "b" == "a b";
  }

  /** Detections read out of order are put in y order, and the tokens of
      one line keep that order: there is no left-to-right reordering. */
  lemma YOrderWithinLine(a: Detection, b: Detection, threshold: int)
    requires b.y < a.y <= b.y + threshold
    ensures ExtractLines([a, b], threshold) == [b.text + " " + a.text]
  {
    var ds, s := [a, b], [b, a];
    assert s[1..] == [a] && ds[1..] == [b];
    forall k
      ensures WithY(s, k) == WithY(ds, k)
    {
      WithYAppend([b], [a], k);
      WithYAppend([a], [b], k);
      assert s == [b] + [a] && ds == [a] + [b];
    }
    SortByYIsTheStableSort(ds, s);
    SortedUnchanged(s);
    TwoDetections(b, a, threshold);
  }

  /** "World" read before "Hello", one pixel lower: the line reads
      "Hello World". */
  lemma YOrderExample()
    ensures ExtractLines([Detection(1, "World"), Detection(0, "Hello")], DefaultThreshold) == ["Hello World"]
  {
    YOrderWithinLine(Detection(1, "World"), Detection(0, "Hello"), DefaultThreshold);
    assert "Hello" + " " + "World" == "Hello World";
  }
}
