/** OCR detections as line reconstruction sees them, and the sequence and
    string operations used on them: flattening a list of lines, Python's
    `' '.join` and, to state that the join keeps token boundaries, Python's
    `str.split(' ')`. */
module Detections {

  /** One OCR detection `(bbox, text, prob)`, reduced to what line
      reconstruction reads: the y coordinate of the top-left corner of the
      box (`bbox[0][1]`) and the recognised text. The other corners and the
      confidence are never read. */
  datatype Detection = Detection(y: int, text: string)

  /** Python's `abs` on integers. */
  function Abs(x: int): nat
  {
    if x < 0 then -x else x
  }

  /** The texts of a sequence of detections, in order. */
  function Texts(ds: seq<Detection>): seq<string>
  {
    seq(|ds|, i requires 0 <= i < |ds| => ds[i].text)
  }

  lemma TextsAppend(a: seq<Detection>, b: seq<Detection>)
    ensures Texts(a + b) == Texts(a) + Texts(b)
  {
  }

  /** The concatenation of a list of lists, first to last. */
  function Flatten<T>(xss: seq<seq<T>>): seq<T>
  {
    if xss == [] then [] else Flatten(xss[..|xss| - 1]) + xss[|xss| - 1]
  }

  lemma FlattenAppend<T>(xss: seq<seq<T>>, ys: seq<T>)
    ensures Flatten(xss + [ys]) == Flatten(xss) + ys
  {
    assert (xss + [ys])[..|xss|] == xss;
  }

  lemma {:induction false} FlattenConcat<T>(a: seq<seq<T>>, b: seq<seq<T>>)
    ensures Flatten(a + b) == Flatten(a) + Flatten(b)
    decreases |b|
  {
    if b == [] {
      assert a + b == a;
    } else {
      var b' := b[..|b| - 1];
      assert a + b == (a + b') + [b[|b| - 1]];
      FlattenAppend(a + b', b[|b| - 1]);
      FlattenConcat(a, b');
    }
  }

  /** A list of non-empty lists has at least as many elements as lists. */
  lemma {:induction false} FlattenLength<T>(xss: seq<seq<T>>)
    requires forall i :: 0 <= i < |xss| ==> xss[i] != []
    ensures |xss| <= |Flatten(xss)|
  {
    if xss != [] {
      FlattenLength(xss[..|xss| - 1]);
    }
  }

  /** Every element of every list is an element of the flattened list. */
  lemma {:induction false} FlattenContains<T>(xss: seq<seq<T>>, i: nat, m: nat)
    requires i < |xss| && m < |xss[i]|
    ensures xss[i][m] in Flatten(xss)
  {
    var last := |xss| - 1;
    assert Flatten(xss) == Flatten(xss[..last]) + xss[last];
    if i < last {
      FlattenContains(xss[..last], i, m);
    }
  }

  /** Python's `' '.join(tokens)`: the tokens separated by single spaces;
      the empty list joins to the empty string. */
  function Join(tokens: seq<string>): string
  {
    if tokens == [] then ""
    else if |tokens| == 1 then tokens[0]
    else tokens[0] + " " + Join(tokens[1..])
  }

  /** Python's `s.split(' ')`: the pieces of `s` between single spaces, so
      that the empty string splits into one empty piece. The program never
      splits; `Split` only states that the join keeps token boundaries. */
  function Split(s: string): (pieces: seq<string>)
    ensures |pieces| >= 1
    ensures forall i :: 0 <= i < |pieces| ==> NoSpace(pieces[i])
  {
    if s == [] then [""]
    else
      var rest := Split(s[1..]);
      if s[0] == ' ' then [""] + rest
      else [[s[0]] + rest[0]] + rest[1..]
  }

  predicate NoSpace(s: string)
  {
    ' ' !in s
  }

  lemma {:induction false} SplitNoSpace(a: string)
    requires NoSpace(a)
    ensures Split(a) == [a]
  {
    if a != [] {
      assert a[0] != ' ';
      SplitNoSpace(a[1..]);
      assert [a[0]] + a[1..] == a;
    }
  }

  lemma {:induction false} SplitAfterToken(a: string, b: string)
    requires NoSpace(a)
    ensures Split(a + " " + b) == [a] + Split(b)
  {
    if a == [] {
      assert a + " " + b == [' '] + b;
      assert (a + " " + b)[1..] == b;
    } else {
      assert (a + " " + b)[0] == a[0] != ' ';
      assert (a + " " + b)[1..] == a[1..] + " " + b;
      SplitAfterToken(a[1..], b);
      assert [a[0]] + a[1..] == a;
    }
  }

  /** Joining tokens that contain no space loses nothing: splitting the
      joined string on single spaces gives the tokens back. */
  lemma {:induction false} SplitJoin(tokens: seq<string>)
    requires tokens != []
    requires forall i :: 0 <= i < |tokens| ==> NoSpace(tokens[i])
    ensures Split(Join(tokens)) == tokens
  {
    if |tokens| == 1 {
      SplitNoSpace(tokens[0]);
    } else {
      SplitAfterToken(tokens[0], Join(tokens[1..]));
      SplitJoin(tokens[1..]);
      assert [tokens[0]] + tokens[1..] == tokens;
    }
  }
}
