/** The ordinal System.String operations the core relies on, written out as scanners over
    `seq<char>`: IndexOf, Contains, Split without options, Join and Replace. */
module Strings {
  import opened Wrappers

  /** `pat` occurs in `s` starting at index `i`. */
  predicate OccursAt(s: string, pat: string, i: int)
  {
    0 <= i && i + |pat| <= |s| && s[i..i + |pat|] == pat
  }

  /** A one-character pattern occurs exactly where that character stands. */
  lemma OccursAtChar(s: string, c: char, i: int)
    ensures OccursAt(s, [c], i) <==> 0 <= i < |s| && s[i] == c
  {
    if 0 <= i < |s| {
      assert s[i..i + 1] == [s[i]];
    }
  }

  /** `s.IndexOf(pat, from)`: the leftmost occurrence of `pat` at or after `from`. */
  function IndexOf(s: string, pat: string, from: nat): (r: Option<nat>)
    ensures r.Some? ==> from <= r.value && OccursAt(s, pat, r.value)
    ensures r.Some? ==> forall j :: from <= j < r.value ==> !OccursAt(s, pat, j)
    ensures r.None? ==> forall j :: from <= j ==> !OccursAt(s, pat, j)
    decreases |s| - from
  {
    if from + |pat| > |s| then None
    else if s[from..from + |pat|] == pat then Some(from)
    else IndexOf(s, pat, from + 1)
  }

  /** The leftmost occurrence is determined by where `pat` does and does not occur. */
  lemma IndexOfIs(s: string, pat: string, from: nat, i: nat)
    requires from <= i && OccursAt(s, pat, i)
    requires forall j :: from <= j < i ==> !OccursAt(s, pat, j)
    ensures IndexOf(s, pat, from) == Some(i)
  {
  }

  /** An occurrence inside a prefix is an occurrence in the whole text. */
  lemma OccursInPrefix(s: string, pat: string, n: nat, j: int)
    requires n <= |s| && OccursAt(s[..n], pat, j)
    ensures OccursAt(s, pat, j)
  {
    assert s[..n][j..j + |pat|] == s[j..j + |pat|];
  }

  /** Occurrences in the tail of a text are those in the text, shifted by one. */
  lemma OccursShift(s: string, pat: string, j: nat)
    requires s != []
    ensures OccursAt(s[1..], pat, j) <==> OccursAt(s, pat, j + 1)
  {
    if j + |pat| <= |s[1..]| {
      assert s[1..][j..j + |pat|] == s[j + 1..j + 1 + |pat|];
    }
  }

  /** `s.Contains(pat)`, which the runtime implements as `IndexOf(pat) >= 0`. */
  predicate Contains(s: string, pat: string)
  {
    IndexOf(s, pat, 0).Some?
  }

  /** `s.Split(sep)` with no options: the pieces between the leftmost, non-overlapping
      occurrences of `sep`, empty pieces included. */
  function Split(s: string, sep: string): (pieces: seq<string>)
    requires sep != []
    ensures |pieces| >= 1
    decreases |s|
  {
    match IndexOf(s, sep, 0)
    case None => [s]
    case Some(i) => [s[..i]] + Split(s[i + |sep|..], sep)
  }

  /** `string.Join(sep, pieces)`. */
  function Join(pieces: seq<string>, sep: string): string
  {
    if pieces == [] then []
    else if |pieces| == 1 then pieces[0]
    else pieces[0] + sep + Join(pieces[1..], sep)
  }

  /** `s.Replace(pat, rep)`: one left-to-right pass that replaces each occurrence of `pat`
      and never rescans the text it has inserted. */
  function Replace(s: string, pat: string, rep: string): string
    requires pat != []
    decreases |s|
  {
    if |s| < |pat| then s
    else if s[..|pat|] == pat then rep + Replace(s[|pat|..], pat, rep)
    else [s[0]] + Replace(s[1..], pat, rep)
  }

  lemma JoinCons(x: string, rest: seq<string>, sep: string)
    requires rest != []
    ensures Join([x] + rest, sep) == x + sep + Join(rest, sep)
  {
    assert ([x] + rest)[1..] == rest;
  }

  /** A text is the concatenation of its three slices around `i` and `j`. */
  lemma ThreeSlices(s: string, i: nat, j: nat)
    requires i <= j <= |s|
    ensures s[..i] + s[i..j] + s[j..] == s
  {
    assert s[..j] == s[..i] + s[i..j];
  }

  /** Splitting and joining again with the same separator gives back the input. */
  lemma {:induction false} JoinSplit(s: string, sep: string)
    requires sep != []
    ensures Join(Split(s, sep), sep) == s
    decreases |s|
  {
    var r := IndexOf(s, sep, 0);
    if r.Some? {
      var i := r.value;
      var rest := s[i + |sep|..];
      var tail := Split(rest, sep);
      calc {
        Join(Split(s, sep), sep);
        { SplitUnfold(s, sep, rest); }
        Join([s[..i]] + tail, sep);
        { JoinCons(s[..i], tail, sep); }
        s[..i] + sep + Join(tail, sep);
        { JoinSplit(rest, sep); }
        s[..i] + s[i..i + |sep|] + rest;
        { ThreeSlices(s, i, i + |sep|); }
        s;
      }
    }
  }

  /** No piece of a split contains the separator. */
  lemma {:induction false} SplitPiecesFree(s: string, sep: string)
    requires sep != []
    ensures forall p :: p in Split(s, sep) ==> !Contains(p, sep)
    decreases |s|
  {
    match IndexOf(s, sep, 0)
    case None =>
    case Some(i) =>
      var rest := s[i + |sep|..];
      SplitPiecesFree(rest, sep);
      var head := s[..i];
      if Contains(head, sep) {
        var j := IndexOf(head, sep, 0).value;
        OccursInPrefix(s, sep, i, j);
      }
  }

  /** Splitting on one character a join of pieces free of that character recovers the pieces. */
  lemma {:induction false} SplitJoinChar(pieces: seq<string>, c: char)
    requires pieces != []
    requires forall k :: 0 <= k < |pieces| ==> c !in pieces[k]
    ensures Split(Join(pieces, [c]), [c]) == pieces
    decreases |pieces|
  {
    var s := Join(pieces, [c]);
    if |pieces| == 1 {
      forall j | 0 <= j ensures !OccursAt(s, [c], j) {
        OccursAtChar(s, c, j);
      }
    } else {
      var p := pieces[0];
      var rest := Join(pieces[1..], [c]);
      assert s == p + [c] + rest;
      forall j | 0 <= j < |p| ensures !OccursAt(s, [c], j) {
        OccursAtChar(s, c, j);
        assert s[j] == p[j];
      }
      OccursAtChar(s, c, |p|);
      IndexOfIs(s, [c], 0, |p|);
      assert s[..|p|] == p;
      assert s[|p| + 1..] == rest;
      SplitJoinChar(pieces[1..], c);
      assert pieces == [p] + pieces[1..];
    }
  }

  /** Without an occurrence at the front, the leftmost occurrence in a text is one past
      the leftmost occurrence in its tail. */
  lemma IndexOfShift(s: string, sep: string)
    requires s != [] && !OccursAt(s, sep, 0)
    ensures IndexOf(s[1..], sep, 0).None? ==> IndexOf(s, sep, 0).None?
    ensures IndexOf(s[1..], sep, 0).Some? ==> IndexOf(s, sep, 0) == Some(IndexOf(s[1..], sep, 0).value + 1)
  {
    match IndexOf(s[1..], sep, 0)
    case None =>
      forall j: nat ensures !OccursAt(s, sep, j) {
        if j > 0 { OccursShift(s, sep, j - 1); }
      }
    case Some(i) =>
      OccursShift(s, sep, i);
      forall j: nat | j < i + 1 ensures !OccursAt(s, sep, j) {
        if j > 0 { OccursShift(s, sep, j - 1); }
      }
      IndexOfIs(s, sep, 0, i + 1);
  }

  /** Without an occurrence at the front, the first piece of a split grows by the first character. */
  lemma SplitCons(s: string, sep: string)
    requires sep != [] && s != [] && !OccursAt(s, sep, 0)
    ensures var tail := Split(s[1..], sep);
      Split(s, sep) == [[s[0]] + tail[0]] + tail[1..]
  {
    IndexOfShift(s, sep);
    if IndexOf(s[1..], sep, 0).None? {
      SplitConsWhole(s, sep);
    } else {
      SplitConsPiece(s, sep);
    }
  }

  lemma SplitConsWhole(s: string, sep: string)
    requires sep != [] && s != []
    requires IndexOf(s[1..], sep, 0).None? && IndexOf(s, sep, 0).None?
    ensures var tail := Split(s[1..], sep);
      Split(s, sep) == [[s[0]] + tail[0]] + tail[1..]
  {
    var t := s[1..];
    assert Split(t, sep) == [t];
    assert Split(s, sep) == [s];
    ConsFirstPiece(s[0], t, [], s, Split(t, sep));
  }

  lemma SplitConsPiece(s: string, sep: string)
    requires sep != [] && s != [] && IndexOf(s[1..], sep, 0).Some?
    requires IndexOf(s, sep, 0) == Some(IndexOf(s[1..], sep, 0).value + 1)
    ensures var tail := Split(s[1..], sep);
      Split(s, sep) == [[s[0]] + tail[0]] + tail[1..]
  {
    var t := s[1..];
    var i := IndexOf(t, sep, 0).value;
    var rest := t[i + |sep|..];
    TailSlices(s, i, i + |sep|);
    SplitUnfold(t, sep, rest);
    SplitUnfold(s, sep, rest);
    ConsFirstPiece(s[0], t[..i], Split(rest, sep), s[..i + 1], Split(t, sep));
  }

  /** Slices of a text's tail are slices of the text, shifted by one. */
  lemma TailSlices(s: string, i: nat, j: nat)
    requires s != [] && i <= j < |s|
    ensures s[..i + 1] == [s[0]] + s[1..][..i]
    ensures s[1..][j..] == s[j + 1..]
  {
  }

  /** One step of `Split` at the leftmost occurrence, with `rest` the text after it. */
  lemma SplitUnfold(s: string, sep: string, rest: string)
    requires sep != [] && IndexOf(s, sep, 0).Some?
    requires rest == s[IndexOf(s, sep, 0).value + |sep|..]
    ensures Split(s, sep) == [s[..IndexOf(s, sep, 0).value]] + Split(rest, sep)
  {
  }

  /** The list shape behind `SplitCons`, stated on plain sequences. */
  lemma ConsFirstPiece(c: char, x: string, more: seq<string>, first: string, tail: seq<string>)
    requires first == [c] + x && tail == [x] + more
    ensures [first] + more == [[c] + tail[0]] + tail[1..]
  {
    assert tail[0] == x && tail[1..] == more;
  }

  /** `Replace` is the same as splitting on the pattern and joining with the replacement. */
  lemma {:induction false} ReplaceIsSplitJoin(s: string, pat: string, rep: string)
    requires pat != []
    ensures Replace(s, pat, rep) == Join(Split(s, pat), rep)
    decreases |s|
  {
    if |s| < |pat| {
      assert IndexOf(s, pat, 0) == None;
    } else if s[..|pat|] == pat {
      ReplaceIsSplitJoin(s[|pat|..], pat, rep);
      ReplaceAtFront(s, pat, rep);
    } else {
      ReplaceIsSplitJoin(s[1..], pat, rep);
      ReplaceKeepsFront(s, pat, rep);
    }
  }

  lemma ReplaceAtFront(s: string, pat: string, rep: string)
    requires pat != [] && |s| >= |pat| && s[..|pat|] == pat
    requires Replace(s[|pat|..], pat, rep) == Join(Split(s[|pat|..], pat), rep)
    ensures Replace(s, pat, rep) == Join(Split(s, pat), rep)
  {
    var rest := s[|pat|..];
    var tail := Split(rest, pat);
    assert OccursAt(s, pat, 0);
    IndexOfIs(s, pat, 0, 0);
    assert Split(s, pat) == [[]] + tail;
    JoinCons([], tail, rep);
    assert Replace(s, pat, rep) == rep + Replace(rest, pat, rep);
  }

  lemma ReplaceKeepsFront(s: string, pat: string, rep: string)
    requires pat != [] && |s| >= |pat| && s[..|pat|] != pat
    requires Replace(s[1..], pat, rep) == Join(Split(s[1..], pat), rep)
    ensures Replace(s, pat, rep) == Join(Split(s, pat), rep)
  {
    assert !OccursAt(s, pat, 0);
    assert Replace(s, pat, rep) == [s[0]] + Replace(s[1..], pat, rep);
    SplitCons(s, pat);
    JoinGrowsFirst(s[0], Split(s[1..], pat), rep);
  }

  /** Growing the first piece grows the join at its front. */
  lemma JoinGrowsFirst(c: char, pieces: seq<string>, sep: string)
    requires pieces != []
    ensures Join([[c] + pieces[0]] + pieces[1..], sep) == [c] + Join(pieces, sep)
  {
    var x := [c] + pieces[0];
    if |pieces| == 1 {
      assert [x] + pieces[1..] == [x];
    } else {
      JoinCons(x, pieces[1..], sep);
    }
  }
}
