/** `split`: cutting a line into runs at every place where a lower-case
    rune is followed by an upper-case one.

    As written, the function appends `rs[:i+1]`, the whole prefix up to
    each boundary, and not `rs[j:i+1]`, the run since the previous one.
    `Segments` and `Split` model that code; `Runs` and `SplitRuns` are the
    evidently intended segmentation, whose runs concatenate back to the
    line. The two agree exactly when the line has at most one boundary. */
module Segmenter {
  import opened Runes

  /** Position `i` is a boundary: `s[i]` lower case, `s[i + 1]` upper case. */
  predicate IsBoundary(u: Unicode, s: string, i: int)
  {
    0 <= i < |s| - 1 && u.isLower(s[i]) && u.isUpper(s[i + 1])
  }

  /** The boundaries below `n`, in increasing order. */
  function BoundariesBelow(u: Unicode, s: string, n: nat): (b: seq<nat>)
    requires n <= |s|
    ensures forall k :: 0 <= k < |b| ==> b[k] < n && IsBoundary(u, s, b[k])
    ensures forall k :: 0 < k < |b| ==> b[k - 1] < b[k]
  {
    if n == 0 then []
    else BoundariesBelow(u, s, n - 1) + (if IsBoundary(u, s, n - 1) then [n - 1] else [])
  }

  /** The boundaries are listed in strictly increasing order. */
  lemma {:induction false} BoundariesBelowSorted(u: Unicode, s: string, n: nat)
    requires n <= |s|
    ensures forall k, l :: 0 <= k < l < |BoundariesBelow(u, s, n)| ==>
              BoundariesBelow(u, s, n)[k] < BoundariesBelow(u, s, n)[l]
  {
    if n > 0 {
      BoundariesBelowSorted(u, s, n - 1);
    }
  }

  /** Every boundary below `n` is listed. */
  lemma {:induction false} BoundariesBelowComplete(u: Unicode, s: string, n: nat, i: nat)
    requires n <= |s| && i < n && IsBoundary(u, s, i)
    ensures i in BoundariesBelow(u, s, n)
  {
    if i < n - 1 {
      BoundariesBelowComplete(u, s, n - 1, i);
    }
  }

  function Boundaries(u: Unicode, s: string): seq<nat>
  {
    BoundariesBelow(u, s, |s|)
  }

  /** Where the run after the last of the boundaries `b` starts. */
  function RunStart(b: seq<nat>): nat
  {
    if b == [] then 0 else b[|b| - 1] + 1
  }

  /** For each boundary, the prefix of `s` that ends just after it. */
  function Prefixes(s: string, b: seq<nat>): seq<string>
    requires forall k :: 0 <= k < |b| ==> b[k] < |s|
  {
    seq(|b|, k requires 0 <= k < |b| => s[..b[k] + 1])
  }

  /** What `split` returns as written. */
  function Segments(u: Unicode, s: string): seq<string>
  {
    var b := Boundaries(u, s);
    Prefixes(s, b) + [s[RunStart(b)..]]
  }

  /** `split`, as written. */
  method Split(u: Unicode, s: string) returns (result: seq<string>)
    ensures result == Segments(u, s)
  {
    result := [];
    var j := 0;
    var i := 0;
    while i < |s| - 1
      invariant 0 <= i <= |s| && (i == 0 || i <= |s| - 1)
      invariant result == Prefixes(s, BoundariesBelow(u, s, i))
      invariant j == RunStart(BoundariesBelow(u, s, i))
    {
      ghost var b := BoundariesBelow(u, s, i);
      if u.isLower(s[i]) && u.isUpper(s[i + 1]) {
        PrefixesSnoc(s, b, i);
        result := result + [s[..i + 1]];
        j := i + 1;
      }
      i := i + 1;
    }
    LastIsNoBoundary(u, s, i);
    result := result + [s[j..]];
  }

  lemma PrefixesSnoc(s: string, b: seq<nat>, i: nat)
    requires i < |s| && forall k :: 0 <= k < |b| ==> b[k] < |s|
    ensures Prefixes(s, b + [i]) == Prefixes(s, b) + [s[..i + 1]]
  {
  }

  /** The last rune is never a boundary. */
  lemma LastIsNoBoundary(u: Unicode, s: string, i: nat)
    requires i <= |s| && (i == 0 || i == |s| - 1) && (|s| > 0 ==> i == |s| - 1)
    ensures BoundariesBelow(u, s, i) == Boundaries(u, s)
  {
    if |s| > 0 {
      assert !IsBoundary(u, s, |s| - 1);
    }
  }

  /** Concatenation of a sequence of strings. */
  function Concat(ss: seq<string>): string
  {
    if ss == [] then "" else ss[0] + Concat(ss[1..])
  }

  lemma {:induction false} ConcatAppend(xs: seq<string>, ys: seq<string>)
    ensures Concat(xs + ys) == Concat(xs) + Concat(ys)
  {
    if xs == [] {
      assert xs + ys == ys;
    } else {
      assert (xs + ys)[1..] == xs[1..] + ys;
      ConcatAppend(xs[1..], ys);
    }
  }

  /** Counting: one segment per boundary and one more; the last segment is
      the text after the last boundary; with no boundary, `[s]`. */
  lemma SegmentsShape(u: Unicode, s: string)
    ensures |Segments(u, s)| == |Boundaries(u, s)| + 1
    ensures Segments(u, s)[|Segments(u, s)| - 1] == s[RunStart(Boundaries(u, s))..]
    ensures forall k :: 0 <= k < |Boundaries(u, s)| ==>
              Segments(u, s)[k] == s[..Boundaries(u, s)[k] + 1]
    ensures Boundaries(u, s) == [] ==> Segments(u, s) == [s]
  {
  }

  /** The segments concatenate back to the line if and only if the line
      has at most one boundary: with two or more, the second segment
      repeats the first. */
  lemma SegmentsConcatIff(u: Unicode, s: string)
    ensures Concat(Segments(u, s)) == s <==> |Boundaries(u, s)| <= 1
  {
    var b := Boundaries(u, s);
    var segs := Segments(u, s);
    if |b| == 0 {
      assert segs == [s];
      assert Concat(segs) == s + Concat([]);
    } else if |b| == 1 {
      assert segs == [s[..b[0] + 1]] + [s[b[0] + 1..]];
      ConcatAppend([s[..b[0] + 1]], [s[b[0] + 1..]]);
      assert Concat([s[b[0] + 1..]]) == s[b[0] + 1..] + Concat([]);
      assert Concat([s[..b[0] + 1]]) == s[..b[0] + 1] + Concat([]);
      assert s[..b[0] + 1] + s[b[0] + 1..] == s;
    } else {
      var m := |b|;
      var first := [segs[0]];
      var middle := segs[1..m - 1];
      var last := segs[m - 1..];
      assert segs == first + middle + last;
      ConcatAppend(first + middle, last);
      ConcatAppend(first, middle);
      assert last == [s[..b[m - 1] + 1]] + [s[b[m - 1] + 1..]];
      ConcatAppend([s[..b[m - 1] + 1]], [s[b[m - 1] + 1..]]);
      assert Concat([s[b[m - 1] + 1..]]) == s[b[m - 1] + 1..] + Concat([]);
      assert Concat([s[..b[m - 1] + 1]]) == s[..b[m - 1] + 1] + Concat([]);
      assert Concat(first) == segs[0] + Concat([]);
      assert |Concat(last)| == |s|;
      assert |Concat(first)| == b[0] + 1;
      assert |Concat(segs)| > |s|;
    }
  }

  /** The cut points of the intended runs: 0, then just after each boundary. */
  function Cuts(b: seq<nat>): seq<nat>
  {
    [0] + seq(|b|, k requires 0 <= k < |b| => b[k] + 1)
  }

  ghost predicate ValidCuts(s: string, c: seq<nat>)
  {
    && (forall k :: 0 <= k < |c| ==> c[k] <= |s|)
    && (forall k, l :: 0 <= k < l < |c| ==> c[k] <= c[l])
  }

  /** The slices of `s` between consecutive cut points. */
  function Pieces(s: string, c: seq<nat>): (r: seq<string>)
    requires ValidCuts(s, c)
    ensures |r| == if |c| < 2 then 0 else |c| - 1
    decreases |c|
  {
    if |c| < 2 then [] else [s[c[0]..c[1]]] + Pieces(s, c[1..])
  }

  lemma {:induction false} PiecesSnoc(s: string, c: seq<nat>, x: nat)
    requires |c| >= 1 && ValidCuts(s, c) && c[|c| - 1] <= x <= |s|
    ensures ValidCuts(s, c + [x])
    ensures Pieces(s, c + [x]) == Pieces(s, c) + [s[c[|c| - 1]..x]]
    decreases |c|
  {
    assert forall k :: 0 <= k < |c| ==> c[k] == (c + [x])[k];
    if |c| == 1 {
      assert (c + [x])[1..] == [x];
    } else {
      assert (c + [x])[1..] == c[1..] + [x];
      PiecesSnoc(s, c[1..], x);
    }
  }

  lemma {:induction false} PiecesConcat(s: string, c: seq<nat>)
    requires |c| >= 1 && ValidCuts(s, c)
    ensures Concat(Pieces(s, c)) == s[c[0]..c[|c| - 1]]
    decreases |c|
  {
    if |c| >= 2 {
      PiecesConcat(s, c[1..]);
      assert Pieces(s, c)[1..] == Pieces(s, c[1..]);
      assert s[c[0]..c[1]] + s[c[1]..c[|c| - 1]] == s[c[0]..c[|c| - 1]];
    }
  }

  lemma CutsValid(u: Unicode, s: string, n: nat)
    requires n <= |s|
    ensures ValidCuts(s, Cuts(BoundariesBelow(u, s, n)))
    ensures ValidCuts(s, Cuts(BoundariesBelow(u, s, n)) + [|s|])
    ensures Cuts(BoundariesBelow(u, s, n))[|BoundariesBelow(u, s, n)|] == RunStart(BoundariesBelow(u, s, n))
  {
    BoundariesBelowSorted(u, s, n);
  }

  /** What `split` evidently intends: the runs between consecutive boundaries. */
  function Runs(u: Unicode, s: string): seq<string>
  {
    var b := Boundaries(u, s);
    CutsValid(u, s, |s|);
    Pieces(s, Cuts(b) + [|s|])
  }

  /** The complete runs that end at a boundary below `n`. */
  function RunsBelow(u: Unicode, s: string, n: nat): seq<string>
    requires n <= |s|
  {
    CutsValid(u, s, n);
    Pieces(s, Cuts(BoundariesBelow(u, s, n)))
  }

  lemma RunsBelowStep(u: Unicode, s: string, i: nat)
    requires i < |s| - 1
    ensures RunsBelow(u, s, i + 1) ==
              RunsBelow(u, s, i) + (if IsBoundary(u, s, i) then [s[RunStart(BoundariesBelow(u, s, i))..i + 1]] else [])
    ensures RunStart(BoundariesBelow(u, s, i + 1)) ==
              if IsBoundary(u, s, i) then i + 1 else RunStart(BoundariesBelow(u, s, i))
  {
    var b := BoundariesBelow(u, s, i);
    CutsValid(u, s, i);
    if IsBoundary(u, s, i) {
      assert BoundariesBelow(u, s, i + 1) == b + [i];
      assert Cuts(b + [i]) == Cuts(b) + [i + 1];
      assert Cuts(b)[|Cuts(b)| - 1] == RunStart(b);
      PiecesSnoc(s, Cuts(b), i + 1);
    } else {
      assert BoundariesBelow(u, s, i + 1) == b;
    }
  }

  lemma RunsBelowLast(u: Unicode, s: string, i: nat)
    requires i <= |s| && (i == 0 || i == |s| - 1) && (|s| > 0 ==> i == |s| - 1)
    ensures RunStart(BoundariesBelow(u, s, i)) <= |s|
    ensures Runs(u, s) == RunsBelow(u, s, i) + [s[RunStart(BoundariesBelow(u, s, i))..]]
  {
    LastIsNoBoundary(u, s, i);
    RunsSplitLast(u, s);
  }

  lemma RunsSplitLast(u: Unicode, s: string)
    ensures RunStart(Boundaries(u, s)) <= |s|
    ensures Runs(u, s) == RunsBelow(u, s, |s|) + [s[RunStart(Boundaries(u, s))..]]
  {
    var b := Boundaries(u, s);
    var c := Cuts(b);
    CutsValid(u, s, |s|);
    assert c[|c| - 1] == RunStart(b);
    PiecesSnoc(s, c, |s|);
    assert s[RunStart(b)..] == s[RunStart(b)..|s|];
  }

  /** `split` with `rs[j:i+1]` in place of `rs[:i+1]`. */
  method SplitRuns(u: Unicode, s: string) returns (result: seq<string>)
    ensures result == Runs(u, s)
  {
    result := [];
    var j := 0;
    var i := 0;
    while i < |s| - 1
      invariant 0 <= i <= |s| && (i == 0 || i <= |s| - 1)
      invariant result == RunsBelow(u, s, i)
      invariant j == RunStart(BoundariesBelow(u, s, i))
    {
      RunsBelowStep(u, s, i);
      if u.isLower(s[i]) && u.isUpper(s[i + 1]) {
        result := result + [s[j..i + 1]];
        j := i + 1;
      }
      i := i + 1;
    }
    RunsBelowLast(u, s, i);
    result := result + [s[j..]];
  }

  /** The intended runs always concatenate back to the line, one run per
      boundary and one more. */
  lemma RunsRoundTrip(u: Unicode, s: string)
    ensures Concat(Runs(u, s)) == s
    ensures |Runs(u, s)| == |Boundaries(u, s)| + 1
  {
    var c := Cuts(Boundaries(u, s)) + [|s|];
    CutsValid(u, s, |s|);
    PiecesConcat(s, c);
    assert s[c[0]..c[|c| - 1]] == s;
  }

  /** With at most one boundary, `split` as written already returns the
      intended runs; with two or more it does not. */
  lemma RunsAgreeWithSegments(u: Unicode, s: string)
    ensures Runs(u, s) == Segments(u, s) <==> |Boundaries(u, s)| <= 1
  {
    var b := Boundaries(u, s);
    if |b| == 0 {
      RunsWithoutBoundary(u, s);
    } else if |b| == 1 {
      RunsWithOneBoundary(u, s);
    } else {
      RunsRoundTrip(u, s);
      SegmentsConcatIff(u, s);
    }
  }

  lemma RunsWithoutBoundary(u: Unicode, s: string)
    requires Boundaries(u, s) == []
    ensures Runs(u, s) == Segments(u, s) == [s]
  {
    CutsValid(u, s, |s|);
    assert Cuts([]) + [|s|] == [0, |s|];
    assert Pieces(s, [0, |s|]) == [s[0..|s|]] + Pieces(s, [|s|]);
    assert s[0..|s|] == s[RunStart([])..] == s;
  }

  lemma RunsWithOneBoundary(u: Unicode, s: string)
    requires |Boundaries(u, s)| == 1
    ensures Runs(u, s) == Segments(u, s)
  {
    var x := Boundaries(u, s)[0] + 1;
    CutsValid(u, s, |s|);
    assert Cuts(Boundaries(u, s)) + [|s|] == [0, x, |s|];
    assert Pieces(s, [0, x, |s|]) == [s[0..x]] + ([s[x..|s|]] + Pieces(s, [|s|]));
    assert s[0..x] == s[..x] && s[x..|s|] == s[x..];
    assert Segments(u, s) == [s[..x]] + [s[x..]];
  }

  /** An ASCII lower-case letter before an ASCII upper-case one is a
      boundary; a pair of ASCII letters of any other shape is not. */
  lemma AsciiBoundary(u: Unicode, s: string, i: nat)
    requires AsciiLetters(u) && i < |s| - 1
    requires ('a' <= s[i] <= 'z' || 'A' <= s[i] <= 'Z') && ('a' <= s[i + 1] <= 'z' || 'A' <= s[i + 1] <= 'Z')
    ensures IsBoundary(u, s, i) <==> 'a' <= s[i] <= 'z' && 'A' <= s[i + 1] <= 'Z'
  {
  }

  /** The test cases of `TestSplit`, for any table that classifies ASCII
      letters as Unicode does. */
  lemma SplitTestCases(u: Unicode)
    requires AsciiLetters(u)
    ensures Segments(u, "aiuEo") == ["aiu", "Eo"]
    ensures Segments(u, "aiueo") == ["aiueo"]
    ensures Segments(u, "AIUEO") == ["AIUEO"]
    ensures Segments(u, "AIUeo") == ["AIUeo"]
  {
    SplitAiuEo(u);
    SplitOneCase(u, "aiueo");
    SplitOneCase(u, "AIUEO");
    SplitOneCase(u, "AIUeo");
  }

  lemma SplitOneCase(u: Unicode, s: string)
    requires AsciiLetters(u)
    requires s == "aiueo" || s == "AIUEO" || s == "AIUeo"
    ensures Segments(u, s) == [s]
  {
    if s == "aiueo" {
      SplitWithoutBoundary(u, "aiueo");
    } else if s == "AIUEO" {
      SplitWithoutBoundary(u, "AIUEO");
    } else {
      SplitWithoutBoundary(u, "AIUeo");
    }
  }

  lemma SplitAiuEo(u: Unicode)
    requires AsciiLetters(u)
    ensures Segments(u, "aiuEo") == ["aiu", "Eo"]
  {
    var s := "aiuEo";
    forall i | 0 <= i < |s| - 1 ensures IsBoundary(u, s, i) <==> i == 2 {
      AsciiBoundary(u, s, i);
    }
    OnlyBoundary(u, s, 2);
    assert s[..3] == "aiu" && s[3..] == "Eo";
  }

  /** A line of ASCII letters with no lower-case letter directly before an
      upper-case one is a single segment. */
  lemma SplitWithoutBoundary(u: Unicode, s: string)
    requires AsciiLetters(u)
    requires forall i :: 0 <= i < |s| ==> 'a' <= s[i] <= 'z' || 'A' <= s[i] <= 'Z'
    requires forall i :: 0 <= i < |s| - 1 ==> !('a' <= s[i] <= 'z' && 'A' <= s[i + 1] <= 'Z')
    ensures Segments(u, s) == [s]
  {
    forall i | 0 <= i < |s|
      ensures !IsBoundary(u, s, i)
    {
      if i < |s| - 1 {
        AsciiBoundary(u, s, i);
      }
    }
    NoBoundaries(u, s);
  }

  lemma {:induction false} NoBoundariesBelow(u: Unicode, s: string, n: nat)
    requires n <= |s|
    requires forall i :: 0 <= i < n ==> !IsBoundary(u, s, i)
    ensures BoundariesBelow(u, s, n) == []
  {
    if n > 0 {
      NoBoundariesBelow(u, s, n - 1);
    }
  }

  lemma {:induction false} OnlyBoundaryBelow(u: Unicode, s: string, b: nat, n: nat)
    requires n <= |s| && IsBoundary(u, s, b)
    requires forall i :: 0 <= i < |s| && i != b ==> !IsBoundary(u, s, i)
    ensures BoundariesBelow(u, s, n) == if n <= b then [] else [b]
  {
    if n > 0 {
      OnlyBoundaryBelow(u, s, b, n - 1);
    }
  }

  /** A line with exactly one boundary is two segments, cut after it. */
  lemma OnlyBoundary(u: Unicode, s: string, b: nat)
    requires IsBoundary(u, s, b)
    requires forall i :: 0 <= i < |s| && i != b ==> !IsBoundary(u, s, i)
    ensures Boundaries(u, s) == [b] && Segments(u, s) == [s[..b + 1], s[b + 1..]]
  {
    OnlyBoundaryBelow(u, s, b, |s|);
    assert Prefixes(s, [b]) == [s[..b + 1]];
  }

  /** A line without boundaries is one segment. */
  lemma NoBoundaries(u: Unicode, s: string)
    requires forall i :: 0 <= i < |s| ==> !IsBoundary(u, s, i)
    ensures Boundaries(u, s) == [] && Segments(u, s) == [s]
  {
    NoBoundariesBelow(u, s, |s|);
  }

  /** A line with two boundaries: `split` as written returns overlapping
      segments, the intended runs partition the line. */
  lemma SplitOverlapWitness(u: Unicode)
    requires AsciiLetters(u)
    ensures Segments(u, "kaKiKu") == ["ka", "kaKi", "Ku"]
    ensures Concat(Segments(u, "kaKiKu")) != "kaKiKu"
    ensures Runs(u, "kaKiKu") == ["ka", "Ki", "Ku"]
  {
    var s := "kaKiKu";
    KaKiKuBoundaries(u);
    assert Prefixes(s, [1, 3]) == [s[..2], s[..4]];
    assert s[..2] == "ka" && s[..4] == "kaKi" && s[4..] == "Ku";
    SegmentsConcatIff(u, s);
    KaKiKuRuns(u);
  }

  lemma KaKiKuRuns(u: Unicode)
    requires AsciiLetters(u)
    ensures Runs(u, "kaKiKu") == ["ka", "Ki", "Ku"]
  {
    var s := "kaKiKu";
    KaKiKuBoundaries(u);
    CutsValid(u, s, |s|);
    assert Cuts([1, 3]) + [6] == [0, 2, 4, 6];
    assert Pieces(s, [0, 2, 4, 6])
        == [s[0..2]] + ([s[2..4]] + ([s[4..6]] + Pieces(s, [6])));
    assert s[0..2] == "ka" && s[2..4] == "Ki" && s[4..6] == "Ku";
  }

  lemma KaKiKuBoundaries(u: Unicode)
    requires AsciiLetters(u)
    ensures Boundaries(u, "kaKiKu") == [1, 3]
  {
    var s := "kaKiKu";
    AsciiBoundary(u, s, 0);
    AsciiBoundary(u, s, 1);
    AsciiBoundary(u, s, 2);
    AsciiBoundary(u, s, 3);
    AsciiBoundary(u, s, 4);
    assert BoundariesBelow(u, s, 1) == [];
    assert BoundariesBelow(u, s, 2) == [1];
    assert BoundariesBelow(u, s, 3) == [1];
    assert BoundariesBelow(u, s, 4) == [1, 3];
    assert BoundariesBelow(u, s, 5) == [1, 3];
    assert BoundariesBelow(u, s, 6) == [1, 3];
  }
}
