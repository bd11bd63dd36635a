/** The delta report: the lines of the first snapshot report that the second
    one lacks, as `difflib.ndiff` reports them (`- ` lines) for the two
    sorted line lists, followed by the whitespace clean-up of the joined
    text. */
module DeltaReport {
  import opened PyText
  import opened PySort

  /** `a` with one copy of `x` removed, if it holds one. */
  function RemoveOne(a: seq<string>, x: string): (r: seq<string>)
    ensures multiset(r) == multiset(a) - multiset{x}
  {
    if x in a then RemoveFirst(a, x) else a
  }

  /** The lines of `a` that `b` does not account for, counted with
      multiplicity. */
  function Minus(a: seq<string>, b: seq<string>): (r: seq<string>)
    ensures multiset(r) == multiset(a) - multiset(b)
    decreases |b|
  {
    if |b| == 0 then a
    else
      MinusStep(a, b);
      Minus(RemoveOne(a, b[0]), b[1..])
  }

  lemma MinusStep(a: seq<string>, b: seq<string>)
    requires |b| > 0
    ensures (multiset(a) - multiset{b[0]}) - multiset(b[1..]) == multiset(a) - multiset(b)
  {
    assert b == [b[0]] + b[1..];
    var m := multiset(b);
    assert m == multiset{b[0]} + multiset(b[1..]);
    forall y ensures ((multiset(a) - multiset{b[0]}) - multiset(b[1..]))[y] == (multiset(a) - m)[y] {
      assert m[y] == multiset{b[0]}[y] + multiset(b[1..])[y];
    }
  }

  /** The delta as a list of lines: every line that occurs more often in
      `f1` than in `f2`, as many times as the surplus, in ascending order. */
  function Delta(f1: seq<string>, f2: seq<string>): (r: seq<string>)
    ensures Sorted(r)
    ensures multiset(r) == multiset(f1) - multiset(f2)
  {
    Sort(Minus(f1, f2))
  }

  predicate Less(x: string, y: string) {
    LexLe(x, y) && x != y
  }

  /** A string below the head of a sorted list occurs nowhere in it. */
  lemma BelowSortedHead(x: string, b: seq<string>, j: nat)
    requires Sorted(b) && j < |b| && Less(x, b[j])
    ensures x !in b[j..]
  {
    LexLeAntisymmetric(x, b[j]);
    forall m | j <= m < |b| ensures b[m] != x {
      if m > j { assert LexLe(b[j], b[m]); }
    }
  }

  /** The three steps of the merge walk keep the surplus of `a[i..]` over
      `b[j..]` as it was. */
  lemma DropBoth(a: seq<string>, b: seq<string>, i: nat, j: nat)
    requires i < |a| && j < |b| && a[i] == b[j]
    ensures multiset(a[i + 1..]) - multiset(b[j + 1..]) == multiset(a[i..]) - multiset(b[j..])
  {
    assert a[i..] == [a[i]] + a[i + 1..];
    assert b[j..] == [b[j]] + b[j + 1..];
  }

  lemma KeepLeft(a: seq<string>, b: seq<string>, i: nat, j: nat)
    requires i < |a| && j <= |b| && a[i] !in b[j..]
    ensures multiset{a[i]} + (multiset(a[i + 1..]) - multiset(b[j..]))
         == multiset(a[i..]) - multiset(b[j..])
  {
    assert a[i..] == [a[i]] + a[i + 1..];
    assert multiset(b[j..])[a[i]] == 0;
  }

  lemma DropRight(a: seq<string>, b: seq<string>, i: nat, j: nat)
    requires i <= |a| && j < |b| && b[j] !in a[i..]
    ensures multiset(a[i..]) - multiset(b[j + 1..]) == multiset(a[i..]) - multiset(b[j..])
  {
    assert b[j..] == [b[j]] + b[j + 1..];
    assert multiset(a[i..])[b[j]] == 0;
  }

  /** What the merge walk knows after consuming `a[..i]` and `b[..j]`: the
      lines kept so far are in order, lie below the rest of `a`, and together
      with the surplus still to find they make up the whole surplus. */
  ghost predicate Walk(a: seq<string>, b: seq<string>, i: nat, j: nat, r: seq<string>) {
    && i <= |a| && j <= |b|
    && Sorted(r)
    && (forall k, m :: 0 <= k < |r| && i <= m < |a| ==> LexLe(r[k], a[m]))
    && multiset(r) + (multiset(a[i..]) - multiset(b[j..])) == multiset(a) - multiset(b)
  }

  lemma WalkMatch(a: seq<string>, b: seq<string>, i: nat, j: nat, r: seq<string>)
    requires Walk(a, b, i, j, r) && i < |a| && j < |b| && a[i] == b[j]
    ensures Walk(a, b, i + 1, j + 1, r)
  {
    DropBoth(a, b, i, j);
  }

  lemma WalkKeep(a: seq<string>, b: seq<string>, i: nat, j: nat, r: seq<string>)
    requires Sorted(a) && Sorted(b)
    requires Walk(a, b, i, j, r) && i < |a| && j < |b| && Less(a[i], b[j])
    ensures Walk(a, b, i + 1, j, r + [a[i]])
  {
    BelowSortedHead(a[i], b, j);
    KeepLeft(a, b, i, j);
    SortedSnoc(r, a[i]);
    var r' := r + [a[i]];
    forall k, m | 0 <= k < |r'| && i + 1 <= m < |a| ensures LexLe(r'[k], a[m]) {
      if k < |r| { assert r'[k] == r[k]; } else { assert LexLe(a[i], a[m]); }
    }
  }

  lemma WalkSkip(a: seq<string>, b: seq<string>, i: nat, j: nat, r: seq<string>)
    requires Sorted(a) && Sorted(b)
    requires Walk(a, b, i, j, r) && i < |a| && j < |b| && Less(b[j], a[i])
    ensures Walk(a, b, i, j + 1, r)
  {
    BelowSortedHead(b[j], a, i);
    DropRight(a, b, i, j);
  }

  lemma WalkEnd(a: seq<string>, b: seq<string>, i: nat, j: nat, r: seq<string>)
    requires Sorted(a) && Walk(a, b, i, j, r) && (i == |a| || j == |b|)
    ensures Sorted(r + a[i..])
    ensures multiset(r + a[i..]) == multiset(a) - multiset(b)
  {
    if i < |a| {
      assert b[j..] == [];
      AppendSorted(r, a, i);
    } else {
      assert a[i..] == [];
    }
  }

  /** `[x[2:] for x in ndiff(f1, f2) if x.startswith('- ')]` after both lists
      were sorted: one merge walk over the sorted lists, keeping the lines of
      the first that the second does not match. */
  method DeltaLines(f1: seq<string>, f2: seq<string>) returns (r: seq<string>)
    ensures r == Delta(f1, f2)
  {
    var a := Sort(f1);
    var b := Sort(f2);
    var i, j := 0, 0;
    r := [];
    while i < |a| && j < |b|
      invariant Walk(a, b, i, j, r)
      decreases |a| - i + |b| - j
    {
      if a[i] == b[j] {
        WalkMatch(a, b, i, j, r);
        i, j := i + 1, j + 1;
      } else if LexLe(a[i], b[j]) {
        WalkKeep(a, b, i, j, r);
        r := r + [a[i]];
        i := i + 1;
      } else {
        LexLeTotal(a[i], b[j]);
        WalkSkip(a, b, i, j, r);
        j := j + 1;
      }
    }
    WalkEnd(a, b, i, j, r);
    r := r + a[i..];
    SortedUnique(r, Delta(f1, f2));
  }

  lemma SortedSnoc(r: seq<string>, x: string)
    requires Sorted(r)
    requires forall k :: 0 <= k < |r| ==> LexLe(r[k], x)
    ensures Sorted(r + [x])
  {
  }

  lemma AppendSorted(r: seq<string>, a: seq<string>, i: nat)
    requires i <= |a| && Sorted(r) && Sorted(a)
    requires forall k, m :: 0 <= k < |r| && i <= m < |a| ==> LexLe(r[k], a[m])
    ensures Sorted(r + a[i..])
  {
    var s := r + a[i..];
    forall p, q | 0 <= p < q < |s| ensures LexLe(s[p], s[q]) {
      if q >= |r| {
        assert s[q] == a[i + q - |r|];
        if p >= |r| { assert s[p] == a[i + p - |r|]; }
      }
    }
  }

  // ---------------------------------------------------------------------
  // Properties of the delta

  /** A line is in the delta iff the first report holds more copies of it
      than the second. */
  lemma DeltaMembership(f1: seq<string>, f2: seq<string>, x: string)
    ensures x in Delta(f1, f2) <==> multiset(f1)[x] > multiset(f2)[x]
  {
    assert x in Delta(f1, f2) <==> x in multiset(Delta(f1, f2));
  }

  /** When every line of the first report is matched in the second, the
      delta is empty; in particular a report compared with itself. */
  lemma DeltaOfCovered(f1: seq<string>, f2: seq<string>)
    requires multiset(f1) <= multiset(f2)
    ensures Delta(f1, f2) == []
  {
    var d := Delta(f1, f2);
    assert multiset(d) == multiset{} by {
      forall y ensures multiset(d)[y] == 0 {
        assert multiset(f1)[y] <= multiset(f2)[y];
      }
    }
    assert |d| == |multiset(d)|;
  }

  /** Only which lines the reports hold, not the order of their lines,
      decides the delta. */
  lemma DeltaIgnoresOrder(f1: seq<string>, f2: seq<string>, g1: seq<string>, g2: seq<string>)
    requires multiset(f1) == multiset(g1) && multiset(f2) == multiset(g2)
    ensures Delta(f1, f2) == Delta(g1, g2)
  {
    SortedUnique(Delta(f1, f2), Delta(g1, g2));
  }

  // ---------------------------------------------------------------------
  // Clean-up of the joined delta text

  /** `"".join([s for s in t.strip().splitlines(True) if s.strip("\r\n").strip()])`:
      the text without surrounding whitespace and without blank lines. */
  function Cleanup(t: string): (r: string)
    ensures |r| <= |t|
  {
    var ls := SplitLines(Strip(t));
    NonBlankLinesShorter(ls);
    Concat(NonBlankLines(ls))
  }

  lemma {:induction false} NonBlankLinesShorter(ls: seq<string>)
    ensures |Concat(NonBlankLines(ls))| <= |Concat(ls)|
    decreases |ls|
  {
    if |ls| > 0 { NonBlankLinesShorter(ls[1..]); }
  }

  /** Cut into lines again, the cleaned text gives exactly the non-blank
      lines of the stripped text, each holding a non-whitespace character. */
  lemma CleanupLines(t: string)
    ensures SplitLines(Cleanup(t)) == NonBlankLines(SplitLines(Strip(t)))
    ensures forall k :: 0 <= k < |SplitLines(Cleanup(t))| ==> HasNonSpace(SplitLines(Cleanup(t))[k])
  {
    var ls := SplitLines(Strip(t));
    SplitLinesWell(Strip(t));
    NonBlankLinesWell(ls);
    SplitLinesOfConcat(NonBlankLines(ls));
  }

  /** Cleaning up twice is cleaning up once: the result has no surrounding
      whitespace and no blank line left. */
  lemma CleanupIdempotent(t: string)
    ensures Cleanup(Cleanup(t)) == Cleanup(t)
  {
    var c := Cleanup(t);
    CleanupEdges(t);
    StripUnchanged(c);
    CleanupLines(t);
    NonBlankLinesAll(SplitLines(c));
    assert SplitLines(Strip(c)) == SplitLines(c);
  }

  lemma CleanupEdges(t: string)
    ensures var c := Cleanup(t); |c| == 0 || (!IsSpace(c[0]) && !IsSpace(c[|c| - 1]))
  {
    var st := Strip(t);
    var ls := SplitLines(st);
    if |st| > 0 {
      var n := |ls| - 1;
      assert |ls| > 0;
      var init := ls[..n];
      var last := ls[n];
      assert ls == init + [last];
      ConcatAppend(init, [last]);
      assert Concat([last]) == last;
      assert st[|st| - 1] == last[|last| - 1];
      HasNonSpaceAt(last, |last| - 1);
      NonBlankLinesAppend(init, [last]);
      assert NonBlankLines([last]) == [last];
      var kept := NonBlankLines(ls);
      ConcatAppend(NonBlankLines(init), [last]);
      assert Concat(kept) == Concat(NonBlankLines(init)) + last;
      assert ls[0][0] == st[0];
      HasNonSpaceAt(ls[0], 0);
      assert kept == [ls[0]] + NonBlankLines(ls[1..]);
      assert Concat(kept)[0] == ls[0][0];
    }
  }

  lemma {:induction false} HasNonSpaceAt(s: string, k: nat)
    requires k < |s| && !IsSpace(s[k])
    ensures HasNonSpace(s)
    decreases k
  {
    if k > 0 { HasNonSpaceAt(s[1..], k - 1); }
  }

  lemma {:induction false} NonBlankLinesAppend(a: seq<string>, b: seq<string>)
    ensures NonBlankLines(a + b) == NonBlankLines(a) + NonBlankLines(b)
    decreases |a|
  {
    if |a| == 0 {
      assert a + b == b;
    } else {
      assert (a + b)[1..] == a[1..] + b;
      NonBlankLinesAppend(a[1..], b);
    }
  }

  lemma {:induction false} NonBlankLinesAll(ls: seq<string>)
    requires forall k :: 0 <= k < |ls| ==> HasNonSpace(ls[k])
    ensures NonBlankLines(ls) == ls
    decreases |ls|
  {
    if |ls| > 0 { NonBlankLinesAll(ls[1..]); }
  }

  lemma StripUnchanged(s: string)
    requires |s| == 0 || (!IsSpace(s[0]) && !IsSpace(s[|s| - 1]))
    ensures Strip(s) == s
  {
  }
}
