/** The Python 2 string and list operations that the two scripts rely on,
    stated over `string` (a sequence of characters). */
module PyText {
  import opened Wrappers

  // ---------------------------------------------------------------------
  // Joining

  /** `"".join(parts)` */
  function Concat(parts: seq<string>): string
    decreases |parts|
  {
    if |parts| == 0 then "" else parts[0] + Concat(parts[1..])
  }

  lemma {:induction false} ConcatAppend(a: seq<string>, b: seq<string>)
    ensures Concat(a + b) == Concat(a) + Concat(b)
    decreases |a|
  {
    if |a| == 0 {
      assert a + b == b;
    } else {
      assert (a + b)[1..] == a[1..] + b;
      ConcatAppend(a[1..], b);
    }
  }

  /** `sep.join(parts)` for a one-character separator */
  function JoinWith(parts: seq<string>, sep: char): string
    decreases |parts|
  {
    if |parts| == 0 then ""
    else if |parts| == 1 then parts[0]
    else parts[0] + [sep] + JoinWith(parts[1..], sep)
  }

  // ---------------------------------------------------------------------
  // str.split with a one-character separator

  /** `s.split(sep)`: the pieces between separators; an empty string gives one
      empty piece, as in Python. The pieces hold no separator and joining them
      with the separator gives `s` back. */
  function Split(s: string, sep: char): (r: seq<string>)
    ensures |r| >= 1
    ensures forall k :: 0 <= k < |r| ==> sep !in r[k]
    ensures JoinWith(r, sep) == s
    decreases |s|
  {
    if |s| == 0 then [""]
    else if s[0] == sep then [""] + Split(s[1..], sep)
    else
      var rest := Split(s[1..], sep);
      var r := [[s[0]] + rest[0]] + rest[1..];
      assert JoinWith(r, sep) == [s[0]] + JoinWith(rest, sep) by {
        if |rest| > 1 {
          assert r[1..] == rest[1..];
        }
      }
      r
  }

  lemma {:induction false} SplitPiece(p: string, rest: string, sep: char)
    requires sep !in p
    ensures Split(p + [sep] + rest, sep) == [p] + Split(rest, sep)
    decreases |p|
  {
    if |p| == 0 {
      assert p + [sep] + rest == [sep] + rest;
      assert ([sep] + rest)[1..] == rest;
    } else {
      var s := p + [sep] + rest;
      assert s[0] == p[0] && s[1..] == p[1..] + [sep] + rest;
      SplitPiece(p[1..], rest, sep);
      assert [p[0]] + p[1..] == p;
    }
  }

  lemma {:induction false} SplitNoSeparator(p: string, sep: char)
    requires sep !in p
    ensures Split(p, sep) == [p]
    decreases |p|
  {
    if |p| > 0 {
      SplitNoSeparator(p[1..], sep);
      assert [p[0]] + p[1..] == p;
    }
  }

  /** Splitting undoes joining when no piece holds the separator. */
  lemma {:induction false} SplitJoinWith(parts: seq<string>, sep: char)
    requires |parts| >= 1
    requires forall k :: 0 <= k < |parts| ==> sep !in parts[k]
    ensures Split(JoinWith(parts, sep), sep) == parts
    decreases |parts|
  {
    if |parts| == 1 {
      SplitNoSeparator(parts[0], sep);
    } else {
      SplitJoinWith(parts[1..], sep);
      SplitPiece(parts[0], JoinWith(parts[1..], sep), sep);
      assert [parts[0]] + parts[1..] == parts;
    }
  }

  // ---------------------------------------------------------------------
  // Substrings

  /** `sub in s` */
  predicate Contains(s: string, sub: string)
    decreases |s|
  {
    sub <= s || (|s| > 0 && Contains(s[1..], sub))
  }

  /** A one-character pattern occurs exactly where the character does. */
  lemma {:induction false} ContainsChar(s: string, c: char)
    ensures Contains(s, [c]) <==> c in s
    decreases |s|
  {
    if |s| > 0 {
      ContainsChar(s[1..], c);
      assert s == [s[0]] + s[1..];
    }
  }

  /** `s.replace(pat, rep)`: every non-overlapping occurrence of `pat`, scanning
      from the left, is replaced by `rep`. Every pattern in the scripts is a
      non-empty literal. */
  function Replace(s: string, pat: string, rep: string): string
    requires |pat| > 0
    decreases |s|
  {
    if |s| < |pat| then s
    else if pat <= s then rep + Replace(s[|pat|..], pat, rep)
    else [s[0]] + Replace(s[1..], pat, rep)
  }

  /** Replacing a one-character pattern by nothing deletes that character,
      and a character found in neither the input nor the replacement does not
      appear in the output. */
  lemma {:induction false} ReplaceDeletes(s: string, c: char, d: char)
    ensures c !in Replace(s, [c], "")
    ensures d !in s && d != c ==> d !in Replace(s, [c], "")
    decreases |s|
  {
    if |s| > 0 {
      ReplaceDeletes(s[1..], c, d);
      if [c] <= s {
        assert s[1..] == s[|[c]|..];
      } else {
        assert s[0] != c;
      }
    }
  }

  /** A character in neither the text nor the replacement is not in the
      result. */
  lemma {:induction false} ReplaceKeepsOut(s: string, pat: string, rep: string, c: char)
    requires |pat| > 0
    ensures c !in s && c !in rep ==> c !in Replace(s, pat, rep)
    decreases |s|
  {
    if |s| >= |pat| {
      if pat <= s {
        ReplaceKeepsOut(s[|pat|..], pat, rep, c);
        assert forall k :: 0 <= k < |s| - |pat| ==> s[|pat|..][k] == s[k + |pat|];
      } else {
        ReplaceKeepsOut(s[1..], pat, rep, c);
        assert forall k :: 0 <= k < |s| - 1 ==> s[1..][k] == s[k + 1];
      }
    }
  }

  /** A string without an occurrence of the pattern is left as it is. */
  lemma {:induction false} ReplaceAbsent(s: string, pat: string, rep: string)
    requires |pat| > 0
    requires !Contains(s, pat)
    ensures Replace(s, pat, rep) == s
    decreases |s|
  {
    if |s| >= |pat| {
      ReplaceAbsent(s[1..], pat, rep);
      assert [s[0]] + s[1..] == s;
    }
  }

  /** No occurrence of `pat` can straddle the seam between `a` and `b`. */
  predicate NoStraddle(a: string, b: string, pat: string) {
    (|a| == 0 || a[|a| - 1] !in pat) || (|b| == 0 || b[0] !in pat)
  }

  /** An occurrence at the head of `a + b` lies inside `a` when the seam
      cannot be straddled. */
  lemma HeadMatchInLeft(a: string, b: string, pat: string)
    ensures (&& |pat| > 0 && |a| > 0 && NoStraddle(a, b, pat)
             && |pat| <= |a + b| && pat <= a + b) ==> |pat| <= |a|
  {
    if |pat| > 0 && 0 < |a| < |pat| && |pat| <= |a + b| && pat <= a + b {
      var s := a + b;
      assert a[|a| - 1] == s[|a| - 1] == pat[|a| - 1];
      assert b[0] == s[|a|] == pat[|a|];
    }
  }

  /** Replacing in a concatenation whose seam no occurrence can straddle is
      replacing in each part. */
  lemma {:induction false} ReplaceSplit(a: string, b: string, pat: string, rep: string)
    requires |pat| > 0
    requires NoStraddle(a, b, pat)
    ensures Replace(a + b, pat, rep) == Replace(a, pat, rep) + Replace(b, pat, rep)
    decreases |a|
  {
    if |a| == 0 {
      assert a + b == b;
    } else if |a + b| < |pat| {
    } else if pat <= a + b {
      HeadMatchInLeft(a, b, pat);
      ReplaceSplitMatch(a, b, pat, rep);
    } else {
      ReplaceSplitSkip(a, b, pat, rep);
    }
  }

  lemma PrefixOfConcat(a: string, b: string, pat: string)
    requires |pat| <= |a|
    ensures pat <= a <==> pat <= a + b
  {
    assert (a + b)[..|pat|] == a[..|pat|];
  }

  lemma {:induction false} ReplaceSplitMatch(a: string, b: string, pat: string, rep: string)
    requires |pat| > 0 && |pat| <= |a| && pat <= a
    requires NoStraddle(a, b, pat)
    ensures Replace(a + b, pat, rep) == Replace(a, pat, rep) + Replace(b, pat, rep)
    decreases |a|, 0
  {
    var s := a + b;
    var a' := a[|pat|..];
    PrefixOfConcat(a, b, pat);
    assert s[|pat|..] == a' + b;
    assert NoStraddle(a', b, pat) by {
      if |a'| > 0 { assert a'[|a'| - 1] == a[|a| - 1]; }
    }
    ReplaceSplit(a', b, pat, rep);
    assert Replace(s, pat, rep) == rep + Replace(a' + b, pat, rep);
    assert Replace(a, pat, rep) == rep + Replace(a', pat, rep);
  }

  lemma {:induction false} ReplaceSplitSkip(a: string, b: string, pat: string, rep: string)
    requires |pat| > 0 && |a| > 0 && |pat| <= |a + b| && !(pat <= a + b)
    requires NoStraddle(a, b, pat)
    ensures Replace(a + b, pat, rep) == Replace(a, pat, rep) + Replace(b, pat, rep)
    decreases |a|, 0
  {
    var a' := a[1..];
    SkipBoth(a, b, pat, rep);
    assert NoStraddle(a', b, pat) by {
      if |a'| > 0 { assert a'[|a'| - 1] == a[|a| - 1]; }
    }
    ReplaceSplit(a', b, pat, rep);
    var x, y, z := Replace(a', pat, rep), Replace(b, pat, rep), [a[0]];
    assert z + (x + y) == (z + x) + y;
  }

  /** Both `a + b` and `a` keep the head of `a` when the pattern does not
      start `a + b`. */
  lemma SkipBoth(a: string, b: string, pat: string, rep: string)
    requires |pat| > 0 && |a| > 0 && |pat| <= |a + b| && !(pat <= a + b)
    ensures Replace(a + b, pat, rep) == [a[0]] + Replace(a[1..] + b, pat, rep)
    ensures Replace(a, pat, rep) == [a[0]] + Replace(a[1..], pat, rep)
  {
    assert !(pat <= a) by {
      if |pat| <= |a| { PrefixOfConcat(a, b, pat); }
    }
    ReplaceSkipHead(a, pat, rep);
    ReplaceSkipHead(a + b, pat, rep);
    assert (a + b)[1..] == a[1..] + b;
  }

  /** Where the pattern does not start the string, its head is kept. */
  lemma ReplaceSkipHead(s: string, pat: string, rep: string)
    requires |pat| > 0 && |s| > 0 && !(pat <= s)
    ensures Replace(s, pat, rep) == [s[0]] + Replace(s[1..], pat, rep)
  {
    if |s| < |pat| {
      ReplaceShort(s[1..], pat, rep);
      assert [s[0]] + s[1..] == s;
    }
  }

  lemma ReplaceShort(s: string, pat: string, rep: string)
    requires |pat| > 0 && |s| < |pat|
    ensures Replace(s, pat, rep) == s
  {
  }

  /** `s[:s.find(c)]` when `c in s`, and all of `s` otherwise. */
  function BeforeFirst(s: string, c: char): (r: string)
    ensures c !in r
    ensures r <= s
    ensures c in s ==> |r| < |s| && s[|r|] == c
    ensures c !in s ==> r == s
    decreases |s|
  {
    if |s| == 0 then s
    else if s[0] == c then ""
    else [s[0]] + BeforeFirst(s[1..], c)
  }

  // ---------------------------------------------------------------------
  // Whitespace and lines

  /** Python 2 `string.whitespace`: space, tab, newline, carriage return,
      vertical tab and form feed. */
  predicate IsSpace(c: char) {
    c == ' ' || c == '\t' || c == '\n' || c == '\r' || c == '\U{B}' || c == '\U{C}'
  }

  predicate IsBreak(c: char) {
    c == '\n' || c == '\r'
  }

  /** True iff `s` holds a character that is not whitespace, that is,
      Python's `s.strip("\r\n").strip()` is non-empty. */
  predicate HasNonSpace(s: string)
    decreases |s|
  {
    |s| > 0 && (!IsSpace(s[0]) || HasNonSpace(s[1..]))
  }

  function StripLeft(s: string): (r: string)
    ensures |r| <= |s| && r == s[|s| - |r|..]
    ensures forall k :: 0 <= k < |s| - |r| ==> IsSpace(s[k])
    ensures |r| == 0 || !IsSpace(r[0])
    decreases |s|
  {
    if |s| > 0 && IsSpace(s[0]) then StripLeft(s[1..]) else s
  }

  function StripRight(s: string): (r: string)
    ensures |r| <= |s| && r == s[..|r|]
    ensures forall k :: |r| <= k < |s| ==> IsSpace(s[k])
    ensures |r| == 0 || !IsSpace(r[|r| - 1])
    decreases |s|
  {
    if |s| > 0 && IsSpace(s[|s| - 1]) then StripRight(s[..|s| - 1]) else s
  }

  /** How many leading characters `s.strip()` removes. */
  function StripStart(s: string): nat {
    |s| - |StripLeft(s)|
  }

  /** `s.strip()`: `s` without its leading and trailing whitespace; the result
      is the slice of `s` that starts at `StripStart(s)` and everything outside
      it is whitespace. */
  function Strip(s: string): (r: string)
    ensures |r| == 0 || (!IsSpace(r[0]) && !IsSpace(r[|r| - 1]))
    ensures StripStart(s) + |r| <= |s| && r == s[StripStart(s)..StripStart(s) + |r|]
    ensures forall k :: 0 <= k < StripStart(s) ==> IsSpace(s[k])
    ensures forall k :: StripStart(s) + |r| <= k < |s| ==> IsSpace(s[k])
  {
    var left := StripLeft(s);
    var r := StripRight(left);
    SuffixSlice(s, |s| - |left|, |r|);
    r
  }

  lemma SuffixSlice(s: string, i: nat, n: nat)
    requires i + n <= |s|
    ensures s[i..][..n] == s[i..i + n]
    ensures forall k :: i <= k < |s| ==> s[i..][k - i] == s[k]
  {
  }

  /** Length of the first line of `s`, its line break (`\n`, `\r` or
      `\r\n`) included, as Python 2's `str.splitlines(True)` cuts it. */
  function LineLen(s: string): (k: nat)
    ensures |s| > 0 ==> 0 < k <= |s|
    ensures |s| == 0 ==> k == 0
    decreases |s|
  {
    if |s| == 0 then 0
    else if s[0] == '\n' then 1
    else if s[0] == '\r' then (if |s| > 1 && s[1] == '\n' then 2 else 1)
    else 1 + LineLen(s[1..])
  }

  /** `s.splitlines(True)`: the lines of `s`, each with its line break. */
  function SplitLines(s: string): (r: seq<string>)
    ensures Concat(r) == s
    ensures forall k :: 0 <= k < |r| ==> |r[k]| > 0
    decreases |s|
  {
    if |s| == 0 then []
    else
      var k := LineLen(s);
      assert s[..k] + s[k..] == s;
      [s[..k]] + SplitLines(s[k..])
  }

  /** A list of lines that `SplitLines` cuts back into the same list: each
      line is one whole line, every line but the last ends in a break, and a
      line ending in `\r` is not followed by one starting with `\n`. */
  ghost predicate WellLines(ls: seq<string>)
    decreases |ls|
  {
    |ls| == 0 ||
    (&& |ls[0]| > 0 && LineLen(ls[0]) == |ls[0]|
     && (|ls| > 1 ==> IsBreak(ls[0][|ls[0]| - 1]))
     && (|ls| > 1 && ls[0][|ls[0]| - 1] == '\r' ==> |ls[1]| > 0 && ls[1][0] != '\n')
     && WellLines(ls[1..]))
  }

  lemma {:induction false} LineLenOfPrefix(s: string)
    requires |s| > 0
    ensures LineLen(s[..LineLen(s)]) == LineLen(s)
    ensures LineLen(s) < |s| ==> IsBreak(s[LineLen(s) - 1])
    ensures LineLen(s) < |s| && s[LineLen(s) - 1] == '\r' ==> s[LineLen(s)] != '\n'
    decreases |s|
  {
    var k := LineLen(s);
    if s[0] == '\n' || s[0] == '\r' {
    } else {
      if |s| > 1 {
        LineLenOfPrefix(s[1..]);
        assert s[..k][1..] == s[1..][..k - 1];
      }
    }
  }

  lemma {:induction false} LineLenOfConcat(l: string, rest: string)
    requires |l| > 0 && LineLen(l) == |l|
    requires |rest| > 0 ==> IsBreak(l[|l| - 1])
    requires l[|l| - 1] == '\r' && |rest| > 0 ==> rest[0] != '\n'
    ensures LineLen(l + rest) == |l|
    decreases |l|
  {
    if l[0] == '\n' || l[0] == '\r' {
    } else if |rest| > 0 {
      assert (l + rest)[1..] == l[1..] + rest;
      LineLenOfConcat(l[1..], rest);
    } else {
      assert l + rest == l;
    }
  }

  lemma WellLinesCons(l: string, tail: seq<string>)
    requires WellLines(tail)
    requires |l| > 0 && LineLen(l) == |l|
    requires |tail| > 0 ==> IsBreak(l[|l| - 1])
    requires |tail| > 0 && l[|l| - 1] == '\r' ==> tail[0][0] != '\n'
    ensures WellLines([l] + tail)
  {
    var r := [l] + tail;
    assert r[0] == l && r[1..] == tail;
    if |tail| > 0 {
      assert r[1] == tail[0];
    }
  }

  lemma {:induction false} SplitLinesWell(s: string)
    ensures WellLines(SplitLines(s))
    decreases |s|
  {
    if |s| > 0 {
      var k := LineLen(s);
      LineLenOfPrefix(s);
      SplitLinesWell(s[k..]);
      var tail := SplitLines(s[k..]);
      if |tail| > 0 {
        assert tail[0] == s[k..][..LineLen(s[k..])];
        assert tail[0][0] == s[k];
      }
      WellLinesCons(s[..k], tail);
    }
  }

  lemma {:induction false} SplitLinesOfConcat(ls: seq<string>)
    requires WellLines(ls)
    ensures SplitLines(Concat(ls)) == ls
    decreases |ls|
  {
    if |ls| > 0 {
      var tail := ls[1..];
      SplitLinesOfConcat(tail);
      var rest := Concat(tail);
      if |rest| > 0 {
        assert |tail| > 0;
        assert rest == tail[0] + Concat(tail[1..]);
        assert rest[0] == ls[1][0];
      }
      LineLenOfConcat(ls[0], rest);
      assert (ls[0] + rest)[..|ls[0]|] == ls[0];
      assert (ls[0] + rest)[|ls[0]|..] == rest;
    }
  }

  /** `f.readline()` on a file holding `s`, opened in text mode: everything up
      to and including the first `\n`, or all of `s` when it holds none. */
  function ReadLine(s: string): (r: string)
    ensures r <= s
    ensures '\n' in s ==> |r| > 0 && r[|r| - 1] == '\n' && '\n' !in r[..|r| - 1]
    ensures '\n' !in s ==> r == s
    decreases |s|
  {
    if |s| == 0 then ""
    else if s[0] == '\n' then "\n"
    else [s[0]] + ReadLine(s[1..])
  }

  /** `f.readlines()`: the file cut after every `\n`; the pieces give the file
      back, each but the last ends in `\n`, and `\n` occurs nowhere else. */
  function ReadLines(s: string): (r: seq<string>)
    ensures Concat(r) == s
    ensures forall k :: 0 <= k < |r| ==> |r[k]| > 0
    ensures forall k :: 0 <= k < |r| - 1 ==> r[k][|r[k]| - 1] == '\n'
    ensures forall k :: 0 <= k < |r| ==> '\n' !in r[k][..|r[k]| - 1]
    ensures |s| > 0 ==> r[0] == ReadLine(s)
    decreases |s|
  {
    if |s| == 0 then []
    else
      var l := ReadLine(s);
      ReadLineShape(s);
      var rest := ReadLines(s[|l|..]);
      ReadLinesCons(l, rest);
      [l] + rest
  }

  lemma ReadLineShape(s: string)
    requires |s| > 0
    ensures 0 < |ReadLine(s)| <= |s| && s == ReadLine(s) + s[|ReadLine(s)|..]
    ensures |ReadLine(s)| < |s| ==> ReadLine(s)[|ReadLine(s)| - 1] == '\n'
    ensures '\n' !in ReadLine(s)[..|ReadLine(s)| - 1]
  {
    var l := ReadLine(s);
    if s[0] != '\n' { assert |l| >= 1; }
  }

  lemma ReadLinesCons(l: string, rest: seq<string>)
    requires |l| > 0 && '\n' !in l[..|l| - 1]
    requires |rest| > 0 ==> l[|l| - 1] == '\n'
    requires forall k :: 0 <= k < |rest| ==> |rest[k]| > 0
    requires forall k :: 0 <= k < |rest| - 1 ==> rest[k][|rest[k]| - 1] == '\n'
    requires forall k :: 0 <= k < |rest| ==> '\n' !in rest[k][..|rest[k]| - 1]
    ensures var r := [l] + rest;
      && (forall k :: 0 <= k < |r| ==> |r[k]| > 0)
      && (forall k :: 0 <= k < |r| - 1 ==> r[k][|r[k]| - 1] == '\n')
      && (forall k :: 0 <= k < |r| ==> '\n' !in r[k][..|r[k]| - 1])
  {
    var r := [l] + rest;
    assert forall k :: 1 <= k < |r| ==> r[k] == rest[k - 1];
  }

  /** The lines of `ls` that hold a non-whitespace character, in order. */
  function NonBlankLines(ls: seq<string>): (r: seq<string>)
    ensures forall k :: 0 <= k < |r| ==> HasNonSpace(r[k])
    ensures |r| <= |ls|
    decreases |ls|
  {
    if |ls| == 0 then []
    else if HasNonSpace(ls[0]) then [ls[0]] + NonBlankLines(ls[1..])
    else NonBlankLines(ls[1..])
  }

  lemma {:induction false} NonBlankLinesWell(ls: seq<string>)
    requires WellLines(ls)
    ensures WellLines(NonBlankLines(ls))
    ensures |NonBlankLines(ls)| > 0 ==> NonBlankLines(ls)[0] in ls
    ensures forall k :: 0 <= k < |NonBlankLines(ls)| ==> NonBlankLines(ls)[k][0] != '\n'
    decreases |ls|
  {
    if |ls| > 0 {
      var tail := ls[1..];
      NonBlankLinesWell(tail);
      var r := NonBlankLines(ls);
      var rt := NonBlankLines(tail);
      if HasNonSpace(ls[0]) {
        assert r == [ls[0]] + rt;
        if ls[0][0] == '\n' {
          assert |ls[0]| == 1;
          assert !HasNonSpace(ls[0][1..]);
          assert false;
        }
        if |rt| > 0 {
          assert |ls| > 1;
        }
        WellLinesCons(ls[0], rt);
      }
    }
  }

  // ---------------------------------------------------------------------
  // Numbers and lists

  function DigitChar(d: nat): char
    requires d < 10
  {
    "0123456789"[d]
  }

  /** `str(n)` for a natural number. */
  function NatToString(n: nat): (r: string)
    ensures |r| > 0
    decreases n
  {
    if n < 10 then [DigitChar(n)] else NatToString(n / 10) + [DigitChar(n % 10)]
  }

  /** `xs.index(x)`: the first position of `x`, or None where Python raises
      ValueError. */
  function Index<T(==)>(xs: seq<T>, x: T): (r: Option<nat>)
    ensures r.Some? ==> r.value < |xs| && xs[r.value] == x && x !in xs[..r.value]
    ensures r.None? <==> x !in xs
    decreases |xs|
  {
    if |xs| == 0 then None
    else if xs[0] == x then Some(0)
    else
      var r := Index(xs[1..], x);
      assert xs == [xs[0]] + xs[1..];
      if r.Some? then
        assert xs[..r.value + 1] == [xs[0]] + xs[1..][..r.value];
        Some(r.value + 1)
      else None
  }
}
