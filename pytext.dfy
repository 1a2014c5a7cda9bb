/**
 * The Python `str` operations the design-matrix code relies on, restricted to
 * ASCII: `strip()`, `upper()`, `lower()`, `replace(" ", "")`, `find`,
 * `split(sep)`, `sep.join`, and the code-point lexicographic order used by
 * `min` and `sorted`.
 */
module PyText {

  /** `str.isspace()` on ASCII: tab, newline, vertical tab, form feed, carriage return, 0x1C-0x1F and space. */
  predicate IsSpace(c: char) {
    var n := c as int;
    n == 32 || 9 <= n <= 13 || 28 <= n <= 31
  }

  /** Number of leading whitespace characters. */
  function LeadCount(s: string): (n: nat)
    ensures n <= |s|
    ensures forall k :: 0 <= k < n ==> IsSpace(s[k])
    ensures n < |s| ==> !IsSpace(s[n])
  {
    if s != [] && IsSpace(s[0]) then 1 + LeadCount(s[1..]) else 0
  }

  /** Number of trailing whitespace characters. */
  function TrailCount(s: string): (n: nat)
    ensures n <= |s|
    ensures forall k :: |s| - n <= k < |s| ==> IsSpace(s[k])
    ensures n < |s| ==> !IsSpace(s[|s| - 1 - n])
  {
    if s != [] && IsSpace(s[|s| - 1]) then 1 + TrailCount(s[..|s| - 1]) else 0
  }

  /** `s.strip()`: the longest middle part of `s` that neither starts nor ends with whitespace. */
  function Strip(s: string): (r: string)
    ensures LeadCount(s) + |r| <= |s|
    ensures r == s[LeadCount(s)..LeadCount(s) + |r|]
    ensures forall k :: 0 <= k < LeadCount(s) ==> IsSpace(s[k])
    ensures forall k :: LeadCount(s) + |r| <= k < |s| ==> IsSpace(s[k])
    ensures r != [] ==> !IsSpace(r[0]) && !IsSpace(r[|r| - 1])
    ensures r == [] ==> forall k :: 0 <= k < |s| ==> IsSpace(s[k])
  {
    var t := s[LeadCount(s)..];
    t[..|t| - TrailCount(t)]
  }

  /** Stripping twice strips nothing more. */
  lemma StripIdempotent(s: string)
    ensures Strip(Strip(s)) == Strip(s)
  {
    var r := Strip(s);
    if r != [] {
      assert LeadCount(r) == 0;
      var t := r[LeadCount(r)..];
      assert t == r;
      assert TrailCount(t) == 0;
    }
  }

  predicate IsAsciiLower(c: char) { 'a' <= c <= 'z' }

  predicate IsAsciiUpper(c: char) { 'A' <= c <= 'Z' }

  /** A small ASCII letter becomes its capital, 32 code points lower; every other character stays. */
  function UpperChar(c: char): (d: char)
    ensures !IsAsciiLower(d)
    ensures IsAsciiLower(c) ==> IsAsciiUpper(d) && d as int == c as int - 32
    ensures !IsAsciiLower(c) ==> d == c
  {
    if IsAsciiLower(c) then (c as int - 32) as char else c
  }

  /** An ASCII capital becomes its small letter, 32 code points higher; every other character stays. */
  function LowerChar(c: char): (d: char)
    ensures !IsAsciiUpper(d)
    ensures IsAsciiUpper(c) ==> IsAsciiLower(d) && d as int == c as int + 32
    ensures !IsAsciiUpper(c) ==> d == c
  {
    if IsAsciiUpper(c) then (c as int + 32) as char else c
  }

  /** `s.upper()` on ASCII letters. */
  function Upper(s: string): (r: string)
    ensures |r| == |s|
    ensures forall k :: 0 <= k < |r| ==> !IsAsciiLower(r[k])
    ensures forall k {:trigger r[k]} :: 0 <= k < |s| && IsAsciiLower(s[k]) ==> r[k] as int == s[k] as int - 32
    ensures forall k {:trigger r[k]} :: 0 <= k < |s| && !IsAsciiLower(s[k]) ==> r[k] == s[k]
  {
    seq(|s|, k requires 0 <= k < |s| => UpperChar(s[k]))
  }

  /** `s.lower()` on ASCII letters. */
  function Lower(s: string): (r: string)
    ensures |r| == |s|
    ensures forall k :: 0 <= k < |r| ==> !IsAsciiUpper(r[k])
    ensures forall k {:trigger r[k]} :: 0 <= k < |s| && IsAsciiUpper(s[k]) ==> r[k] as int == s[k] as int + 32
    ensures forall k {:trigger r[k]} :: 0 <= k < |s| && !IsAsciiUpper(s[k]) ==> r[k] == s[k]
  {
    seq(|s|, k requires 0 <= k < |s| => LowerChar(s[k]))
  }

  /** Lower-casing after upper-casing is the same as lower-casing alone. */
  lemma LowerAfterUpper(s: string)
    ensures Lower(Upper(s)) == Lower(s)
  {
    assert forall k :: 0 <= k < |s| ==> Lower(Upper(s))[k] == Lower(s)[k];
  }

  /** `s.replace(" ", "")`. */
  function RemoveSpaces(s: string): (r: string)
    ensures ' ' !in r
    ensures |r| <= |s|
    ensures forall c :: c != ' ' ==> multiset(r)[c] == multiset(s)[c]
    ensures ' ' !in s ==> r == s
  {
    if s == [] then []
    else
      var rest := RemoveSpaces(s[1..]);
      assert s == [s[0]] + s[1..];
      if s[0] == ' ' then rest else [s[0]] + rest
  }

  /** Removing spaces distributes over concatenation. */
  lemma {:induction false} RemoveSpacesAppend(a: string, b: string)
    ensures RemoveSpaces(a + b) == RemoveSpaces(a) + RemoveSpaces(b)
    decreases |a|
  {
    if a != [] {
      assert (a + b)[1..] == a[1..] + b;
      RemoveSpacesAppend(a[1..], b);
    } else {
      assert a + b == b;
    }
  }

  /** `s.find(c)`: the first index of `c`, or -1. */
  function Find(s: string, c: char): (r: int)
    ensures -1 <= r < |s|
    ensures r == -1 <==> c !in s
    ensures r >= 0 ==> s[r] == c && c !in s[..r]
  {
    if s == [] then -1
    else if s[0] == c then 0
    else
      var k := Find(s[1..], c);
      assert s[1..][..if k < 0 then 0 else k] == s[1..if k < 0 then 1 else k + 1];
      if k < 0 then -1 else k + 1
  }

  /** `sep.join(ps)`. */
  function Join(ps: seq<string>, sep: string): string
  {
    if ps == [] then ""
    else if |ps| == 1 then ps[0]
    else ps[0] + sep + Join(ps[1..], sep)
  }

  /** `s.split(sep)` for a one-character separator: every piece, empty ones included. */
  function Split(s: string, sep: char): (r: seq<string>)
    ensures |r| >= 1
    ensures forall k :: 0 <= k < |r| ==> sep !in r[k]
    ensures Join(r, [sep]) == s
    decreases |s|
  {
    var i := Find(s, sep);
    if i < 0 then [s]
    else
      var rest := Split(s[i + 1..], sep);
      assert s == s[..i] + [sep] + s[i + 1..];
      [s[..i]] + rest
  }

  /** Splitting a joined list gives the list back when no piece holds the separator. */
  lemma {:induction false} SplitJoin(ps: seq<string>, sep: char)
    requires |ps| >= 1
    requires forall k :: 0 <= k < |ps| ==> sep !in ps[k]
    ensures Split(Join(ps, [sep]), sep) == ps
    decreases |ps|
  {
    if |ps| == 1 {
      assert Find(ps[0], sep) == -1;
    } else {
      var tail := Join(ps[1..], [sep]);
      assert Join(ps, [sep]) == ps[0] + [sep] + tail;
      SplitCons(ps[0], sep, tail);
      SplitJoin(ps[1..], sep);
      assert ps == [ps[0]] + ps[1..];
    }
  }

  /** The first piece of a split ends at the first separator. */
  lemma SplitCons(a: string, sep: char, b: string)
    requires sep !in a
    ensures Split(a + [sep] + b, sep) == [a] + Split(b, sep)
  {
    var s := a + [sep] + b;
    FindAfter(a, sep, b);
    assert s[..|a|] == a;
    assert s[|a| + 1..] == b;
  }

  lemma FindAfter(a: string, c: char, b: string)
    requires c !in a
    ensures Find(a + [c] + b, c) == |a|
  {
    var s := a + [c] + b;
    assert s[..|a|] == a;
    assert s[|a|] == c;
  }

  /** Python's `a < b` on `str`: code-point lexicographic order, a proper prefix being smaller. */
  predicate LexLess(a: string, b: string)
  {
    if a == [] then b != []
    else if b == [] then false
    else if a[0] != b[0] then a[0] < b[0]
    else LexLess(a[1..], b[1..])
  }

  lemma {:induction false} LexIrreflexive(a: string)
    ensures !LexLess(a, a)
    decreases |a|
  {
    if a != [] { LexIrreflexive(a[1..]); }
  }

  lemma {:induction false} LexTransitive(a: string, b: string, c: string)
    requires LexLess(a, b) && LexLess(b, c)
    ensures LexLess(a, c)
    decreases |a|
  {
    if a != [] && b != [] && c != [] && a[0] == b[0] && b[0] == c[0] {
      LexTransitive(a[1..], b[1..], c[1..]);
    }
  }

  lemma {:induction false} LexTotal(a: string, b: string)
    requires a != b
    ensures LexLess(a, b) || LexLess(b, a)
    decreases |a|
  {
    if a != [] && b != [] && a[0] == b[0] {
      assert a == [a[0]] + a[1..] && b == [b[0]] + b[1..];
      LexTotal(a[1..], b[1..]);
    }
  }

  lemma LexAsymmetric(a: string, b: string)
    requires LexLess(a, b)
    ensures !LexLess(b, a)
  {
    if LexLess(b, a) {
      LexTransitive(a, b, a);
      LexIrreflexive(a);
    }
  }

  /** `min(x)`: scans left to right and keeps the current value unless a later one is smaller. */
  function Min(x: seq<string>): (m: string)
    requires x != []
    ensures m in x
    ensures forall y :: y in x ==> !LexLess(y, m)
    decreases |x|
  {
    if |x| == 1 then
      LexIrreflexive(x[0]);
      x[0]
    else
      var init := x[..|x| - 1];
      var last := x[|x| - 1];
      var m := Min(init);
      assert x == init + [last];
      if LexLess(last, m) then
        MinStep(init, m, last);
        last
      else
        LexIrreflexive(last);
        m
  }

  lemma MinStep(init: seq<string>, m: string, last: string)
    requires forall y :: y in init ==> !LexLess(y, m)
    requires LexLess(last, m)
    ensures forall y :: y in init + [last] ==> !LexLess(y, last)
  {
    forall y | y in init + [last]
      ensures !LexLess(y, last)
    {
      if y == last {
        LexIrreflexive(last);
      } else if LexLess(y, last) {
        LexTransitive(y, last, m);
      }
    }
  }

  /** The least element is the only value of `x` that no value of `x` is below. */
  lemma MinUnique(x: seq<string>, v: string)
    requires v in x
    requires forall y :: y in x ==> !LexLess(y, v)
    ensures v == Min(x)
  {
    var m := Min(x);
    if v != m {
      LexTotal(v, m);
    }
  }

  /** Strictly increasing in the lexicographic order, hence free of repeats. */
  ghost predicate StrictlySorted(s: seq<string>) {
    forall i, j :: 0 <= i < j < |s| ==> LexLess(s[i], s[j])
  }

  ghost predicate Distinct<T>(s: seq<T>) {
    forall i, j :: 0 <= i < j < |s| ==> s[i] != s[j]
  }

  lemma SortedIsDistinct(s: seq<string>)
    requires StrictlySorted(s)
    ensures Distinct(s)
  {
    forall i, j | 0 <= i < j < |s|
      ensures s[i] != s[j]
    {
      if s[i] == s[j] { LexIrreflexive(s[i]); }
    }
  }

  /** Inserts `v` into a strictly increasing list unless it is already there. */
  function Insert(s: seq<string>, v: string): (r: seq<string>)
    requires StrictlySorted(s)
    ensures StrictlySorted(r)
    ensures forall w :: w in r <==> w in s || w == v
    decreases |s|
  {
    if s == [] then [v]
    else if s[0] == v then s
    else if LexLess(v, s[0]) then
      InsertFront(s, v);
      [v] + s
    else
      LexTotal(v, s[0]);
      var rest := Insert(s[1..], v);
      InsertBehind(s, v, rest);
      [s[0]] + rest
  }

  lemma InsertFront(s: seq<string>, v: string)
    requires StrictlySorted(s) && s != [] && LexLess(v, s[0])
    ensures StrictlySorted([v] + s)
  {
    var t := [v] + s;
    forall i, j | 0 <= i < j < |t|
      ensures LexLess(t[i], t[j])
    {
      if i == 0 && j > 1 { LexTransitive(v, s[0], s[j - 1]); }
    }
  }

  lemma InsertBehind(s: seq<string>, v: string, rest: seq<string>)
    requires StrictlySorted(s) && s != [] && LexLess(s[0], v)
    requires StrictlySorted(rest)
    requires forall w :: w in rest <==> w in s[1..] || w == v
    ensures StrictlySorted([s[0]] + rest)
  {
    var t := [s[0]] + rest;
    forall i, j | 0 <= i < j < |t|
      ensures LexLess(t[i], t[j])
    {
      if i == 0 {
        assert t[j] in rest;
        if t[j] != v {
          var k :| 0 <= k < |s[1..]| && s[1..][k] == t[j];
          assert s[k + 1] == t[j];
        }
      }
    }
  }

  /**
   * `sorted(pd.Series(x).value_counts().index)`: the distinct values of `x`
   * in increasing order.
   */
  function SortedDistinct(x: seq<string>): (r: seq<string>)
    ensures StrictlySorted(r)
    ensures forall w :: w in r <==> w in x
    ensures |r| <= |x|
    ensures x != [] ==> r != []
    decreases |x|
  {
    if x == [] then []
    else
      var init := x[..|x| - 1];
      assert x == init + [x[|x| - 1]];
      var r := Insert(SortedDistinct(init), x[|x| - 1]);
      SortedDistinctBound(init, x[|x| - 1], SortedDistinct(init));
      r
  }

  lemma SortedDistinctBound(init: seq<string>, v: string, s: seq<string>)
    requires StrictlySorted(s) && |s| <= |init|
    ensures |Insert(s, v)| <= |init| + 1
    decreases |s|
  {
    InsertLength(s, v);
  }

  lemma {:induction false} InsertLength(s: seq<string>, v: string)
    requires StrictlySorted(s)
    ensures |Insert(s, v)| <= |s| + 1
    decreases |s|
  {
    if s != [] && s[0] != v && !LexLess(v, s[0]) {
      InsertLength(s[1..], v);
    }
  }

  /** The number of distinct values is the size of the set of values. */
  lemma DistinctCount(x: seq<string>)
    ensures |SortedDistinct(x)| == |set v | v in x|
  {
    var r := SortedDistinct(x);
    SortedIsDistinct(r);
    DistinctCardinality(r);
    assert (set v | v in r) == (set v | v in x);
  }

  lemma {:induction false} DistinctCardinality(s: seq<string>)
    requires Distinct(s)
    ensures |set v | v in s| == |s|
    decreases |s|
  {
    if s != [] {
      var tail := s[1..];
      assert Distinct(tail);
      DistinctCardinality(tail);
      assert (set v | v in s) == {s[0]} + (set v | v in tail);
      assert forall k :: 0 <= k < |tail| ==> tail[k] == s[k + 1];
      assert s[0] !in tail;
    }
  }

  /** Two strictly increasing lists holding the same values are equal. */
  lemma {:induction false} SortedUnique(a: seq<string>, b: seq<string>)
    requires StrictlySorted(a) && StrictlySorted(b)
    requires forall w :: w in a <==> w in b
    ensures a == b
    decreases |a|
  {
    assert a != [] ==> a[0] in b;
    assert b != [] ==> b[0] in a;
    if a != [] && b != [] {
      HeadIsLeast(a);
      HeadIsLeast(b);
      if a[0] != b[0] {
        LexAsymmetric(a[0], b[0]);
      }
      assert a[0] == b[0];
      HeadNotInTail(a);
      HeadNotInTail(b);
      assert a == [a[0]] + a[1..] && b == [b[0]] + b[1..];
      forall w
        ensures w in a[1..] <==> w in b[1..]
      {
        assert w in a <==> w == a[0] || w in a[1..];
        assert w in b <==> w == b[0] || w in b[1..];
      }
      SortedUnique(a[1..], b[1..]);
      assert a == [a[0]] + a[1..] && b == [b[0]] + b[1..];
    }
  }

  lemma HeadIsLeast(s: seq<string>)
    requires StrictlySorted(s) && s != []
    ensures forall w :: w in s ==> w == s[0] || LexLess(s[0], w)
  {
  }

  lemma HeadNotInTail(s: seq<string>)
    requires StrictlySorted(s) && s != []
    ensures s[0] !in s[1..]
  {
    if s[0] in s[1..] {
      var k :| 0 <= k < |s[1..]| && s[1..][k] == s[0];
      assert s[k + 1] == s[0];
      LexIrreflexive(s[0]);
    }
  }

  /** Index of the first occurrence of `v`. */
  function IndexOf(s: seq<string>, v: string): (k: nat)
    requires v in s
    ensures k < |s| && s[k] == v && v !in s[..k]
  {
    if s[0] == v then 0
    else
      var k := IndexOf(s[1..], v);
      assert s[..k + 1] == [s[0]] + s[1..][..k];
      k + 1
  }

  /** `list.remove(v)` on a list known to hold `v`: drops its first occurrence. */
  function RemoveFirst(s: seq<string>, v: string): (r: seq<string>)
    requires v in s
    ensures |r| == |s| - 1
    ensures forall w :: w in r ==> w in s
    ensures exists k :: 0 <= k < |s| && s[k] == v && v !in s[..k] && r == s[..k] + s[k + 1..]
  {
    var k := IndexOf(s, v);
    s[..k] + s[k + 1..]
  }

  /** `remove` takes away exactly one copy of `v`. */
  lemma RemoveFirstCount(s: seq<string>, v: string)
    requires v in s
    ensures multiset(RemoveFirst(s, v)) == multiset(s) - multiset{v}
  {
    var k := IndexOf(s, v);
    assert s == s[..k] + [v] + s[k + 1..];
  }
}
