/**
 * Treatment (baseline) coding of one independent variable and the assembly of
 * the design matrix, as `recode` and `make_X` do it in demoReg/DesignMatrix.py
 * and in DesignMatrix.py. The two files differ only in what happens to a
 * requested baseline that the data do not contain: demoReg falls back to the
 * smallest level after a notice (Policy Fallback); DesignMatrix.py lets
 * `list.remove` raise (Policy NoFallback).
 */
module Treatment {
  import opened Outcomes
  import opened PyText
  import opened Frame

  /** The three text switches: `strip`, `toupper`, `tolower`. */
  datatype Flags = Flags(strip: bool, toupper: bool, tolower: bool)

  /** One cell through strip, then upper, then lower, each only if its switch is on. */
  function NormaliseCell(s: string, f: Flags): string {
    var a := if f.strip then Strip(s) else s;
    var b := if f.toupper then Upper(a) else a;
    if f.tolower then Lower(b) else b
  }

  /** The three conditional list comprehensions over a text column. */
  function Normalise(cells: seq<string>, f: Flags): (x: seq<string>)
    ensures |x| == |cells|
    ensures forall i {:trigger NormaliseCell(cells[i], f)} :: 0 <= i < |cells| ==> x[i] == NormaliseCell(cells[i], f)
  {
    seq(|cells|, i requires 0 <= i < |cells| => NormaliseCell(cells[i], f))
  }

  /** With both case switches on, upper-casing has no visible effect. */
  lemma BothCaseSwitches(s: string, f: Flags)
    requires f.toupper && f.tolower
    ensures NormaliseCell(s, f) == Lower(if f.strip then Strip(s) else s)
  {
    LowerAfterUpper(if f.strip then Strip(s) else s);
  }

  /** With `tolower` on, no normalised cell holds an ASCII capital; with only `toupper` on, none holds a small letter. */
  lemma NormalisedCase(cells: seq<string>, f: Flags)
    ensures f.tolower ==> forall i, k :: 0 <= i < |cells| && 0 <= k < |Normalise(cells, f)[i]| ==> !IsAsciiUpper(Normalise(cells, f)[i][k])
    ensures f.toupper && !f.tolower ==> forall i, k :: 0 <= i < |cells| && 0 <= k < |Normalise(cells, f)[i]| ==> !IsAsciiLower(Normalise(cells, f)[i][k])
  {
  }

  // ---------------------------------------------------------------------
  // Matrices

  /** A numpy 2-d array: its shape and its rows. */
  datatype Matrix = Matrix(rows: nat, cols: nat, cells: seq<seq<real>>)

  ghost predicate Shaped(m: Matrix) {
    |m.cells| == m.rows && forall r :: 0 <= r < m.rows ==> |m.cells[r]| == m.cols
  }

  /** `np.ones((n, 1))`: the intercept column. */
  function Ones(n: nat): (m: Matrix)
    ensures Shaped(m) && m.rows == n && m.cols == 1
    ensures forall r :: 0 <= r < n ==> m.cells[r][0] == 1.0
  {
    Matrix(n, 1, seq(n, r => [1.0]))
  }

  /** `np.concatenate((a, b), 1)`: `b`'s columns placed to the right of `a`'s. */
  function HConcat(a: Matrix, b: Matrix): (m: Matrix)
    requires Shaped(a) && Shaped(b) && a.rows == b.rows
    ensures Shaped(m) && m.rows == a.rows && m.cols == a.cols + b.cols
    ensures forall r, c :: 0 <= r < a.rows && 0 <= c < a.cols ==> m.cells[r][c] == a.cells[r][c]
    ensures forall r, c :: 0 <= r < a.rows && 0 <= c < b.cols ==> m.cells[r][a.cols + c] == b.cells[r][c]
  {
    Matrix(a.rows, a.cols + b.cols, seq(a.rows, r requires 0 <= r < a.rows => a.cells[r] + b.cells[r]))
  }

  /** `.as_matrix().reshape(nrow, 1)`: one column holding the values in row order. */
  function ColumnOf(v: seq<real>): (m: Matrix)
    ensures Shaped(m) && m.rows == |v| && m.cols == 1
    ensures forall r :: 0 <= r < |v| ==> m.cells[r][0] == v[r]
  {
    Matrix(|v|, 1, seq(|v|, r requires 0 <= r < |v| => [v[r]]))
  }

  /** `.astype(float)`: each integer becomes the real of the same value. */
  function Widen(v: seq<int>): (w: seq<real>)
    ensures |w| == |v|
    ensures forall r {:trigger w[r]} :: 0 <= r < |v| ==> w[r] == v[r] as real
  {
    seq(|v|, r requires 0 <= r < |v| => v[r] as real)
  }

  /** `int(v == level)`, as a float cell. */
  function Ind(v: string, level: string): real {
    if v == level then 1.0 else 0.0
  }

  // ---------------------------------------------------------------------
  // Levels and indicator blocks

  /** `temp = names.copy(); temp.remove(baseline)` on the sorted distinct values. */
  function Levels(names: seq<string>, b: string): (lv: seq<string>)
    requires StrictlySorted(names) && b in names
    ensures |lv| == |names| - 1
    ensures StrictlySorted(lv)
    ensures b !in lv
    ensures forall w :: w in lv <==> w in names && w != b
    ensures forall c :: 0 <= c < |lv| ==> lv[c] == names[if c < IndexOf(names, b) then c else c + 1]
  {
    var k := IndexOf(names, b);
    var lv := RemoveFirst(names, b);
    assert forall c :: 0 <= c < |lv| ==> lv[c] == names[if c < k then c else c + 1];
    SortedIsDistinct(names);
    assert forall w :: w in lv <==> w in names && w != b by {
      forall w
        ensures w in lv <==> w in names && w != b
      {
        if w in names && w != b {
          var j :| 0 <= j < |names| && names[j] == w;
          assert j != k;
          assert lv[if j < k then j else j - 1] == w;
        }
      }
    }
    lv
  }

  /** Which sorted level the literal loop leaves in column `c` when the baseline sits at index `bi`. */
  function LiteralSource(bi: nat, c: nat): nat {
    if c + 1 < bi then c else c + 1
  }

  /**
   * What lines 147-154 leave in their array: column `c` is the indicator of
   * `names[LiteralSource(bi, c)]`. Because the bare `next` does not skip the
   * baseline, its indicator lands in column `bi - 1` when `bi > 0`.
   */
  function LiteralBlock(x: seq<string>, names: seq<string>, bi: nat): (m: Matrix)
    requires 1 <= |names| && bi < |names|
    ensures Shaped(m) && m.rows == |x| && m.cols == |names| - 1
  {
    Matrix(|x|, |names| - 1,
      seq(|x|, r requires 0 <= r < |x| =>
        seq(|names| - 1, c requires 0 <= c < |names| - 1 => Ind(x[r], names[LiteralSource(bi, c)]))))
  }

  /** The intended treatment coding: column `c` indicates `levels[c]`. */
  function IndicatorBlock(x: seq<string>, levels: seq<string>): (m: Matrix)
    ensures Shaped(m) && m.rows == |x| && m.cols == |levels|
  {
    Matrix(|x|, |levels|,
      seq(|x|, r requires 0 <= r < |x| =>
        seq(|levels|, c requires 0 <= c < |levels| => Ind(x[r], levels[c]))))
  }

  /** Treatment coding: a baseline row is all zeros; any other row has its single 1 in its own level's column. */
  lemma TreatmentRows(x: seq<string>, names: seq<string>, b: string)
    requires StrictlySorted(names) && b in names
    requires forall r :: 0 <= r < |x| ==> x[r] in names
    ensures forall r, c :: 0 <= r < |x| && x[r] == b && 0 <= c < |Levels(names, b)| ==>
              IndicatorBlock(x, Levels(names, b)).cells[r][c] == 0.0
    ensures forall r :: 0 <= r < |x| && x[r] != b ==> x[r] in Levels(names, b)
    ensures forall r, c :: 0 <= r < |x| && x[r] != b && 0 <= c < |Levels(names, b)| ==>
              (IndicatorBlock(x, Levels(names, b)).cells[r][c] == 1.0 <==> c == IndexOf(Levels(names, b), x[r]))
  {
    var lv := Levels(names, b);
    SortedIsDistinct(lv);
  }

  /** When the baseline is the smallest level, the literal loop produces the intended coding. */
  lemma LiteralAtSmallest(x: seq<string>, names: seq<string>)
    requires StrictlySorted(names) && |names| >= 2
    ensures LiteralBlock(x, names, 0) == IndicatorBlock(x, Levels(names, names[0]))
  {
    var lit := LiteralBlock(x, names, 0);
    var ind := IndicatorBlock(x, Levels(names, names[0]));
    assert IndexOf(names, names[0]) == 0;
    forall r | 0 <= r < |x|
      ensures lit.cells[r] == ind.cells[r]
    {
    }
  }

  /**
   * With the baseline at sorted index `bi > 0`, column `bi - 1` holds the
   * baseline's indicator instead of that of `names[bi - 1]`; every other
   * column is as intended.
   */
  lemma LiteralMisplaces(x: seq<string>, names: seq<string>, bi: nat)
    requires StrictlySorted(names) && 0 < bi < |names|
    ensures forall r :: 0 <= r < |x| ==> LiteralBlock(x, names, bi).cells[r][bi - 1] == Ind(x[r], names[bi])
    ensures forall r, c :: 0 <= r < |x| && 0 <= c < |names| - 1 && c != bi - 1 ==>
              LiteralBlock(x, names, bi).cells[r][c] == IndicatorBlock(x, Levels(names, names[bi])).cells[r][c]
  {
    SortedIsDistinct(names);
    assert IndexOf(names, names[bi]) == bi;
  }

  /** When every level occurs in the data, the literal loop is right exactly when the baseline is the smallest level. */
  lemma LiteralCorrectIffSmallest(x: seq<string>, names: seq<string>, bi: nat)
    requires StrictlySorted(names) && |names| >= 2 && bi < |names|
    requires forall w :: w in names ==> w in x
    ensures LiteralBlock(x, names, bi) == IndicatorBlock(x, Levels(names, names[bi])) <==> bi == 0
  {
    if bi == 0 {
      LiteralAtSmallest(x, names);
    } else {
      LiteralMisplaces(x, names, bi);
      SortedIsDistinct(names);
      assert names[bi] in x;
      var r :| 0 <= r < |x| && x[r] == names[bi];
      assert IndexOf(names, names[bi]) == bi;
      assert Levels(names, names[bi])[bi - 1] == names[bi - 1];
      assert LiteralBlock(x, names, bi).cells[r][bi - 1] == 1.0;
      assert IndicatorBlock(x, Levels(names, names[bi])).cells[r][bi - 1] == 0.0;
    }
  }

  // ---------------------------------------------------------------------
  // The indicator loop (lines 147-154 of demoReg/DesignMatrix.py, 63-70 of DesignMatrix.py)

  datatype RecodeError =
    | EmptyMin          // ValueError: min() of an empty list
    | NotInList         // ValueError: list.remove(x): x not in list
    | IndexOutOfBounds  // IndexError: X[:, -1] on a zero-width array

  /** The column the loop writes at step `k`: `k + offset`, with Python's `-1` meaning the last column. */
  function ColOf(bi: nat, n: nat, k: nat): int {
    if k < bi then k else if k == 0 then n - 2 else k - 1
  }

  /** The last step before `i` that wrote column `c`, or -1. */
  ghost function LastWriter(bi: nat, n: nat, i: nat, c: nat): (w: int)
    ensures -1 <= w < i
  {
    if c + 1 >= bi && c + 1 < i then c + 1
    else if c < bi && c < i then c
    else if bi == 0 && c + 2 == n && i > 0 then 0
    else -1
  }

  lemma LastWriterStep(bi: nat, n: nat, i: nat)
    requires bi < n && i < n && n >= 2
    ensures 0 <= ColOf(bi, n, i) < n - 1
    ensures forall c :: 0 <= c < n - 1 ==>
              LastWriter(bi, n, i + 1, c) == (if c == ColOf(bi, n, i) then i else LastWriter(bi, n, i, c))
  {
    forall c | 0 <= c < n - 1
      ensures LastWriter(bi, n, i + 1, c) == (if c == ColOf(bi, n, i) then i else LastWriter(bi, n, i, c))
    {
      if i < bi {
        assert ColOf(bi, n, i) == i;
      } else if i == 0 {
        assert ColOf(bi, n, i) == n - 2;
      } else {
        assert ColOf(bi, n, i) == i - 1;
      }
    }
  }

  /**
   * The loop itself over a preallocated `nrow x (n - 1)` array. `offset`
   * becomes -1 at the baseline and the bare `next` does nothing, so the
   * baseline's indicator is written too; a one-level factor makes the write
   * `X[:, -1]` fail.
   */
  method FillIndicators(x: seq<string>, names: seq<string>, baseline: string) returns (r: Result<Matrix, RecodeError>)
    requires Distinct(names)
    requires baseline in names
    ensures r.Failure? <==> |names| == 1
    ensures r.Failure? ==> r.error == IndexOutOfBounds
    ensures r.Success? ==> r.value == LiteralBlock(x, names, IndexOf(names, baseline))
  {
    var n := |names|;
    var nrow := |x|;
    var width := n - 1;
    ghost var bi := IndexOf(names, baseline);
    // np.full(..., np.nan): every cell is written before the array is returned
    var X := new real[nrow, width];
    var offset := 0;
    for i := 0 to n
      invariant offset == (if bi < i then -1 else 0)
      invariant n >= 2 || i == 0
      invariant forall row, c :: 0 <= row < nrow && 0 <= c < width && 0 <= LastWriter(bi, n, i, c) ==>
                  X[row, c] == Ind(x[row], names[LastWriter(bi, n, i, c)])
    {
      if names[i] == baseline {
        offset := -1;
      }
      var col := i + offset;
      if col < 0 {
        if width == 0 {
          return Failure(IndexOutOfBounds);
        }
        col := col + width;
      }
      LastWriterStep(bi, n, i);
      assert col == ColOf(bi, n, i);
      forall row | 0 <= row < nrow {
        X[row, col] := Ind(x[row], names[i]);
      }
    }
    var cells := seq(nrow, row requires 0 <= row < nrow reads X =>
                   seq(width, c requires 0 <= c < width reads X => X[row, c]));
    var lit := LiteralBlock(x, names, bi);
    forall row | 0 <= row < nrow
      ensures cells[row] == lit.cells[row]
    {
      assert forall c :: 0 <= c < width ==> LastWriter(bi, n, n, c) == LiteralSource(bi, c);
    }
    r := Success(Matrix(nrow, width, cells));
  }

  // ---------------------------------------------------------------------
  // One call of `recode` and the whole of `make_X`, as functions of the state

  /** demoReg/DesignMatrix.py replaces a missing override by the minimum; DesignMatrix.py does not. */
  datatype Policy = Fallback | NoFallback

  /** The two lines printed when an override is absent from the data (lines 137-140). */
  function MissingNotice(b: string, v: string): string {
    "Baseline '" + b + "' is not in '" + v + "'."
  }

  function UsingNotice(m: string): string {
    "Using '" + m + "' instead."
  }

  /** What one call of `recode` returns or raises, what it leaves in `baselines` and `levels`, and what it prints. */
  datatype Step = Step(block: Result<Matrix, RecodeError>, baselines: map<string, string>,
                       levels: map<string, seq<string>>, printed: seq<string>)

  /** The baseline a successful `recode` settles on: a usable existing entry, else the minimum. */
  function ChosenBaseline(baselines: map<string, string>, v: string, x: seq<string>): string
    requires x != []
  {
    if v in baselines && baselines[v] in x then baselines[v] else Min(x)
  }

  /** Lines 142-154 once the baseline `b` is fixed: `names`, `levels[var]`, and the filled block. */
  function Encode(v: string, x: seq<string>, b: string, baselines: map<string, string>,
                  levels: map<string, seq<string>>, printed: seq<string>): (st: Step)
    ensures st.baselines == baselines && st.printed == printed
    ensures b !in x ==> st == Step(Failure(NotInList), baselines, levels, printed)
    ensures b in x ==> st.levels == levels[v := Levels(SortedDistinct(x), b)]
    ensures st.block.Success? <==> b in x && |SortedDistinct(x)| >= 2
    ensures st.block.Success? ==> st.block.value == LiteralBlock(x, SortedDistinct(x), IndexOf(SortedDistinct(x), b))
  {
    var names := SortedDistinct(x);
    if b !in names then Step(Failure(NotInList), baselines, levels, printed)
    else
      var lv := levels[v := Levels(names, b)];
      if |names| == 1 then Step(Failure(IndexOutOfBounds), baselines, lv, printed)
      else Step(Success(LiteralBlock(x, names, IndexOf(names, b))), baselines, lv, printed)
  }

  /**
   * Lines 137-142 when the baseline falls back to the minimum: `min` raises on
   * an empty column, else the minimum becomes the baseline; `notice` is what
   * was printed before, and `announce` says whether "Using ..." follows it.
   */
  function MinStep(v: string, x: seq<string>, baselines: map<string, string>,
                   levels: map<string, seq<string>>, notice: seq<string>, announce: bool): (st: Step)
    ensures x == [] ==> st == Step(Failure(EmptyMin), baselines, levels, notice)
    ensures x != [] ==> st.baselines == baselines[v := Min(x)]
                        && st.printed == notice + (if announce then [UsingNotice(Min(x))] else [])
                        && st.levels == levels[v := Levels(SortedDistinct(x), Min(x))]
    ensures st.block.Success? <==> |SortedDistinct(x)| >= 2
    ensures st.block == Failure(IndexOutOfBounds) <==> |SortedDistinct(x)| == 1
    ensures st.block.Success? ==>
              st.block.value == LiteralBlock(x, SortedDistinct(x), IndexOf(SortedDistinct(x), Min(x)))
  {
    if x == [] then Step(Failure(EmptyMin), baselines, levels, notice)
    else
      var m := Min(x);
      assert m in SortedDistinct(x);
      Encode(v, x, m, baselines[v := m], levels, notice + (if announce then [UsingNotice(m)] else []))
  }

  /** `recode` of a text column whose normalised cells are `x` (lines 134-154). */
  function TextStep(v: string, x: seq<string>, policy: Policy, baselines: map<string, string>,
                    levels: map<string, seq<string>>): (st: Step)
    ensures st.block.Success? ==> Shaped(st.block.value) && st.block.value.rows == |x|
                                  && st.block.value.cols == |SortedDistinct(x)| - 1
  {
    if v !in baselines then MinStep(v, x, baselines, levels, [], false)
    else if policy.Fallback? && baselines[v] !in x then
      MinStep(v, x, baselines, levels, [MissingNotice(baselines[v], v)], true)
    else
      Encode(v, x, baselines[v], baselines, levels, [])
  }

  /** When `recode` of a text column returns, and what it returns and leaves behind. */
  lemma TextStepSuccess(v: string, x: seq<string>, policy: Policy, baselines: map<string, string>,
                        levels: map<string, seq<string>>)
    ensures var st := TextStep(v, x, policy, baselines, levels);
            (st.block.Success? <==>
               |SortedDistinct(x)| >= 2 && !(policy.NoFallback? && v in baselines && baselines[v] !in x))
            && (st.block.Success? ==> x != [] && v in st.baselines && st.baselines[v] in x)
            && (st.block.Success? ==> st.baselines == baselines[v := ChosenBaseline(baselines, v, x)])
            && (st.block.Success? ==> st.levels == levels[v := Levels(SortedDistinct(x), st.baselines[v])])
            && (st.block.Success? ==>
                  st.block.value == LiteralBlock(x, SortedDistinct(x), IndexOf(SortedDistinct(x), st.baselines[v])))
  {
    if v in baselines && !(policy.Fallback? && baselines[v] !in x) {
      assert baselines[v := baselines[v]] == baselines;
      if x == [] {
        assert baselines[v] !in SortedDistinct(x);
      }
    }
  }

  /** Which exception a text column's `recode` raises, and what it leaves in `baselines`. */
  lemma TextStepFailure(v: string, x: seq<string>, policy: Policy, baselines: map<string, string>,
                        levels: map<string, seq<string>>)
    ensures var st := TextStep(v, x, policy, baselines, levels);
            (st.block == Failure(EmptyMin) <==> x == [] && (v !in baselines || policy.Fallback?))
            && (st.block == Failure(IndexOutOfBounds) <==>
                  |SortedDistinct(x)| == 1 && !(policy.NoFallback? && v in baselines && baselines[v] !in x))
            && (st.block.Failure? ==> st.baselines == baselines || (x != [] && st.baselines == baselines[v := Min(x)]))
  {
    if v in baselines && !(policy.Fallback? && baselines[v] !in x) && x == [] {
      assert baselines[v] !in SortedDistinct(x);
    }
  }

  /** What a text column's `recode` prints: the two notices, only when an override is absent under `Fallback`. */
  lemma TextStepPrinted(v: string, x: seq<string>, policy: Policy, baselines: map<string, string>,
                        levels: map<string, seq<string>>)
    ensures var st := TextStep(v, x, policy, baselines, levels);
            (|st.printed| > 0 <==> policy.Fallback? && v in baselines && baselines[v] !in x)
            && (|st.printed| > 0 ==> st.printed[0] == MissingNotice(baselines[v], v))
            && (|st.printed| > 0 && x != [] ==> st.printed == [MissingNotice(baselines[v], v), UsingNotice(Min(x))])
            && (|st.printed| > 0 && x == [] ==> |st.printed| == 1)
  {
  }

  predicate IsTextIV(data: Table, v: string) {
    v in data.columns && data.columns[v].TextCol?
  }

  /** The normalised cells of a text column. */
  function Cells(data: Table, v: string, f: Flags): seq<string>
    requires IsTextIV(data, v)
  {
    Normalise(data.columns[v].texts, f)
  }

  /** `recode(var)` by the column's kind (lines 120-154 of demoReg/DesignMatrix.py, 42-70 of DesignMatrix.py). */
  function RecodeSpec(data: Table, v: string, f: Flags, policy: Policy,
                      baselines: map<string, string>, levels: map<string, seq<string>>): (st: Step)
    requires data.Valid() && v in data.columns
    ensures st.block.Success? ==> Shaped(st.block.value) && st.block.value.rows == data.nrow
    ensures !IsTextIV(data, v) ==> st == Step(st.block, baselines, levels, []) && st.block.Success?
                                   && st.block.value.cols == 1
    ensures data.columns[v].FloatCol? ==>
              forall r :: 0 <= r < data.nrow ==> st.block.value.cells[r] == [data.columns[v].floats[r]]
    ensures data.columns[v].IntCol? ==>
              forall r :: 0 <= r < data.nrow ==> st.block.value.cells[r] == [data.columns[v].ints[r] as real]
  {
    match data.columns[v]
    case FloatCol(c) => Step(Success(ColumnOf(c)), baselines, levels, [])
    case IntCol(c) => Step(Success(ColumnOf(Widen(c))), baselines, levels, [])
    case TextCol(c) => TextStep(v, Normalise(c, f), policy, baselines, levels)
  }

  /** The state `make_X` leaves: X as far as it got, the two maps, the printed lines, and the exception if one escaped. */
  datatype Build = Build(X: Matrix, baselines: map<string, string>, levels: map<string, seq<string>>,
                         printed: seq<string>, error: Option<RecodeError>)

  ghost predicate ColumnsKnown(data: Table, ivs: seq<string>) {
    forall i :: 0 <= i < |ivs| ==> ivs[i] in data.columns
  }

  /** The number of columns one IV contributes: 1 if numeric, one fewer than its distinct values if text. */
  function Contribution(data: Table, v: string, f: Flags): nat
    requires v in data.columns
  {
    if IsTextIV(data, v) then
      var n := |SortedDistinct(Cells(data, v, f))|;
      if n == 0 then 0 else n - 1
    else 1
  }

  /** 1 for the intercept plus each IV's contribution. */
  function Width(data: Table, ivs: seq<string>, f: Flags): nat
    requires ColumnsKnown(data, ivs)
    decreases |ivs|
  {
    if ivs == [] then 1
    else Width(data, ivs[..|ivs| - 1], f) + Contribution(data, ivs[|ivs| - 1], f)
  }

  /**
   * `make_X` over the IVs `ivs` starting from `custom_baselines = custom`
   * (lines 156-162 of demoReg/DesignMatrix.py, 72-78 of DesignMatrix.py):
   * `levels` starts empty, X starts as the ones column, and each IV's block is
   * appended in turn until one raises.
   */
  function MakeXSpec(data: Table, ivs: seq<string>, f: Flags, policy: Policy, custom: map<string, string>): (b: Build)
    requires data.Valid() && ColumnsKnown(data, ivs)
    ensures Shaped(b.X) && b.X.rows == data.nrow && b.X.cols >= 1
    ensures forall r :: 0 <= r < data.nrow ==> b.X.cells[r][0] == 1.0
    ensures b.error.None? ==> b.X.cols == Width(data, ivs, f)
    decreases |ivs|
  {
    if ivs == [] then Build(Ones(data.nrow), custom, map[], [], None)
    else
      var prev := MakeXSpec(data, ivs[..|ivs| - 1], f, policy, custom);
      if prev.error.Some? then prev
      else
        var st := RecodeSpec(data, ivs[|ivs| - 1], f, policy, prev.baselines, prev.levels);
        match st.block
        case Failure(e) => Build(prev.X, st.baselines, st.levels, prev.printed + st.printed, Some(e))
        case Success(m) => Build(HConcat(prev.X, m), st.baselines, st.levels, prev.printed + st.printed, None)
  }
}
