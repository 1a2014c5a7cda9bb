/**
 * The class `Reg` of Reg.py, reduced to its string and integer parts: the
 * constructor's type checks and parse, the setters, `make_X` through its
 * DesignMatrix, and from `fit` the coefficient names and `df`.
 */
module Regression {
  import opened Outcomes
  import opened PyText
  import opened Frame
  import opened Formula
  import opened Treatment
  import opened Settings
  import opened BuildFacts
  import opened RegDesign

  /** What the constructor raises. */
  datatype InitError =
    | FormulaNotStr             // TypeError "'formula' must be a 'str'"
    | DataNotFrame              // TypeError "'data' must be a pandas 'DataFrame'"
    | ParseFailed(e: ParseError)

  /** The names one IV contributes: its levels prefixed by `iv.` if it is a factor, else its own name. */
  function IVNames(iv: string, levels: map<string, seq<string>>): (names: seq<string>)
    ensures iv in levels ==> |names| == |levels[iv]|
    ensures iv in levels ==> forall k {:trigger names[k]} :: 0 <= k < |names| ==> names[k] == iv + "." + levels[iv][k]
    ensures iv !in levels ==> names == [iv]
  {
    if iv in levels then seq(|levels[iv]|, k requires 0 <= k < |levels[iv]| => iv + "." + levels[iv][k]) else [iv]
  }

  /** `bnames` after the loop of lines 126-132. */
  function CoefNames(ivs: seq<string>, levels: map<string, seq<string>>): (names: seq<string>)
    ensures |names| >= 1 && names[0] == "Intercept"
    decreases |ivs|
  {
    if ivs == [] then ["Intercept"] else CoefNames(ivs[..|ivs| - 1], levels) + IVNames(ivs[|ivs| - 1], levels)
  }

  /** The loop of lines 126-132. */
  method CoefficientNames(ivs: seq<string>, levels: map<string, seq<string>>) returns (bnames: seq<string>)
    ensures bnames == CoefNames(ivs, levels)
  {
    bnames := ["Intercept"];
    for i := 0 to |ivs|
      invariant bnames == CoefNames(ivs[..i], levels)
    {
      assert ivs[..i + 1][..i] == ivs[..i];
      var iv := ivs[i];
      if iv in levels {
        var lv := levels[iv];
        bnames := bnames + seq(|lv|, k requires 0 <= k < |lv| => iv + "." + lv[k]);
      } else {
        bnames := bnames + [iv];
      }
    }
    assert ivs[..|ivs|] == ivs;
  }

  /** After a successful `make_X` there is one coefficient name per column of X. */
  lemma {:induction false} CoefCount(data: Table, ivs: seq<string>, f: Flags, policy: Policy, custom: map<string, string>)
    requires data.Valid() && ColumnsKnown(data, ivs)
    requires MakeXSpec(data, ivs, f, policy, custom).error.None?
    ensures |CoefNames(ivs, MakeXSpec(data, ivs, f, policy, custom).levels)| == MakeXSpec(data, ivs, f, policy, custom).X.cols
  {
    var b := MakeXSpec(data, ivs, f, policy, custom);
    BuildOutcome(data, ivs, f, policy, custom);
    BuildSucceedsIff(data, ivs, f, policy, custom);
    CoefCountPrefix(data, ivs, |ivs|, f, policy, custom, b.baselines, b.levels);
    assert ivs[..|ivs|] == ivs;
  }

  lemma {:induction false} CoefCountPrefix(data: Table, ivs: seq<string>, i: nat, f: Flags, policy: Policy,
                                           custom: map<string, string>, baselines: map<string, string>,
                                           levels: map<string, seq<string>>)
    requires data.Valid() && ColumnsKnown(data, ivs) && i <= |ivs|
    requires Outcome(data, ivs, f, custom, baselines, levels) && Codable(data, ivs, f, policy, custom)
    ensures ColumnsKnown(data, ivs[..i])
    ensures |CoefNames(ivs[..i], levels)| == Width(data, ivs[..i], f)
    decreases i
  {
    if i > 0 {
      var v := ivs[i - 1];
      assert ivs[..i][..i - 1] == ivs[..i - 1];
      assert ivs[..i][i - 1] == v;
      CoefCountPrefix(data, ivs, i - 1, f, policy, custom, baselines, levels);
      assert CodableOne(data, v, f, policy, custom);
      IVNamesCount(data, ivs, v, f, policy, custom, baselines, levels);
      assert CoefNames(ivs[..i], levels) == CoefNames(ivs[..i - 1], levels) + IVNames(v, levels);
      assert Width(data, ivs[..i], f) == Width(data, ivs[..i - 1], f) + Contribution(data, v, f);
    }
  }

  /** A codable IV gets as many names as it contributes columns. */
  lemma IVNamesCount(data: Table, ivs: seq<string>, v: string, f: Flags, policy: Policy,
                     custom: map<string, string>, baselines: map<string, string>, levels: map<string, seq<string>>)
    requires v in ivs && v in data.columns
    requires Outcome(data, ivs, f, custom, baselines, levels) && CodableOne(data, v, f, policy, custom)
    ensures |IVNames(v, levels)| == Contribution(data, v, f)
  {
    if IsTextIV(data, v) {
      assert TextIn(data, ivs, v);
      var names := SortedDistinct(Cells(data, v, f));
      assert levels[v] == Levels(names, baselines[v]);
      assert |IVNames(v, levels)| == |names| - 1;
    } else {
      assert !TextIn(data, ivs, v);
      assert v !in levels;
    }
  }

  class Reg {
    const formula: string
    const data: Table
    const nrow: nat
    const ncol: nat
    const design: DesignMatrix
    var strip: bool
    var toupper: bool
    var tolower: bool
    var customBaselines: map<string, string>
    const DV: string
    const IVs: seq<string>
    var X: Option<Matrix>
    var p: nat
    var coefNames: seq<string>
    var df: int

    ghost predicate Valid()
      reads this, design
    {
      data.Valid() && ColumnsKnown(data, IVs) && nrow == data.nrow && DV in data.columns
      && design.Valid() && design.reg.data == data && design.reg.nrow == nrow && design.reg.IVs == IVs
      && (X.Some? ==> Shaped(X.value) && X.value.rows == nrow)
    }

    function Switches(): Flags
      reads this
    {
      Flags(strip, toupper, tolower)
    }

    /** What the DesignMatrix sees of this object. */
    function View(): (v: RegView)
      reads this
      ensures v.data == data && v.IVs == IVs && v.Switches() == Switches() && v.customBaselines == customBaselines
    {
      RegView(formula, data, nrow, ncol, DV, IVs, strip, toupper, tolower, customBaselines)
    }

    /** `__init__` once its checks have passed and the formula has parsed. */
    constructor Init(formula: string, data: Table, spec: FormulaSpec)
      requires data.Valid()
      requires Parse(formula, data.columns.Keys) == Success(spec)
      ensures Valid() && fresh(design)
      ensures this.formula == formula && this.data == data && nrow == data.nrow && ncol == |data.columns|
      ensures DV == spec.dv && IVs == spec.ivs
      ensures strip && toupper && tolower && customBaselines == map[] && X == None
    {
      this.formula := formula;
      this.data := data;
      nrow := data.nrow;
      ncol := |data.columns|;
      strip := true;
      toupper := true;
      tolower := true;
      customBaselines := map[];
      DV := spec.dv;
      IVs := spec.ivs;
      design := new DesignMatrix(RegView(formula, data, data.nrow, |data.columns|, spec.dv, spec.ivs,
                                         true, true, true, map[]));
      X := None;
      p := 0;
      coefNames := [];
      df := 0;
    }

    /**
     * `Reg(formula, data)` (lines 18-38): a non-str formula, then a
     * non-DataFrame `data`, raise TypeError; then spaces are removed and the
     * DV and the IVs are extracted in that order.
     */
    static method Create(formula: PyObject, data: PyObject) returns (r: Result<Reg, InitError>)
      requires data.PyFrame? ==> data.t.Valid()
      ensures !formula.PyStr? ==> r == Failure(FormulaNotStr)
      ensures formula.PyStr? && !data.PyFrame? ==> r == Failure(DataNotFrame)
      ensures formula.PyStr? && data.PyFrame? ==>
                match Parse(RemoveSpaces(formula.s), data.t.columns.Keys)
                case Failure(e) => r == Failure(ParseFailed(e))
                case Success(spec) =>
                  r.Success? && fresh(r.value) && fresh(r.value.design) && r.value.Valid() && r.value.formula == RemoveSpaces(formula.s)
                  && r.value.data == data.t
                  && r.value.DV == spec.dv && r.value.IVs == spec.ivs
                  && r.value.strip && r.value.toupper && r.value.tolower && r.value.customBaselines == map[]
    {
      if !formula.PyStr? {
        return Failure(FormulaNotStr);
      }
      var f := RemoveSpaces(formula.s);
      if !data.PyFrame? {
        return Failure(DataNotFrame);
      }
      var parsed := Parse(f, data.t.columns.Keys);
      if parsed.Failure? {
        return Failure(ParseFailed(parsed.error));
      }
      var reg := new Reg.Init(f, data.t, parsed.value);
      r := Success(reg);
    }

    /**
     * `set_baselines` (lines 73-88): every entry is checked in dict order,
     * including that its value is a label of the row index, before the whole
     * map is replaced.
     */
    method SetBaselines(entries: seq<(PyObject, PyObject)>) returns (err: Option<SetError>)
      requires Valid()
      modifies this`customBaselines
      ensures Valid()
      ensures err == FirstBadEntry(entries, IVs, RegChecks(data.indexLabels))
      ensures err.Some? ==> customBaselines == old(customBaselines)
      ensures err.None? ==> AllStrings(entries) && customBaselines == AsMap(entries)
      ensures err.None? ==> forall k :: k in customBaselines ==> k in IVs
    {
      var checks := RegChecks(data.indexLabels);
      for i := 0 to |entries|
        invariant FirstBadEntry(entries[..i], IVs, checks).None?
        invariant customBaselines == old(customBaselines)
      {
        FirstBadEntryPrefix(entries, i, IVs, checks);
        var e := CheckEntry(entries[i].0, entries[i].1, IVs, checks);
        if e.Some? {
          FirstBadEntryAppend(entries[..i + 1], entries[i + 1..], IVs, checks);
          assert entries[..i + 1] + entries[i + 1..] == entries;
          return e;
        }
      }
      assert entries[..|entries|] == entries;
      AcceptedKeysAreIVs(entries, IVs, checks);
      customBaselines := AsMap(entries);
      err := None;
    }

    /**
     * `set_one_baseline` (lines 90-100): after its checks it assigns into
     * `self.custom_baseline`, which does not exist, so it always raises and
     * never changes anything.
     */
    method SetOneBaseline(v: PyObject, value: PyObject) returns (err: Option<SetError>)
      requires Valid()
      ensures err.Some?
      ensures CheckOne(v, value, IVs, RegChecks(data.indexLabels)).Some? ==>
                err == CheckOne(v, value, IVs, RegChecks(data.indexLabels))
      ensures CheckOne(v, value, IVs, RegChecks(data.indexLabels)).None? ==> err == Some(NoSuchAttribute)
    {
      err := CheckOne(v, value, IVs, RegChecks(data.indexLabels));
      if err.None? {
        err := Some(NoSuchAttribute);
      }
    }

    /** `set_strip` (lines 102-105). */
    method SetStrip(value: PyObject) returns (err: Option<SetError>)
      requires Valid()
      modifies this`strip
      ensures Valid()
      ensures value.PyBool? ==> err.None? && strip == value.b
      ensures !value.PyBool? ==> err == Some(NotBool) && strip == old(strip)
    {
      if !value.PyBool? {
        return Some(NotBool);
      }
      strip := value.b;
      err := None;
    }

    /** `set_tolower` (lines 107-110). */
    method SetTolower(value: PyObject) returns (err: Option<SetError>)
      requires Valid()
      modifies this`tolower
      ensures Valid()
      ensures value.PyBool? ==> err.None? && tolower == value.b
      ensures !value.PyBool? ==> err == Some(NotBool) && tolower == old(tolower)
    {
      if !value.PyBool? {
        return Some(NotBool);
      }
      tolower := value.b;
      err := None;
    }

    /** `set_toupper` (lines 112-115). */
    method SetToupper(value: PyObject) returns (err: Option<SetError>)
      requires Valid()
      modifies this`toupper
      ensures Valid()
      ensures value.PyBool? ==> err.None? && toupper == value.b
      ensures !value.PyBool? ==> err == Some(NotBool) && toupper == old(toupper)
    {
      if !value.PyBool? {
        return Some(NotBool);
      }
      toupper := value.b;
      err := None;
    }

    /**
     * `make_X` (lines 117-120): the DesignMatrix builds X from this object's
     * current fields, storing the baselines it chooses into
     * `custom_baselines`; X and `p` are only taken over if it does not raise.
     */
    method MakeX() returns (err: Option<RecodeError>)
      requires Valid()
      modifies this`customBaselines, this`X, this`p, design
      ensures Valid()
      ensures var b := MakeXSpec(data, IVs, Switches(), NoFallback, old(customBaselines));
              err == b.error && customBaselines == b.baselines
              && design.baselines == b.baselines && design.levels == b.levels && design.X == Some(b.X)
              && (err.None? ==> X == Some(b.X) && p == b.X.cols)
              && (err.Some? ==> X == old(X) && p == old(p))
    {
      design.reg := View();
      err := design.MakeX();
      customBaselines := design.reg.customBaselines;
      if err.None? {
        X := design.X;
        p := design.X.value.cols;
      }
    }

    /**
     * The integer and string part of `fit` (lines 122-137): after `make_X`,
     * one coefficient name per column of X, and `df = nrow - p`.
     */
    method Fit() returns (err: Option<RecodeError>)
      requires Valid()
      modifies this`customBaselines, this`X, this`p, this`coefNames, this`df, design
      ensures Valid()
      ensures var b := MakeXSpec(data, IVs, Switches(), NoFallback, old(customBaselines));
              err == b.error && customBaselines == b.baselines
              && (err.None? ==> X == Some(b.X) && coefNames == CoefNames(IVs, b.levels) && |coefNames| == p == b.X.cols
                                && df == nrow - b.X.cols)
              && (err.Some? ==> X == old(X) && p == old(p) && coefNames == old(coefNames) && df == old(df))
    {
      ghost var custom := customBaselines;
      err := MakeX();
      if err.Some? {
        return;
      }
      coefNames := CoefficientNames(IVs, design.levels);
      CoefCount(data, IVs, Switches(), NoFallback, custom);
      df := nrow - p;
    }
  }
}
