/**
 * The class `DesignMat` of demoReg/DesignMatrix.py: a formula and a
 * DataFrame, the text switches, the baseline maps, and the design matrix
 * that `make_X` builds.
 *
 * After `make_X`, `self.baselines` and `self.custom_baselines` are one dict
 * object; `sharesBaselines` records that, and every write to one field then
 * writes the other. `reset_baselines` and `set_baselines` bind
 * `custom_baselines` to a new dict and so end the sharing.
 */
module DemoDesign {
  import opened Outcomes
  import opened PyText
  import opened Frame
  import opened Formula
  import opened Treatment
  import opened Settings
  import opened FactorInfo
  import opened BuildFacts

  class DesignMat {
    const formula: string
    const data: Table
    const nrow: nat
    const ncol: nat
    const DV: string
    const IVs: seq<string>
    var strip: bool
    var toupper: bool
    var tolower: bool
    var customBaselines: map<string, string>
    var baselines: map<string, string>
    var sharesBaselines: bool
    var levels: map<string, seq<string>>
    const maxLevelsShown: nat := 10
    var X: Option<Matrix>

    ghost predicate Valid()
      reads this
    {
      data.Valid() && ColumnsKnown(data, IVs) && nrow == data.nrow && DV in data.columns
      && (sharesBaselines ==> baselines == customBaselines)
      && (X.Some? ==> Shaped(X.value) && X.value.rows == nrow)
    }

    function Switches(): Flags
      reads this
    {
      Flags(strip, toupper, tolower)
    }

    /** `__init__` once the formula has parsed. */
    constructor Init(formula: string, data: Table, spec: FormulaSpec)
      requires data.Valid()
      requires Parse(formula, data.columns.Keys) == Success(spec)
      ensures Valid()
      ensures this.formula == formula && this.data == data && nrow == data.nrow && ncol == |data.columns|
      ensures DV == spec.dv && IVs == spec.ivs
      ensures strip && toupper && !tolower
      ensures customBaselines == map[] && baselines == map[] && !sharesBaselines && X == None
    {
      this.formula := formula;
      this.data := data;
      nrow := data.nrow;
      ncol := |data.columns|;
      DV := spec.dv;
      IVs := spec.ivs;
      strip := true;
      toupper := true;
      tolower := false;
      customBaselines := map[];
      baselines := map[];
      sharesBaselines := false;
      levels := map[];
      X := None;
    }

    /**
     * `DesignMat(formula, data)` (lines 31-44): spaces are removed, then the
     * DV and then the IVs are extracted; a parse error raises.
     */
    static method Create(formula: string, data: Table) returns (r: Result<DesignMat, ParseError>)
      requires data.Valid()
      ensures r.Failure? ==> Parse(RemoveSpaces(formula), data.columns.Keys) == Failure(r.error)
      ensures r.Success? ==> fresh(r.value) && r.value.Valid()
                             && Parse(RemoveSpaces(formula), data.columns.Keys) == Success(FormulaSpec(r.value.DV, r.value.IVs))
                             && r.value.formula == RemoveSpaces(formula) && r.value.data == data
                             && r.value.strip && r.value.toupper && !r.value.tolower
                             && r.value.customBaselines == map[] && r.value.X == None
    {
      var f := RemoveSpaces(formula);
      var parsed := Parse(f, data.columns.Keys);
      if parsed.Failure? {
        return Failure(parsed.error);
      }
      var d := new DesignMat.Init(f, data, parsed.value);
      r := Success(d);
    }

    /** `reset_baselines` (lines 71-72): a fresh empty dict. */
    method ResetBaselines()
      requires Valid()
      modifies this`customBaselines, this`sharesBaselines
      ensures Valid()
      ensures customBaselines == map[] && !sharesBaselines
    {
      customBaselines := map[];
      sharesBaselines := false;
    }

    /**
     * `set_baselines` (lines 74-87): every entry is checked in dict order
     * before the whole map is replaced, so a rejected call changes nothing.
     */
    method SetBaselines(entries: seq<(PyObject, PyObject)>) returns (err: Option<SetError>)
      requires Valid()
      modifies this`customBaselines, this`sharesBaselines
      ensures Valid()
      ensures err == FirstBadEntry(entries, IVs, DesignChecks)
      ensures err.Some? ==> customBaselines == old(customBaselines) && sharesBaselines == old(sharesBaselines)
      ensures err.None? ==> (forall k :: k in customBaselines ==> k in IVs) && !sharesBaselines
      ensures err.None? ==> AllStrings(entries) && customBaselines == AsMap(entries)
    {
      for i := 0 to |entries|
        invariant FirstBadEntry(entries[..i], IVs, DesignChecks).None?
        invariant customBaselines == old(customBaselines) && sharesBaselines == old(sharesBaselines)
      {
        FirstBadEntryPrefix(entries, i, IVs, DesignChecks);
        var e := CheckEntry(entries[i].0, entries[i].1, IVs, DesignChecks);
        if e.Some? {
          FirstBadEntryAppend(entries[..i + 1], entries[i + 1..], IVs, DesignChecks);
          assert entries[..i + 1] + entries[i + 1..] == entries;
          return e;
        }
      }
      assert entries[..|entries|] == entries;
      AcceptedKeysAreIVs(entries, IVs, DesignChecks);
      customBaselines := AsMap(entries);
      sharesBaselines := false;
      err := None;
    }

    /**
     * `set_one_baseline` (lines 89-97): after its checks it writes one key,
     * into the dict that `baselines` may also be.
     */
    method SetOneBaseline(v: PyObject, value: PyObject) returns (err: Option<SetError>)
      requires Valid()
      modifies this`customBaselines, this`baselines
      ensures Valid()
      ensures err == CheckOne(v, value, IVs, DesignChecks)
      ensures err.Some? ==> customBaselines == old(customBaselines) && baselines == old(baselines)
      ensures err.None? ==> customBaselines == old(customBaselines)[v.s := value.s]
      ensures err.None? ==> baselines == if sharesBaselines then customBaselines else old(baselines)
    {
      err := CheckOne(v, value, IVs, DesignChecks);
      if err.None? {
        customBaselines := customBaselines[v.s := value.s];
        if sharesBaselines {
          baselines := customBaselines;
        }
      }
    }

    /** `set_strip` (lines 99-102). */
    method SetStrip(value: PyObject) returns (err: Option<SetError>)
      requires Valid()
      modifies this`strip
      ensures Valid()
      ensures value.PyBool? ==> err.None? && strip == value.b
      ensures !value.PyBool? ==> err == Some(NotBool) && strip == old(strip)
    {
      if !value.PyBool? {
        return Some(NotBool);
      }
      strip := value.b;
      err := None;
    }

    /** `set_tolower` (lines 104-107). */
    method SetTolower(value: PyObject) returns (err: Option<SetError>)
      requires Valid()
      modifies this`tolower
      ensures Valid()
      ensures value.PyBool? ==> err.None? && tolower == value.b
      ensures !value.PyBool? ==> err == Some(NotBool) && tolower == old(tolower)
    {
      if !value.PyBool? {
        return Some(NotBool);
      }
      tolower := value.b;
      err := None;
    }

    /** `set_toupper` (lines 109-112). */
    method SetToupper(value: PyObject) returns (err: Option<SetError>)
      requires Valid()
      modifies this`toupper
      ensures Valid()
      ensures value.PyBool? ==> err.None? && toupper == value.b
      ensures !value.PyBool? ==> err == Some(NotBool) && toupper == old(toupper)
    {
      if !value.PyBool? {
        return Some(NotBool);
      }
      toupper := value.b;
      err := None;
    }

    /**
     * `recode(var)` (lines 114-154), once `make_X` has made `levels` a dict:
     * the block for one IV, with the baseline written back (into both fields
     * while they are one dict) and the notice lines it prints.
     */
    method Recode(v: string) returns (block: Result<Matrix, RecodeError>, printed: seq<string>)
      requires Valid() && v in data.columns && X.Some?
      modifies this`baselines, this`levels, this`customBaselines
      ensures Valid()
      ensures var st := RecodeSpec(data, v, Switches(), Fallback, old(baselines), old(levels));
              block == st.block && printed == st.printed && baselines == st.baselines && levels == st.levels
      ensures customBaselines == if sharesBaselines then baselines else old(customBaselines)
    {
      match data.columns[v]
      case FloatCol(c) =>
        block, printed := Success(ColumnOf(c)), [];
      case IntCol(c) =>
        block, printed := Success(ColumnOf(Widen(c))), [];
      case TextCol(c) =>
        block, printed := RecodeText(v, Normalise(c, Switches()));
    }

    /** The factor branch of `recode` (lines 127-154) on the normalised cells `x`. */
    method RecodeText(v: string, x: seq<string>) returns (block: Result<Matrix, RecodeError>, printed: seq<string>)
      requires Valid() && X.Some?
      modifies this`baselines, this`levels, this`customBaselines
      ensures Valid()
      ensures var st := TextStep(v, x, Fallback, old(baselines), old(levels));
              block == st.block && printed == st.printed && baselines == st.baselines && levels == st.levels
      ensures customBaselines == if sharesBaselines then baselines else old(customBaselines)
    {
      ghost var b0 := baselines;
      var failed;
      failed, printed := ChooseBaseline(v, x);
      if failed {
        return Failure(EmptyMin), printed;
      }
      assert TextStep(v, x, Fallback, b0, levels) == Encode(v, x, baselines[v], baselines, levels, printed);
      var b := baselines[v];
      var names := SortedDistinct(x);
      if b !in names {
        return Failure(NotInList), printed;
      }
      levels := levels[v := Levels(names, b)];
      SortedIsDistinct(names);
      block := FillIndicators(x, names, b);
    }

    /**
     * Lines 134-140: keep a baseline that occurs in `x`, otherwise print the
     * notice (for an existing entry) and store `min(x)`, which raises on an
     * empty column.
     */
    method ChooseBaseline(v: string, x: seq<string>) returns (failed: bool, printed: seq<string>)
      requires Valid()
      modifies this`baselines, this`customBaselines
      ensures Valid()
      ensures customBaselines == if sharesBaselines then baselines else old(customBaselines)
      ensures failed <==> x == []
      ensures printed == (TextStep(v, x, Fallback, old(baselines), levels)).printed
      ensures failed ==> baselines == old(baselines)
      ensures !failed ==> baselines == old(baselines)[v := ChosenBaseline(old(baselines), v, x)]
    {
      printed := [];
      if v !in baselines {
        if x == [] {
          return true, printed;
        }
        baselines := baselines[v := Min(x)];
        if sharesBaselines {
          customBaselines := baselines;
        }
      } else if baselines[v] !in x {
        printed := [MissingNotice(baselines[v], v)];
        if x == [] {
          return true, printed;
        }
        baselines := baselines[v := Min(x)];
        if sharesBaselines {
          customBaselines := baselines;
        }
        printed := printed + [UsingNotice(baselines[v])];
      } else {
        assert baselines[v := baselines[v]] == baselines;
      }
      failed := false;
    }

    /** One turn of the loop at line 162: recode `v` and, if that returns, append its block to X. */
    method AppendBlock(v: string) returns (err: Option<RecodeError>, out: seq<string>)
      requires Valid() && X.Some? && v in data.columns
      modifies this`baselines, this`levels, this`X, this`customBaselines
      ensures Valid() && X.Some?
      ensures customBaselines == if sharesBaselines then baselines else old(customBaselines)
      ensures var st := RecodeSpec(data, v, Switches(), Fallback, old(baselines), old(levels));
              baselines == st.baselines && levels == st.levels && out == st.printed
              && (st.block.Failure? ==> err == Some(st.block.error) && X == old(X))
              && (st.block.Success? ==> err.None? && X == Some(HConcat(old(X).value, st.block.value)))
    {
      var blk;
      blk, out := Recode(v);
      if blk.Failure? {
        return Some(blk.error), out;
      }
      X := Some(HConcat(X.value, blk.value));
      err := None;
    }

    /**
     * `make_X` (lines 156-162): `baselines` becomes the very dict
     * `custom_baselines`, `levels` starts empty, X starts as the ones column,
     * and each IV's block is appended until one raises.
     */
    method MakeX() returns (err: Option<RecodeError>, printed: seq<string>)
      requires Valid()
      modifies this`baselines, this`levels, this`X, this`customBaselines, this`sharesBaselines
      ensures Valid()
      ensures var b := MakeXSpec(data, IVs, Switches(), Fallback, old(customBaselines));
              X == Some(b.X) && baselines == b.baselines && levels == b.levels
              && printed == b.printed && err == b.error
      ensures sharesBaselines && customBaselines == baselines
    {
      ghost var custom := customBaselines;
      baselines := customBaselines;
      sharesBaselines := true;
      levels := map[];
      X := Some(Ones(nrow));
      printed := [];
      for i := 0 to |IVs|
        invariant Valid() && sharesBaselines && X.Some?
        invariant ColumnsKnown(data, IVs[..i])
        invariant MakeXSpec(data, IVs[..i], Switches(), Fallback, custom) == Build(X.value, baselines, levels, printed, None)
      {
        MakeXTurn(data, IVs, i, Switches(), Fallback, custom, X.value, baselines, levels, printed);
        var out;
        err, out := AppendBlock(IVs[i]);
        printed := printed + out;
        if err.Some? {
          return;
        }
      }
      assert IVs[..|IVs|] == IVs;
      err := None;
    }

    /** `show_factor_info` (lines 164-179) as the lines it prints. */
    function ShowFactorInfo(): (s: Shown)
      reads this
      ensures X.None? ==> s.lines == [NotRunMessage]
      ensures X.Some? ==> |s.lines| >= 1 && s.lines[0] == Header
    {
      FactorInfo.ShowFactorInfo(X.Some?, IVs, baselines, levels, maxLevelsShown)
    }
  }

  /**
   * After a successful `make_X` the factor summary raises KeyError exactly
   * when some custom baseline names an IV that is not a text column (it has a
   * baseline but no levels).
   */
  lemma ShowAfterBuild(data: Table, ivs: seq<string>, f: Flags, custom: map<string, string>, maxShown: nat)
    requires data.Valid() && ColumnsKnown(data, ivs)
    requires MakeXSpec(data, ivs, f, Fallback, custom).error.None?
    ensures var b := MakeXSpec(data, ivs, f, Fallback, custom);
            FactorInfo.ShowFactorInfo(true, ivs, b.baselines, b.levels, maxShown).keyError.None? <==>
              forall u :: u in custom && u in ivs ==> IsTextIV(data, u)
  {
    var b := MakeXSpec(data, ivs, f, Fallback, custom);
    BuildOutcome(data, ivs, f, Fallback, custom);
    VarLinesKeyError(ivs, b.baselines, b.levels, maxShown);
    var d := Described(ivs, b.baselines);
    if !forall u :: u in custom && u in ivs ==> IsTextIV(data, u) {
      var u :| u in custom && u in ivs && !IsTextIV(data, u);
      DescribedComplete(ivs, b.baselines, u);
      var k :| 0 <= k < |d| && d[k] == u;
      assert d[k] !in b.levels;
    }
  }
}
