/**
 * The class `DesignMatrix` of DesignMatrix.py, which Reg drives. It reads
 * the formula's IVs, the data, the text switches and `custom_baselines` from
 * its `reg` object, here the record RegView. During `make_X` its `baselines`
 * is the dict `reg.custom_baselines`, so every baseline it stores is stored
 * there too. A custom baseline that does not occur in the data is not
 * replaced: `temp.remove` raises.
 */
module RegDesign {
  import opened Outcomes
  import opened PyText
  import opened Frame
  import opened Treatment
  import opened BuildFacts

  /** The attributes of `reg` that DesignMatrix reads or shares. */
  datatype RegView = RegView(formula: string, data: Table, nrow: nat, ncol: nat, DV: string, IVs: seq<string>,
                             strip: bool, toupper: bool, tolower: bool, customBaselines: map<string, string>)
  {
    ghost predicate Valid() {
      data.Valid() && ColumnsKnown(data, IVs) && nrow == data.nrow
    }

    function Switches(): Flags {
      Flags(strip, toupper, tolower)
    }
  }

  class DesignMatrix {
    var reg: RegView
    var baselines: map<string, string>
    var levels: map<string, seq<string>>
    var X: Option<Matrix>

    ghost predicate Valid()
      reads this
    {
      reg.Valid() && (X.Some? ==> Shaped(X.value) && X.value.rows == reg.nrow)
    }

    /** `DesignMatrix(reg)` (lines 28-30): no X yet and an empty dict of its own. */
    constructor (reg: RegView)
      requires reg.Valid()
      ensures Valid()
      ensures this.reg == reg && baselines == map[] && levels == map[] && X == None
    {
      this.reg := reg;
      baselines := map[];
      levels := map[];
      X := None;
    }

    /**
     * `recode(var)` (lines 36-70) inside `make_X`, where `baselines` is
     * `reg.custom_baselines`: a missing baseline becomes `min(x)` in both.
     */
    method Recode(v: string) returns (block: Result<Matrix, RecodeError>)
      requires Valid() && v in reg.data.columns && baselines == reg.customBaselines
      modifies this`baselines, this`levels, this`reg
      ensures Valid() && baselines == reg.customBaselines
      ensures reg == old(reg).(customBaselines := baselines)
      ensures var st := RecodeSpec(reg.data, v, reg.Switches(), NoFallback, old(baselines), old(levels));
              block == st.block && baselines == st.baselines && levels == st.levels
    {
      match reg.data.columns[v]
      case FloatCol(c) =>
        block := Success(ColumnOf(c));
      case IntCol(c) =>
        block := Success(ColumnOf(Widen(c)));
      case TextCol(c) =>
        block := RecodeText(v, Normalise(c, reg.Switches()));
    }

    /** The factor branch (lines 48-70) on the normalised cells `x`. */
    method RecodeText(v: string, x: seq<string>) returns (block: Result<Matrix, RecodeError>)
      requires Valid() && baselines == reg.customBaselines
      modifies this`baselines, this`levels, this`reg
      ensures Valid() && baselines == reg.customBaselines
      ensures reg == old(reg).(customBaselines := baselines)
      ensures var st := TextStep(v, x, NoFallback, old(baselines), old(levels));
              block == st.block && baselines == st.baselines && levels == st.levels
    {
      ghost var b0 := baselines;
      if v !in baselines {
        if x == [] {
          return Failure(EmptyMin);
        }
        baselines := baselines[v := Min(x)];
        reg := reg.(customBaselines := baselines);
      }
      assert TextStep(v, x, NoFallback, b0, levels) == Encode(v, x, baselines[v], baselines, levels, []);
      var b := baselines[v];
      var names := SortedDistinct(x);
      if b !in names {
        return Failure(NotInList);
      }
      levels := levels[v := Levels(names, b)];
      SortedIsDistinct(names);
      block := FillIndicators(x, names, b);
    }

    /** One turn of the loop at line 78: recode `v` and, if that returns, append its block to X. */
    method AppendBlock(v: string) returns (err: Option<RecodeError>)
      requires Valid() && X.Some? && v in reg.data.columns && baselines == reg.customBaselines
      modifies this`baselines, this`levels, this`X, this`reg
      ensures Valid() && X.Some? && baselines == reg.customBaselines
      ensures reg == old(reg).(customBaselines := baselines)
      ensures var st := RecodeSpec(reg.data, v, reg.Switches(), NoFallback, old(baselines), old(levels));
              baselines == st.baselines && levels == st.levels
              && (st.block.Failure? ==> err == Some(st.block.error) && X == old(X))
              && (st.block.Success? ==> err.None? && X == Some(HConcat(old(X).value, st.block.value)))
    {
      var blk := Recode(v);
      if blk.Failure? {
        return Some(blk.error);
      }
      X := Some(HConcat(X.value, blk.value));
      err := None;
    }

    /**
     * `make_X` (lines 72-78): `baselines` becomes `reg.custom_baselines`,
     * `levels` starts empty, X starts as the ones column, and one block per
     * IV of `reg.IVs` is appended until one raises.
     */
    method MakeX() returns (err: Option<RecodeError>)
      requires Valid()
      modifies this`baselines, this`levels, this`X, this`reg
      ensures Valid()
      ensures var b := MakeXSpec(reg.data, reg.IVs, reg.Switches(), NoFallback, old(reg.customBaselines));
              X == Some(b.X) && baselines == b.baselines && levels == b.levels && err == b.error
      ensures reg == old(reg).(customBaselines := baselines)
    {
      ghost var custom := reg.customBaselines;
      baselines := reg.customBaselines;
      levels := map[];
      X := Some(Ones(reg.nrow));
      err := AppendAll(custom);
    }

    /** The loop at line 78: one block per IV of `reg.IVs`, from the state `make_X` starts it in. */
    method AppendAll(ghost custom: map<string, string>) returns (err: Option<RecodeError>)
      requires Valid() && X.Some? && baselines == reg.customBaselines
      requires MakeXSpec(reg.data, [], reg.Switches(), NoFallback, custom) == Build(X.value, baselines, levels, [], None)
      modifies this`baselines, this`levels, this`X, this`reg
      ensures Valid()
      ensures var b := MakeXSpec(reg.data, reg.IVs, reg.Switches(), NoFallback, custom);
              X == Some(b.X) && baselines == b.baselines && levels == b.levels && err == b.error
      ensures reg == old(reg).(customBaselines := baselines)
    {
      ghost var data := reg.data;
      ghost var f := reg.Switches();
      var ivs := reg.IVs;
      assert ivs[..0] == [];
      for i := 0 to |ivs|
        invariant Valid() && X.Some? && baselines == reg.customBaselines
        invariant reg == old(reg).(customBaselines := baselines)
        invariant reg.data == data && reg.IVs == ivs && reg.Switches() == f
        invariant ColumnsKnown(data, ivs[..i])
        invariant MakeXSpec(data, ivs[..i], f, NoFallback, custom) == Build(X.value, baselines, levels, [], None)
      {
        MakeXTurn(data, ivs, i, f, NoFallback, custom, X.value, baselines, levels, []);
        err := AppendBlock(ivs[i]);
        if err.Some? {
          return;
        }
      }
      assert ivs[..|ivs|] == ivs;
      err := None;
    }
  }
}
