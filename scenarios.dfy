/**
 * The test scenarios of tests/test_DesignMatrix.py and test_Reg.py run
 * through the classes themselves: construct, configure, `make_X`, then read
 * the state the tests inspect.
 */
module Scenarios {
  import opened Outcomes
  import opened PyText
  import opened Frame
  import opened Formula
  import opened Treatment
  import opened Settings
  import opened FactorInfo
  import opened DemoDesign
  import opened Regression
  import opened Fixtures

  lemma ThreeText()
    ensures "score ~ age + male + tx" == "score" + " ~ " + Join(AgeMaleTx, " + ")
  {
    SpacedThree("score", "age", "male", "tx");
    assert "score ~ age + male + tx" == "score" + (" ~ " + ("age" + (" + " + ("male" + (" + " + "tx")))));
  }

  lemma ThreeNames()
    ensures forall k :: 0 <= k < |AgeMaleTx| ==> LowerWord(AgeMaleTx[k]) && AgeMaleTx[k] in SimpleData().columns.Keys
  {
    assert LowerWord("age") && LowerWord("male") && LowerWord("tx");
  }

  lemma ParseThree()
    ensures Parse(RemoveSpaces("score ~ age + male + tx"), SimpleData().columns.Keys) == Success(FormulaSpec("score", AgeMaleTx))
  {
    ThreeText();
    ThreeNames();
    PlainNames(AgeMaleTx, SimpleData().columns.Keys);
    ParseSpacedFormula("score", AgeMaleTx, SimpleData().columns.Keys);
  }

  lemma ParseRegFormula()
    ensures Parse(RemoveSpaces("score ~ age + male"), RegData().columns.Keys) == Success(FormulaSpec("score", AgeMale))
  {
    ScoreAgeMaleText();
    SimpleNames();
    PlainNames(AgeMale, RegData().columns.Keys);
    ParseSpacedFormula("score", AgeMale, RegData().columns.Keys);
  }

  const TxEntries: seq<(PyObject, PyObject)> := [(PyStr("male"), PyStr("M")), (PyStr("tx"), PyStr("P"))]

  lemma TxEntriesAccepted()
    ensures FirstBadEntry(TxEntries, AgeMaleTx, DesignChecks).None?
    ensures AllStrings(TxEntries) && AsMap(TxEntries) == TxOverrides
  {
    assert TxEntries[1..] == [(PyStr("tx"), PyStr("P"))];
    assert TxEntries[..1] == [(PyStr("male"), PyStr("M"))];
  }

  /** What the test of the show output reads, in terms of the state `make_X` leaves. */
  lemma ShowScenarioState(data: Table, ivs: seq<string>, f: Flags, custom: map<string, string>,
                          bl: map<string, string>, lv: map<string, seq<string>>)
    requires data == SimpleData() && ivs == AgeMale && f == DemoDefaults && custom == map[]
    requires ColumnsKnown(data, ivs)
    requires bl == MakeXSpec(data, ivs, f, Fallback, custom).baselines && lv == MakeXSpec(data, ivs, f, Fallback, custom).levels
    ensures FactorInfo.ShowFactorInfo(true, ivs, bl, lv, 10).lines
              == ["Factor details:", "'male': baseline = 'F'", "          others = 'M'"]
  {
    ShowOutputFixture();
  }

  /** test_show_output: the factor summary after the default `make_X`. */
  method ShowOutputScenario() returns (lines: seq<string>)
    ensures lines == ["Factor details:", "'male': baseline = 'F'", "          others = 'M'"]
  {
    ParseGood();
    var r := DesignMat.Create("score ~ age + male", SimpleData());
    var dm := r.value;
    var err, printed := dm.MakeX();
    ShowScenarioState(dm.data, dm.IVs, dm.Switches(), map[], dm.baselines, dm.levels);
    lines := dm.ShowFactorInfo().lines;
  }

  lemma CustomScenarioState(data: Table, ivs: seq<string>, f: Flags, custom: map<string, string>, bl: map<string, string>)
    requires data == SimpleData() && ivs == AgeMaleTx && f == DemoDefaults && custom == TxOverrides
    requires ColumnsKnown(data, ivs)
    requires bl == MakeXSpec(data, ivs, f, Fallback, custom).baselines
    ensures "tx" in bl && bl["tx"] == "P"
  {
    CustomBaselinesFixture();
  }

  /** `set_baselines({'male': 'M', 'tx': 'P'})` then `make_X` on a fresh `DesignMat` of `score ~ age + male + tx`. */
  method CustomThenMakeX(dm: DesignMat) returns (txBaseline: string)
    requires dm.Valid() && dm.data == SimpleData() && dm.IVs == AgeMaleTx && dm.Switches() == DemoDefaults
    modifies dm
    ensures txBaseline == "P"
  {
    TxEntriesAccepted();
    var e := dm.SetBaselines(TxEntries);
    var err, printed := dm.MakeX();
    CustomScenarioState(dm.data, dm.IVs, dm.Switches(), TxOverrides, dm.baselines);
    txBaseline := dm.baselines["tx"];
  }

  /** test_custom_baselines: after `set_baselines({'male': 'M', 'tx': 'P'})`, `baselines['tx']` is `P`. */
  method CustomBaselinesScenario() returns (txBaseline: string)
    ensures txBaseline == "P"
  {
    ParseThree();
    var r := DesignMat.Create("score ~ age + male + tx", SimpleData());
    txBaseline := CustomThenMakeX(r.value);
  }

  lemma RegScenarioState(data: Table, ivs: seq<string>, f: Flags, custom: map<string, string>,
                         x: Option<Matrix>, names: seq<string>, nrow: nat, df: int)
    requires data == RegData() && ivs == AgeMale && f == RegDefaults && custom == map[] && nrow == data.nrow
    requires ColumnsKnown(data, ivs)
    requires var b := MakeXSpec(data, ivs, f, NoFallback, custom);
             b.error.None? ==> x == Some(b.X) && names == CoefNames(ivs, b.levels) && df == nrow - b.X.cols
    ensures x.Some? && x.value.rows == 4 && x.value.cols == 3
    ensures names == ["Intercept", "age", "male.m"] && df == 1
  {
    RegFitFixture();
  }

  /** `fit` on a fresh `Reg` of `score ~ age + male`, then the fields the tests read. */
  method FitAndRead(reg: Reg) returns (rows: nat, cols: nat, names: seq<string>, df: int)
    requires reg.Valid() && reg.data == RegData() && reg.IVs == AgeMale && reg.Switches() == RegDefaults
    requires reg.customBaselines == map[]
    modifies reg, reg.design
    ensures rows == 4 && cols == 3
    ensures names == ["Intercept", "age", "male.m"] && df == 1
  {
    var err := reg.Fit();
    RegScenarioState(reg.data, reg.IVs, reg.Switches(), map[], reg.X, reg.coefNames, reg.nrow, reg.df);
    rows := reg.X.value.rows;
    cols := reg.X.value.cols;
    names := reg.coefNames;
    df := reg.df;
  }

  /** test_X_correct and test_fit_correct: `X` is 4 by 3, the names are Intercept, age, male.m, and `df` is 1. */
  method RegFitScenario() returns (rows: nat, cols: nat, names: seq<string>, df: int)
    ensures rows == 4 && cols == 3
    ensures names == ["Intercept", "age", "male.m"] && df == 1
  {
    ParseRegFormula();
    var r := Reg.Create(PyStr("score ~ age + male"), PyFrame(RegData()));
    rows, cols, names, df := FitAndRead(r.value);
  }
}
