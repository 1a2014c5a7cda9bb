/**
 * The fixtures of tests/test_DesignMatrix.py and test_Reg.py, worked through
 * the model: the parse tests, the matrix widths, the printed factor summary,
 * the chosen baselines, and Reg's coefficient names and `df`.
 */
module Fixtures {
  import opened Outcomes
  import opened PyText
  import opened Frame
  import opened Formula
  import opened Treatment
  import opened BuildFacts
  import opened FactorInfo
  import opened Regression

  /** `simpleData` of tests/test_DesignMatrix.py (default RangeIndex: no string labels). */
  function SimpleData(): (t: Table)
    ensures t.Valid()
  {
    Table(map["age" := IntCol([25, 30, 35, 40]), "male" := TextCol(["m", "M", "f ", "F"]),
              "tx" := TextCol(["p", "p", "a", "a"]), "score" := IntCol([45, 52, 88, 51])], 4, {})
  }

  /** `simpleData` of test_Reg.py. */
  function RegData(): (t: Table)
    ensures t.Valid()
  {
    Table(map["age" := IntCol([25, 30, 35, 40]), "male" := TextCol(["m", "M", "f", "F"]),
              "score" := IntCol([45, 52, 88, 51])], 4, {})
  }

  /** The column kinds of `simpleData` that the fixtures rely on. */
  lemma SimpleShape()
    ensures "age" in SimpleData().columns && SimpleData().columns["age"].IntCol?
    ensures IsTextIV(SimpleData(), "male") && SimpleData().columns["male"].texts == ["m", "M", "f ", "F"]
    ensures IsTextIV(SimpleData(), "tx") && SimpleData().columns["tx"].texts == ["p", "p", "a", "a"]
  {
  }

  lemma RegShape()
    ensures "age" in RegData().columns && RegData().columns["age"].IntCol?
    ensures IsTextIV(RegData(), "male") && RegData().columns["male"].texts == ["m", "M", "f", "F"]
  {
  }

  const DemoDefaults := Flags(true, true, false)
  const RegDefaults := Flags(true, true, true)

  /** A strictly sorted list holding exactly the values of `x` is `sorted(set(x))`. */
  lemma SortedDistinctIs(x: seq<string>, r: seq<string>)
    requires StrictlySorted(r)
    requires forall w :: w in r <==> w in x
    ensures SortedDistinct(x) == r
  {
    SortedUnique(SortedDistinct(x), r);
  }

  /** The text operations on a one-letter cell. */
  lemma OneLetter(c: char)
    requires !IsSpace(c)
    ensures Strip([c]) == [c]
    ensures Upper([c]) == [UpperChar(c)] && Lower([c]) == [LowerChar(c)]
  {
    assert LeadCount([c]) == 0;
    assert TrailCount([c]) == 0;
  }

  lemma StripTrailing(c: char)
    requires !IsSpace(c)
    ensures Strip([c, ' ']) == [c]
  {
    assert LeadCount([c, ' ']) == 0;
    assert TrailCount([c, ' ']) == 1 by {
      assert [c, ' '][..1] == [c];
    }
  }

  lemma NormaliseFour(cells: seq<string>, f: Flags, out: seq<string>)
    requires |cells| == 4 && |out| == 4
    requires NormaliseCell(cells[0], f) == out[0] && NormaliseCell(cells[1], f) == out[1]
    requires NormaliseCell(cells[2], f) == out[2] && NormaliseCell(cells[3], f) == out[3]
    ensures Normalise(cells, f) == out
  {
  }

  /** A one-letter cell, or one followed by a blank, normalised with `strip` on. */
  lemma NormaliseLetter(c: char, f: Flags)
    requires f.strip && !IsSpace(c)
    ensures NormaliseCell([c], f) == NormaliseCell([c, ' '], f)
    ensures NormaliseCell([c], f) ==
              var u := if f.toupper then UpperChar(c) else c;
              [if f.tolower then LowerChar(u) else u]
  {
    OneLetter(c);
    StripTrailing(c);
    OneLetter(UpperChar(c));
  }

  lemma UpperTwo(c: char, d: char)
    ensures Upper([c, d]) == [UpperChar(c), UpperChar(d)]
  {
  }

  /** What a one-letter cell becomes with `strip` on. */
  function LetterOut(c: char, f: Flags): string {
    var u := if f.toupper then UpperChar(c) else c;
    [if f.tolower then LowerChar(u) else u]
  }

  lemma LetterCell(c: char, f: Flags)
    requires f.strip && !IsSpace(c)
    ensures NormaliseCell([c], f) == LetterOut(c, f) && NormaliseCell([c, ' '], f) == LetterOut(c, f)
  {
    NormaliseLetter(c, f);
  }

  /** Four one-letter cells, the third optionally followed by a blank, normalised with `strip` on. */
  lemma FourLetters(c0: char, c1: char, c2: char, c3: char, blank: bool, f: Flags)
    requires f.strip && !IsSpace(c0) && !IsSpace(c1) && !IsSpace(c2) && !IsSpace(c3)
    ensures Normalise([[c0], [c1], if blank then [c2, ' '] else [c2], [c3]], f)
              == [LetterOut(c0, f), LetterOut(c1, f), LetterOut(c2, f), LetterOut(c3, f)]
  {
    var cells := [[c0], [c1], if blank then [c2, ' '] else [c2], [c3]];
    LetterCell(c0, f);
    LetterCell(c1, f);
    LetterCell(c2, f);
    LetterCell(c3, f);
    NormaliseFour(cells, f, [LetterOut(c0, f), LetterOut(c1, f), LetterOut(c2, f), LetterOut(c3, f)]);
  }

  // ---------------------------------------------------------------------
  // Normalised cells of the fixture columns

  lemma DefaultMaleCells()
    ensures Cells(SimpleData(), "male", DemoDefaults) == ["M", "M", "F", "F"]
  {
    SimpleShape();
    FourLetters('m', 'M', 'f', 'F', true, DemoDefaults);
  }

  lemma NoUpperMaleCells()
    ensures Cells(SimpleData(), "male", Flags(true, false, false)) == ["m", "M", "f", "F"]
  {
    SimpleShape();
    FourLetters('m', 'M', 'f', 'F', true, Flags(true, false, false));
  }

  lemma NoStripMaleCells()
    ensures Cells(SimpleData(), "male", Flags(false, true, false)) == ["M", "M", "F ", "F"]
  {
    var cells := ["m", "M", "f ", "F"];
    var f := Flags(false, true, false);
    SimpleShape();
    OneLetter('m');
    OneLetter('M');
    UpperTwo('f', ' ');
    OneLetter('F');
    NormaliseFour(cells, f, ["M", "M", "F ", "F"]);
  }

  lemma LowerMaleCells()
    ensures Cells(SimpleData(), "male", Flags(true, false, true)) == ["m", "m", "f", "f"]
  {
    SimpleShape();
    FourLetters('m', 'M', 'f', 'F', true, Flags(true, false, true));
  }

  lemma DefaultTxCells()
    ensures Cells(SimpleData(), "tx", DemoDefaults) == ["P", "P", "A", "A"]
  {
    SimpleShape();
    FourLetters('p', 'p', 'a', 'a', false, DemoDefaults);
  }

  lemma RegMaleCells()
    ensures Cells(RegData(), "male", RegDefaults) == ["m", "m", "f", "f"]
  {
    RegShape();
    FourLetters('m', 'M', 'f', 'F', false, RegDefaults);
  }

  // ---------------------------------------------------------------------
  // Their sorted distinct values

  lemma SortedFM()
    ensures SortedDistinct(["M", "M", "F", "F"]) == ["F", "M"]
  {
    assert LexLess("F", "M");
    SortedDistinctIs(["M", "M", "F", "F"], ["F", "M"]);
  }

  lemma SortedMixed()
    ensures SortedDistinct(["m", "M", "f", "F"]) == ["F", "M", "f", "m"]
  {
    assert LexLess("F", "M") && LexLess("M", "f") && LexLess("f", "m");
    LexTransitive("F", "M", "f");
    LexTransitive("F", "f", "m");
    LexTransitive("M", "f", "m");
    SortedDistinctIs(["m", "M", "f", "F"], ["F", "M", "f", "m"]);
  }

  lemma SortedSpaced()
    ensures SortedDistinct(["M", "M", "F ", "F"]) == ["F", "F ", "M"]
  {
    assert LexLess("F", "F ") && LexLess("F ", "M");
    LexTransitive("F", "F ", "M");
    SortedDistinctIs(["M", "M", "F ", "F"], ["F", "F ", "M"]);
  }

  lemma SortedAP()
    ensures SortedDistinct(["P", "P", "A", "A"]) == ["A", "P"]
  {
    assert LexLess("A", "P");
    SortedDistinctIs(["P", "P", "A", "A"], ["A", "P"]);
  }

  lemma SortedLower()
    ensures SortedDistinct(["m", "m", "f", "f"]) == ["f", "m"]
  {
    assert LexLess("f", "m");
    SortedDistinctIs(["m", "m", "f", "f"], ["f", "m"]);
  }

  lemma SortedFixtures()
    ensures SortedDistinct(["M", "M", "F", "F"]) == ["F", "M"]
    ensures SortedDistinct(["m", "M", "f", "F"]) == ["F", "M", "f", "m"]
    ensures SortedDistinct(["M", "M", "F ", "F"]) == ["F", "F ", "M"]
    ensures SortedDistinct(["P", "P", "A", "A"]) == ["A", "P"]
    ensures SortedDistinct(["m", "m", "f", "f"]) == ["f", "m"]
  {
    SortedFM();
    SortedMixed();
    SortedSpaced();
    SortedAP();
    SortedLower();
  }

  // ---------------------------------------------------------------------
  // tests/test_DesignMatrix.py

  const AgeMale: seq<string> := ["age", "male"]

  /** A word that neither starts nor ends with whitespace is its own strip. */
  lemma Word(w: string)
    requires w != [] && !IsSpace(w[0]) && !IsSpace(w[|w| - 1])
    ensures Strip(w) == w
  {
    assert LeadCount(w) == 0;
    assert w[LeadCount(w)..] == w;
    assert TrailCount(w) == 0;
  }

  /** A non-empty word of small ASCII letters, as the test column names are. */
  predicate LowerWord(w: string) {
    w != [] && forall k :: 0 <= k < |w| ==> 'a' <= w[k] <= 'z'
  }

  /** Names made of small letters meet what parsing a rendered formula asks of its IVs. */
  lemma PlainNames(ivs: seq<string>, columns: set<string>)
    requires forall k :: 0 <= k < |ivs| ==> LowerWord(ivs[k]) && ivs[k] in columns
    ensures forall k :: 0 <= k < |ivs| ==>
              '+' !in ivs[k] && ' ' !in ivs[k] && Strip(ivs[k]) == ivs[k] && ivs[k] in columns
  {
    forall k | 0 <= k < |ivs|
      ensures '+' !in ivs[k] && ' ' !in ivs[k] && Strip(ivs[k]) == ivs[k]
    {
      Word(ivs[k]);
    }
  }

  lemma SpacedTwo(dv: string, a: string, b: string)
    ensures dv + " ~ " + Join([a, b], " + ") == dv + (" ~ " + (a + (" + " + b)))
  {
    assert [a, b][1..] == [b];
  }

  lemma SpacedThree(dv: string, a: string, b: string, c: string)
    ensures dv + " ~ " + Join([a, b, c], " + ") == dv + (" ~ " + (a + (" + " + (b + (" + " + c)))))
  {
    assert [a, b, c][1..] == [b, c];
    assert [b, c][1..] == [c];
    assert Join([b, c], " + ") == b + " + " + c;
    assert Join([a, b, c], " + ") == a + " + " + (b + " + " + c);
  }

  lemma SimpleNames()
    ensures forall k :: 0 <= k < |AgeMale| ==> LowerWord(AgeMale[k]) && AgeMale[k] in SimpleData().columns.Keys
    ensures forall k :: 0 <= k < |AgeMale| ==> LowerWord(AgeMale[k]) && AgeMale[k] in RegData().columns.Keys
  {
    assert LowerWord("age") && LowerWord("male");
  }

  lemma ScoreAgeMaleText()
    ensures "score ~ age + male" == "score" + " ~ " + Join(AgeMale, " + ")
  {
    SpacedTwo("score", "age", "male");
    assert "score ~ age + male" == "score" + (" ~ " + ("age" + (" + " + "male")));
  }

  lemma ScorAgeMaleText()
    ensures "scor ~ age + male" == "scor" + " ~ " + Join(AgeMale, " + ")
  {
    SpacedTwo("scor", "age", "male");
    assert "scor ~ age + male" == "scor" + (" ~ " + ("age" + (" + " + "male")));
  }

  /** test_DV_IVs: `score ~ age + male` gives DV `score` and IVs `age`, `male`. */
  lemma ParseGood()
    ensures Parse(RemoveSpaces("score ~ age + male"), SimpleData().columns.Keys) == Success(FormulaSpec("score", AgeMale))
  {
    ScoreAgeMaleText();
    SimpleNames();
    PlainNames(AgeMale, SimpleData().columns.Keys);
    ParseSpacedFormula("score", AgeMale, SimpleData().columns.Keys);
  }

  /** test_bad_DV: `scor` is not a column. */
  lemma ParseBadDV()
    ensures Parse(RemoveSpaces("scor ~ age + male"), SimpleData().columns.Keys) == Failure(UnknownDV)
  {
    ScorAgeMaleText();
    SimpleNames();
    PlainNames(AgeMale, SimpleData().columns.Keys);
    SimpleColumns();
    ParseSpacedBadDV("scor", AgeMale, SimpleData().columns.Keys);
  }

  lemma SimpleColumns()
    ensures SimpleData().columns.Keys == {"age", "male", "tx", "score"}
  {
  }

  lemma GenderUnknown()
    ensures FirstUnknown(["age", "gender"], {"age", "male", "tx", "score"}) == 1
  {
    var cols := {"age", "male", "tx", "score"};
    assert ["age", "gender"][1..] == ["gender"];
    assert "gender" !in cols;
    assert FirstUnknown(["gender"], cols) == 0;
  }

  lemma GenderFormula()
    ensures RemoveSpaces("score ~ age + gender") == "score" + "~" + Join(["age", "gender"], "+")
  {
    var g := ["age", "gender"];
    assert "score ~ age + gender" == "score" + " ~ " + Join(g, " + ");
    SpacedJoin(g);
    SpacedTilde("score", Join(g, " + "));
  }

  lemma GenderCandidates()
    ensures Candidates("score" + "~" + Join(["age", "gender"], "+")) == ["age", "gender"]
  {
    var g := ["age", "gender"];
    Word("age");
    Word("gender");
    forall k | 0 <= k < |g|
      ensures '+' !in g[k] && Strip(g[k]) == g[k]
    {
    }
    CandidatesRendered("score", g);
  }

  lemma GenderDV()
    ensures ExtractDV("score" + "~" + Join(["age", "gender"], "+"), SimpleData().columns.Keys) == Success("score")
  {
    var f := "score" + "~" + Join(["age", "gender"], "+");
    assert f == "score" + ("~" + Join(["age", "gender"], "+"));
    assert f[..5] == "score";
    assert f[5] == '~' && '~' !in f[..5];
    FirstTildeUnique(f, 5);
    SimpleColumns();
  }

  lemma GenderIVs()
    ensures ExtractIVs("score" + "~" + Join(["age", "gender"], "+"), SimpleData().columns.Keys) == Failure(UnknownIV("gender"))
  {
    GenderCandidates();
    SimpleColumns();
    GenderUnknown();
  }

  /** test_bad_IV: `gender` is not a column. */
  lemma ParseBadIV()
    ensures Parse(RemoveSpaces("score ~ age + gender"), SimpleData().columns.Keys) == Failure(UnknownIV("gender"))
  {
    GenderFormula();
    GenderDV();
    GenderIVs();
  }

  lemma FixtureColumns()
    ensures ColumnsKnown(SimpleData(), AgeMale)
    ensures ColumnsKnown(SimpleData(), AgeMale + ["tx"])
    ensures ColumnsKnown(RegData(), AgeMale)
    ensures ColumnsKnown(SimpleData(), ["age"]) && ColumnsKnown(RegData(), ["age"])
  {
  }

  /** With `age` numeric and `male` text with `n >= 2` distinct values, `make_X` succeeds with `n + 1` columns. */
  lemma AgeMaleWidth(data: Table, f: Flags, n: nat)
    requires "age" in data.columns && data.columns["age"].IntCol?
    requires IsTextIV(data, "male") && |SortedDistinct(Cells(data, "male", f))| == n && n >= 2
    ensures ColumnsKnown(data, AgeMale) && Width(data, AgeMale, f) == n + 1
  {
    assert AgeMale[..1] == ["age"];
    assert ["age"][..0] == [];
  }

  lemma AgeMaleShape(data: Table, f: Flags, policy: Policy, n: nat)
    requires data.Valid() && "age" in data.columns && data.columns["age"].IntCol?
    requires IsTextIV(data, "male") && |SortedDistinct(Cells(data, "male", f))| == n && n >= 2
    ensures ColumnsKnown(data, AgeMale)
    ensures MakeXSpec(data, AgeMale, f, policy, map[]).error.None?
    ensures MakeXSpec(data, AgeMale, f, policy, map[]).X.rows == data.nrow
    ensures MakeXSpec(data, AgeMale, f, policy, map[]).X.cols == n + 1
  {
    BuildSucceedsIff(data, AgeMale, f, policy, map[]);
    assert CodableOne(data, AgeMale[1], f, policy, map[]);
    AgeMaleWidth(data, f, n);
  }

  /** test_X_made_correctly, test_no_factor_manipulation, test_no_strip: widths 3, 5 and 4. */
  lemma WidthFixtures()
    ensures ColumnsKnown(SimpleData(), AgeMale)
    ensures var b := MakeXSpec(SimpleData(), AgeMale, DemoDefaults, Fallback, map[]);
            b.error.None? && b.X.rows == 4 && b.X.cols == 3
    ensures MakeXSpec(SimpleData(), AgeMale, Flags(true, false, false), Fallback, map[]).X.cols == 5
    ensures MakeXSpec(SimpleData(), AgeMale, Flags(false, true, false), Fallback, map[]).X.cols == 4
  {
    WidthDefault();
    WidthNoUpper();
    WidthNoStrip();
  }

  lemma WidthDefault()
    ensures ColumnsKnown(SimpleData(), AgeMale)
    ensures var b := MakeXSpec(SimpleData(), AgeMale, DemoDefaults, Fallback, map[]);
            b.error.None? && b.X.rows == 4 && b.X.cols == 3
  {
    SimpleShape();
    DefaultMaleCells();
    SortedFM();
    assert |SortedDistinct(Cells(SimpleData(), "male", DemoDefaults))| == 2;
    AgeMaleShape(SimpleData(), DemoDefaults, Fallback, 2);
  }

  lemma WidthNoUpper()
    ensures ColumnsKnown(SimpleData(), AgeMale)
    ensures MakeXSpec(SimpleData(), AgeMale, Flags(true, false, false), Fallback, map[]).X.cols == 5
  {
    SimpleShape();
    NoUpperMaleCells();
    SortedMixed();
    assert |SortedDistinct(Cells(SimpleData(), "male", Flags(true, false, false)))| == 4;
    AgeMaleShape(SimpleData(), Flags(true, false, false), Fallback, 4);
  }

  lemma WidthNoStrip()
    ensures ColumnsKnown(SimpleData(), AgeMale)
    ensures MakeXSpec(SimpleData(), AgeMale, Flags(false, true, false), Fallback, map[]).X.cols == 4
  {
    SimpleShape();
    NoStripMaleCells();
    SortedSpaced();
    assert |SortedDistinct(Cells(SimpleData(), "male", Flags(false, true, false)))| == 3;
    AgeMaleShape(SimpleData(), Flags(false, true, false), Fallback, 3);
  }

  lemma AgeMaleTextIn(data: Table)
    requires "age" in data.columns && data.columns["age"].IntCol? && IsTextIV(data, "male")
    ensures forall u :: TextIn(data, AgeMale, u) <==> u == "male"
  {
  }

  /** With one numeric IV `age` and one text IV `male` and no overrides, the maps describe `male` alone. */
  lemma AgeMaleOutcome(data: Table, f: Flags, bl: map<string, string>, lv: map<string, seq<string>>)
    requires "age" in data.columns && data.columns["age"].IntCol? && IsTextIV(data, "male")
    requires Outcome(data, AgeMale, f, map[], bl, lv)
    ensures Cells(data, "male", f) != []
    ensures "age" !in bl && "age" !in lv && "male" in bl && "male" in lv
    ensures bl["male"] == Min(Cells(data, "male", f))
    ensures lv["male"] == Levels(SortedDistinct(Cells(data, "male", f)), Min(Cells(data, "male", f)))
  {
    AgeMaleTextIn(data);
  }

  /** The maps after the default `make_X`: baseline `F`, other level `M`. */
  lemma DefaultMaps()
    ensures ColumnsKnown(SimpleData(), AgeMale)
    ensures var b := MakeXSpec(SimpleData(), AgeMale, DemoDefaults, Fallback, map[]);
            "age" !in b.baselines && "age" !in b.levels && "male" in b.baselines && "male" in b.levels
            && b.baselines["male"] == "F" && b.levels["male"] == ["M"]
  {
    SimpleShape();
    DefaultMaleCells();
    DefaultMaleMin();
    SortedFM();
    LevelsFM();
    AgeMaleMaps(SimpleData(), DemoDefaults, Fallback, ["M", "M", "F", "F"], "F", ["M"]);
  }

  /** With no overrides, a successful run on `age` and `male` leaves the minimum of `male` as its baseline. */
  lemma AgeMaleMaps(data: Table, f: Flags, policy: Policy, x: seq<string>, b: string, others: seq<string>)
    requires data.Valid() && "age" in data.columns && data.columns["age"].IntCol? && IsTextIV(data, "male")
    requires Cells(data, "male", f) == x && |SortedDistinct(x)| >= 2
    requires Min(x) == b && Levels(SortedDistinct(x), b) == others
    ensures ColumnsKnown(data, AgeMale)
    ensures var bb := MakeXSpec(data, AgeMale, f, policy, map[]);
            bb.error.None? && bb.X.rows == data.nrow && bb.X.cols == |SortedDistinct(x)| + 1
            && "age" !in bb.baselines && "age" !in bb.levels && "male" in bb.baselines && "male" in bb.levels
            && bb.baselines["male"] == b && bb.levels["male"] == others
  {
    AgeMaleShape(data, f, policy, |SortedDistinct(x)|);
    var bb := MakeXSpec(data, AgeMale, f, policy, map[]);
    BuildOutcome(data, AgeMale, f, policy, map[]);
    AgeMaleOutcome(data, f, bb.baselines, bb.levels);
  }

  lemma DefaultMaleMin()
    ensures Min(["M", "M", "F", "F"]) == "F"
  {
    assert !LexLess("M", "F") && !LexLess("F", "F");
    MinUnique(["M", "M", "F", "F"], "F");
  }

  lemma LevelsFM()
    ensures Levels(["F", "M"], "F") == ["M"]
  {
    var lv := Levels(["F", "M"], "F");
    assert lv[0] == "M";
  }

  lemma MaleLines()
    ensures BaselineLine("male", "F") == "'male': baseline = 'F'"
    ensures OthersLine("male", ["M"], 10) == "          others = 'M'"
  {
    MaleBaselineLine();
    MaleOthersLine();
  }

  lemma MaleBaselineLine()
    ensures BaselineLine("male", "F") == "'male': baseline = 'F'"
  {
  }

  lemma MaleOthersLine()
    ensures OthersLine("male", ["M"], 10) == "          others = 'M'"
  {
    assert Join(["M"], "', '") == "M";
    assert QuotedLevels(["M"], 10) == "'M'";
    var sp := Spaces(10);
    assert sp == "          ";
    assert sp + "others = " + "'M'" + "" == "          others = 'M'";
  }

  /** Given maps describing `male` alone, its two lines and no `KeyError`. */
  lemma MaleVarLines(bl: map<string, string>, lv: map<string, seq<string>>)
    requires "age" !in bl && "male" in bl && "male" in lv && bl["male"] == "F" && lv["male"] == ["M"]
    ensures VarLines(AgeMale, bl, lv, 10) == Shown(["'male': baseline = 'F'", "          others = 'M'"], None)
  {
    MaleLines();
    assert AgeMale[1..] == ["male"] && ["male"][1..] == [];
  }

  /** test_show_output: the three printed lines (the test's trailing "" is the final newline). */
  lemma ShowOutputFixture()
    ensures ColumnsKnown(SimpleData(), AgeMale)
    ensures var b := MakeXSpec(SimpleData(), AgeMale, DemoDefaults, Fallback, map[]);
            ShowFactorInfo(true, AgeMale, b.baselines, b.levels, 10)
              == Shown(["Factor details:", "'male': baseline = 'F'", "          others = 'M'"], None)
  {
    DefaultMaps();
    var b := MakeXSpec(SimpleData(), AgeMale, DemoDefaults, Fallback, map[]);
    MaleVarLines(b.baselines, b.levels);
  }

  /** With `age` numeric and `male` text with at least two distinct values, `make_X` succeeds whatever the overrides. */
  lemma AgeMaleSucceeds(data: Table, f: Flags, custom: map<string, string>)
    requires data.Valid() && "age" in data.columns && data.columns["age"].IntCol?
    requires IsTextIV(data, "male") && |SortedDistinct(Cells(data, "male", f))| >= 2
    ensures ColumnsKnown(data, AgeMale)
    ensures MakeXSpec(data, AgeMale, f, Fallback, custom).error.None?
  {
    BuildSucceedsIff(data, AgeMale, f, Fallback, custom);
    assert CodableOne(data, AgeMale[1], f, Fallback, custom);
    assert CodableOne(data, AgeMale[0], f, Fallback, custom);
  }

  /** test_lowercase: lower-casing and the override `m` give baseline `m`. */
  lemma LowercaseFixture()
    ensures ColumnsKnown(SimpleData(), AgeMale)
    ensures var b := MakeXSpec(SimpleData(), AgeMale, Flags(true, false, true), Fallback, map["male" := "m"]);
            b.error.None? && "male" in b.baselines && b.baselines["male"] == "m"
  {
    SimpleShape();
    LowerMaleCells();
    SortedLower();
    AgeMaleOverride(SimpleData(), Flags(true, false, true), ["m", "m", "f", "f"], "m");
  }

  /** An override of `male` that occurs among its values is the baseline a run on `age` and `male` keeps. */
  lemma AgeMaleOverride(data: Table, f: Flags, x: seq<string>, b: string)
    requires data.Valid() && "age" in data.columns && data.columns["age"].IntCol? && IsTextIV(data, "male")
    requires Cells(data, "male", f) == x && |SortedDistinct(x)| >= 2 && b in x
    ensures ColumnsKnown(data, AgeMale)
    ensures var bb := MakeXSpec(data, AgeMale, f, Fallback, map["male" := b]);
            bb.error.None? && "male" in bb.baselines && bb.baselines["male"] == b
  {
    var custom := map["male" := b];
    AgeMaleSucceeds(data, f, custom);
    BuildOutcome(data, AgeMale, f, Fallback, custom);
    AgeMaleTextIn(data);
    assert ChosenBaseline(custom, "male", x) == b;
  }

  const AgeMaleTx: seq<string> := ["age", "male", "tx"]
  const TxOverrides: map<string, string> := map["male" := "M", "tx" := "P"]

  /** The shape of `simpleData` that the three-IV fixture relies on. */
  ghost predicate ThreeShaped(data: Table, f: Flags) {
    data.Valid() && "age" in data.columns && data.columns["age"].IntCol?
    && IsTextIV(data, "male") && IsTextIV(data, "tx")
    && |SortedDistinct(Cells(data, "male", f))| >= 2 && |SortedDistinct(Cells(data, "tx", f))| >= 2
  }

  lemma ThreeSucceed(data: Table, f: Flags, custom: map<string, string>)
    requires ThreeShaped(data, f)
    ensures ColumnsKnown(data, AgeMaleTx)
    ensures MakeXSpec(data, AgeMaleTx, f, Fallback, custom).error.None?
  {
    BuildSucceedsIff(data, AgeMaleTx, f, Fallback, custom);
    ThreeCodable(data, f, custom);
  }

  lemma ThreeCodable(data: Table, f: Flags, custom: map<string, string>)
    requires ThreeShaped(data, f)
    ensures Codable(data, AgeMaleTx, f, Fallback, custom)
  {
    forall i | 0 <= i < |AgeMaleTx|
      ensures CodableOne(data, AgeMaleTx[i], f, Fallback, custom)
    {
      assert AgeMaleTx[i] == "age" || AgeMaleTx[i] == "male" || AgeMaleTx[i] == "tx";
    }
  }

  lemma ThreeBaselines(data: Table, f: Flags, custom: map<string, string>)
    requires ThreeShaped(data, f) && "male" in custom && "tx" in custom
    requires custom["male"] in Cells(data, "male", f) && custom["tx"] in Cells(data, "tx", f)
    ensures ColumnsKnown(data, AgeMaleTx)
    ensures var b := MakeXSpec(data, AgeMaleTx, f, Fallback, custom);
            b.error.None? && "tx" in b.baselines && b.baselines["tx"] == custom["tx"]
            && "male" in b.baselines && b.baselines["male"] == custom["male"]
            && "tx" in b.levels && b.levels["tx"] == Levels(SortedDistinct(Cells(data, "tx", f)), custom["tx"])
  {
    ThreeSucceed(data, f, custom);
    BuildOutcome(data, AgeMaleTx, f, Fallback, custom);
    assert TextIn(data, AgeMaleTx, "tx") && TextIn(data, AgeMaleTx, "male");
  }

  lemma SimpleThreeShaped()
    ensures ThreeShaped(SimpleData(), DemoDefaults)
    ensures Cells(SimpleData(), "male", DemoDefaults) == ["M", "M", "F", "F"]
    ensures Cells(SimpleData(), "tx", DemoDefaults) == ["P", "P", "A", "A"]
  {
    SimpleShape();
    DefaultMaleCells();
    DefaultTxCells();
    SortedFixtures();
  }

  lemma LevelsAP()
    ensures Levels(["A", "P"], "P") == ["A"]
  {
    var lv := Levels(["A", "P"], "P");
    assert lv[0] == "A";
  }

  /** test_custom_baselines: the overrides `M` and `P` occur, so they are kept. */
  lemma CustomBaselinesFixture()
    ensures ColumnsKnown(SimpleData(), AgeMaleTx)
    ensures var b := MakeXSpec(SimpleData(), AgeMaleTx, DemoDefaults, Fallback, TxOverrides);
            b.error.None? && "tx" in b.baselines && b.baselines["tx"] == "P"
            && "male" in b.baselines && b.baselines["male"] == "M"
            && "tx" in b.levels && b.levels["tx"] == ["A"]
  {
    SimpleThreeShaped();
    SortedFixtures();
    ThreeBaselines(SimpleData(), DemoDefaults, TxOverrides);
    LevelsAP();
  }

  lemma LiteralAP(x: seq<string>)
    ensures IndexOf(["A", "P"], "P") == 1
    ensures forall r :: 0 <= r < |x| ==> LiteralBlock(x, ["A", "P"], 1).cells[r][0] == Ind(x[r], "P")
  {
  }

  /** Before `tx` is recoded, `age` and a two-level `male` have left three columns. */
  lemma AgeMaleCols(data: Table, f: Flags, custom: map<string, string>)
    requires data.Valid() && "age" in data.columns && data.columns["age"].IntCol?
    requires IsTextIV(data, "male") && |SortedDistinct(Cells(data, "male", f))| == 2
    requires ColumnsKnown(data, AgeMale) && MakeXSpec(data, AgeMale, f, Fallback, custom).error.None?
    ensures MakeXSpec(data, AgeMale, f, Fallback, custom).X.cols == 3
  {
    AgeMaleWidth(data, f, 2);
  }

  lemma ThreeTxBaseline(data: Table, f: Flags, custom: map<string, string>)
    requires ThreeShaped(data, f) && "P" in Cells(data, "tx", f)
    requires "tx" in custom && custom["tx"] == "P"
    ensures ColumnsKnown(data, AgeMaleTx)
    ensures var b := MakeXSpec(data, AgeMaleTx, f, Fallback, custom);
            b.error.None? && "tx" in b.baselines && b.baselines["tx"] == "P"
  {
    ThreeSucceed(data, f, custom);
    BuildOutcome(data, AgeMaleTx, f, Fallback, custom);
    assert TextIn(data, AgeMaleTx, "tx");
  }

  /** The `tx` column of a three-IV run: the literal block's one column. */
  lemma ThreeTxColumn(data: Table, f: Flags, custom: map<string, string>)
    requires ThreeShaped(data, f) && |SortedDistinct(Cells(data, "male", f))| == 2
    requires SortedDistinct(Cells(data, "tx", f)) == ["A", "P"]
    requires "tx" in custom && custom["tx"] == "P"
    ensures ColumnsKnown(data, AgeMaleTx)
    ensures var b := MakeXSpec(data, AgeMaleTx, f, Fallback, custom);
            b.X.cols == 4 && forall r :: 0 <= r < data.nrow ==> b.X.cells[r][3] == Ind(Cells(data, "tx", f)[r], "P")
  {
    var x := Cells(data, "tx", f);
    assert "P" in x by { assert "P" in SortedDistinct(x); }
    ThreeTxBaseline(data, f, custom);
    LastTextBlock(data, AgeMaleTx, f, Fallback, custom);
    assert AgeMaleTx[..2] == AgeMale;
    AgeMaleCols(data, f, custom);
    LiteralAP(x);
    var b := MakeXSpec(data, AgeMaleTx, f, Fallback, custom);
    ColumnFromBlock(b.X, x, data.nrow);
  }

  lemma ColumnFromBlock(m: Matrix, x: seq<string>, nrow: nat)
    requires Shaped(m) && m.rows == nrow && m.cols == 4 && |x| == nrow
    requires forall r, c :: 0 <= r < nrow && 0 <= c < 1 ==> m.cells[r][3 + c] == LiteralBlock(x, ["A", "P"], 1).cells[r][c]
    ensures forall r :: 0 <= r < nrow ==> m.cells[r][3] == Ind(x[r], "P")
  {
    forall r | 0 <= r < nrow
      ensures m.cells[r][3] == Ind(x[r], "P")
    {
      assert m.cells[r][3 + 0] == LiteralBlock(x, ["A", "P"], 1).cells[r][0];
    }
  }

  /**
   * The same run, column by column: `tx` gets one column, and because its
   * baseline `P` is not its smallest level, that column indicates `P`
   * although `levels['tx']` is `['A']`. Row 0, a `P` row, holds a 1 there.
   */
  lemma CustomBaselinesColumn()
    ensures ColumnsKnown(SimpleData(), AgeMaleTx)
    ensures var b := MakeXSpec(SimpleData(), AgeMaleTx, DemoDefaults, Fallback, TxOverrides);
            b.X.cols == 4 && (forall r :: 0 <= r < 4 ==> b.X.cells[r][3] == Ind(["P", "P", "A", "A"][r], "P"))
            && b.X.cells[0][3] == 1.0
  {
    SimpleThreeShaped();
    SortedFixtures();
    ThreeTxColumn(SimpleData(), DemoDefaults, TxOverrides);
  }

  // ---------------------------------------------------------------------
  // test_Reg.py

  lemma RegMaleMin()
    ensures Min(["m", "m", "f", "f"]) == "f"
  {
    assert !LexLess("m", "f") && !LexLess("f", "f");
    MinUnique(["m", "m", "f", "f"], "f");
  }

  lemma Levelsfm()
    ensures Levels(["f", "m"], "f") == ["m"]
  {
    var lv := Levels(["f", "m"], "f");
    assert lv[0] == "m";
  }

  /** The state after Reg's `make_X`: baseline `f`, the single other level `m`, four rows, three columns. */
  lemma RegMaps()
    ensures ColumnsKnown(RegData(), AgeMale)
    ensures var b := MakeXSpec(RegData(), AgeMale, RegDefaults, NoFallback, map[]);
            b.error.None? && b.X.rows == 4 && b.X.cols == 3
            && "age" !in b.levels && "male" in b.levels && b.levels["male"] == ["m"]
            && "male" in b.baselines && b.baselines["male"] == "f"
  {
    RegShape();
    RegMaleCells();
    RegMaleMin();
    SortedLower();
    Levelsfm();
    AgeMaleMaps(RegData(), RegDefaults, NoFallback, ["m", "m", "f", "f"], "f", ["m"]);
  }

  lemma AgeMaleNames(levels: map<string, seq<string>>)
    requires "age" !in levels && "male" in levels && levels["male"] == ["m"]
    ensures CoefNames(AgeMale, levels) == ["Intercept", "age", "male.m"]
  {
    assert AgeMale[..1] == ["age"] && ["age"][..0] == [];
    var names := IVNames("male", levels);
    assert names[0] == "male" + "." + "m";
    var dotted := "male" + "." + "m";
    assert dotted[4] == '.' && dotted[5] == 'm';
    assert dotted == "male.m";
    assert names == [dotted];
  }

  /** test_X_correct and test_fit_correct: a 4 by 3 matrix, names Intercept, age, male.m, and `df == 1`. */
  lemma RegFitFixture()
    ensures ColumnsKnown(RegData(), AgeMale)
    ensures var b := MakeXSpec(RegData(), AgeMale, RegDefaults, NoFallback, map[]);
            b.error.None? && b.X.rows == 4 && b.X.cols == 3
            && CoefNames(AgeMale, b.levels) == ["Intercept", "age", "male.m"]
            && RegData().nrow - b.X.cols == 1
  {
    RegMaps();
    var b := MakeXSpec(RegData(), AgeMale, RegDefaults, NoFallback, map[]);
    AgeMaleNames(b.levels);
  }
}
