/**
 * `extract_DV` and `extract_IVs`: split a space-free formula at its first `~`,
 * take the text before it as the dependent variable and the `+`-separated,
 * stripped pieces after it as the independent variables, and check each name
 * against the DataFrame's columns. The same code stands in
 * demoReg/DesignMatrix.py and Reg.py; only the messages differ.
 */
module Formula {
  import opened Outcomes
  import opened PyText

  datatype ParseError = NoTilde | UnknownDV | UnknownIV(name: string)

  datatype FormulaSpec = FormulaSpec(dv: string, ivs: seq<string>)

  /** The first `~` of a string is the only `~` with none before it. */
  lemma FirstTildeUnique(formula: string, i: nat)
    requires i < |formula| && formula[i] == '~' && '~' !in formula[..i]
    ensures Find(formula, '~') == i
  {
  }

  /** `extract_DV`: the text before the first `~`, which must name a column. */
  function ExtractDV(formula: string, columns: set<string>): (r: Result<string, ParseError>)
    ensures r == Failure(NoTilde) <==> '~' !in formula
    ensures r.Failure? ==> r.error.NoTilde? || r.error.UnknownDV?
    ensures r.Success? ==> r.value in columns && '~' !in r.value
    ensures r.Success? ==> |r.value| < |formula| && formula[..|r.value|] == r.value && formula[|r.value|] == '~'
    ensures forall i :: 0 <= i < |formula| && formula[i] == '~' && '~' !in formula[..i] ==>
              (r.Success? <==> formula[..i] in columns)
  {
    var tilde := Find(formula, '~');
    if tilde == -1 then Failure(NoTilde)
    else
      var dv := formula[..tilde];
      FirstTildeAll(formula);
      if dv !in columns then Failure(UnknownDV) else Success(dv)
  }

  lemma FirstTildeAll(formula: string)
    ensures forall i :: 0 <= i < |formula| && formula[i] == '~' && '~' !in formula[..i] ==> Find(formula, '~') == i
  {
    forall i | 0 <= i < |formula| && formula[i] == '~' && '~' !in formula[..i] {
      FirstTildeUnique(formula, i);
    }
  }

  /** The candidate IV names: the stripped `+`-pieces after the first `~`. */
  function Candidates(formula: string): (ivs: seq<string>)
    requires '~' in formula
    ensures |ivs| >= 1
  {
    var pieces := Split(formula[Find(formula, '~') + 1..], '+');
    seq(|pieces|, k requires 0 <= k < |pieces| => Strip(pieces[k]))
  }

  /** Position of the first name that is not a column (|ivs| when there is none). */
  function FirstUnknown(ivs: seq<string>, columns: set<string>): (k: nat)
    ensures k <= |ivs|
    ensures forall j :: 0 <= j < k ==> ivs[j] in columns
    ensures k < |ivs| ==> ivs[k] !in columns
  {
    if ivs == [] || ivs[0] !in columns then 0
    else 1 + FirstUnknown(ivs[1..], columns)
  }

  /** `extract_IVs`: every candidate must be a column; the first one that is not is reported. */
  function ExtractIVs(formula: string, columns: set<string>): (r: Result<seq<string>, ParseError>)
    ensures r == Failure(NoTilde) <==> '~' !in formula
    ensures r.Success? ==> r.value == Candidates(formula)
    ensures r.Success? ==> forall k :: 0 <= k < |r.value| ==> r.value[k] in columns
    ensures r.Failure? && r.error.UnknownIV? ==>
              var ivs := Candidates(formula);
              var k := FirstUnknown(ivs, columns);
              k < |ivs| && r.error.name == ivs[k] && ivs[k] !in columns &&
              forall j :: 0 <= j < k ==> ivs[j] in columns
    ensures r.Failure? ==> r.error.NoTilde? || r.error.UnknownIV?
  {
    if '~' !in formula then Failure(NoTilde)
    else
      var ivs := Candidates(formula);
      var k := FirstUnknown(ivs, columns);
      if k < |ivs| then Failure(UnknownIV(ivs[k])) else Success(ivs)
  }

  /** The constructor's order: the DV is extracted (and checked) before the IVs. */
  function Parse(formula: string, columns: set<string>): (r: Result<FormulaSpec, ParseError>)
    ensures r.Success? <==> ExtractDV(formula, columns).Success? && ExtractIVs(formula, columns).Success?
    ensures r.Failure? && r.error.UnknownIV? ==> ExtractDV(formula, columns).Success?
    ensures r.Success? ==> r.value.dv in columns && forall k :: 0 <= k < |r.value.ivs| ==> r.value.ivs[k] in columns
  {
    match ExtractDV(formula, columns)
    case Failure(e) => Failure(e)
    case Success(dv) =>
      match ExtractIVs(formula, columns)
      case Failure(e) => Failure(e)
      case Success(ivs) => Success(FormulaSpec(dv, ivs))
  }

  /** `extract_DV` of `dv~rest` looks only at `dv`. */
  lemma DVRendered(dv: string, rest: string, columns: set<string>)
    requires '~' !in dv
    ensures ExtractDV(dv + "~" + rest, columns) == if dv in columns then Success(dv) else Failure(UnknownDV)
  {
    var f := dv + "~" + rest;
    FindAfter(dv, '~', rest);
    assert f[..|dv|] == dv;
  }

  /** `extract_IVs` of a rendered formula whose names are all columns gives the names back. */
  lemma IVsRendered(dv: string, ivs: seq<string>, columns: set<string>)
    requires '~' !in dv
    requires |ivs| >= 1
    requires forall k :: 0 <= k < |ivs| ==> '+' !in ivs[k] && Strip(ivs[k]) == ivs[k] && ivs[k] in columns
    ensures ExtractIVs(dv + "~" + Join(ivs, "+"), columns) == Success(ivs)
  {
    CandidatesRendered(dv, ivs);
    assert FirstUnknown(ivs, columns) == |ivs|;
  }

  /** Writing a formula out and parsing it gives back its DV and its IVs, in order and with repeats. */
  lemma ParseRendered(dv: string, ivs: seq<string>, columns: set<string>)
    requires '~' !in dv && dv in columns
    requires |ivs| >= 1
    requires forall k :: 0 <= k < |ivs| ==> '+' !in ivs[k] && Strip(ivs[k]) == ivs[k] && ivs[k] in columns
    ensures Parse(dv + "~" + Join(ivs, "+"), columns) == Success(FormulaSpec(dv, ivs))
  {
    DVRendered(dv, Join(ivs, "+"), columns);
    IVsRendered(dv, ivs, columns);
  }

  lemma CandidatesRendered(dv: string, ivs: seq<string>)
    requires '~' !in dv
    requires |ivs| >= 1
    requires forall k :: 0 <= k < |ivs| ==> '+' !in ivs[k] && Strip(ivs[k]) == ivs[k]
    ensures '~' in dv + "~" + Join(ivs, "+")
    ensures Find(dv + "~" + Join(ivs, "+"), '~') == |dv|
    ensures Candidates(dv + "~" + Join(ivs, "+")) == ivs
  {
    var j := Join(ivs, "+");
    var f := dv + "~" + j;
    FindAfter(dv, '~', j);
    assert f[|dv|] == '~';
    assert f[|dv| + 1..] == j;
    SplitJoin(ivs, '+');
    var pieces := Split(j, '+');
    assert pieces == ivs;
    var c := Candidates(f);
    assert |c| == |ivs|;
    forall k | 0 <= k < |ivs|
      ensures c[k] == ivs[k]
    {
    }
  }

  /** With space-free names, the spaces around `~` and `+` vanish under `replace(" ", "")`. */
  lemma {:induction false} SpacedJoin(ivs: seq<string>)
    requires forall k :: 0 <= k < |ivs| ==> ' ' !in ivs[k]
    ensures RemoveSpaces(Join(ivs, " + ")) == Join(ivs, "+")
    decreases |ivs|
  {
    if |ivs| > 1 {
      SpacedJoin(ivs[1..]);
      RemoveSpacesAppend(ivs[0], " + " + Join(ivs[1..], " + "));
      RemoveSpacesAppend(" + ", Join(ivs[1..], " + "));
      assert RemoveSpaces(" + ") == "+" by {
        assert " + "[1..] == "+ ";
        assert "+ "[1..] == " ";
        assert " "[1..] == "";
      }
      assert ivs[0] + " + " + Join(ivs[1..], " + ") == ivs[0] + (" + " + Join(ivs[1..], " + "));
    }
  }

  lemma ParseSpacedFormula(dv: string, ivs: seq<string>, columns: set<string>)
    requires '~' !in dv && ' ' !in dv && dv in columns
    requires |ivs| >= 1
    requires forall k :: 0 <= k < |ivs| ==> '+' !in ivs[k] && ' ' !in ivs[k] && Strip(ivs[k]) == ivs[k] && ivs[k] in columns
    ensures Parse(RemoveSpaces(dv + " ~ " + Join(ivs, " + ")), columns) == Success(FormulaSpec(dv, ivs))
  {
    SpacedJoin(ivs);
    SpacedTilde(dv, Join(ivs, " + "));
    ParseRendered(dv, ivs, columns);
  }

  /** A formula whose DV is not a column fails on the DV, whatever its IVs. */
  lemma ParseSpacedBadDV(dv: string, ivs: seq<string>, columns: set<string>)
    requires '~' !in dv && ' ' !in dv && dv !in columns
    requires forall k :: 0 <= k < |ivs| ==> ' ' !in ivs[k]
    ensures Parse(RemoveSpaces(dv + " ~ " + Join(ivs, " + ")), columns) == Failure(UnknownDV)
  {
    SpacedJoin(ivs);
    SpacedTilde(dv, Join(ivs, " + "));
    DVRendered(dv, Join(ivs, "+"), columns);
  }

  lemma SpacedTilde(dv: string, rhs: string)
    requires ' ' !in dv
    ensures RemoveSpaces(dv + " ~ " + rhs) == dv + "~" + RemoveSpaces(rhs)
  {
    RemoveSpacesAppend(dv, " ~ " + rhs);
    RemoveSpacesAppend(" ~ ", rhs);
    assert RemoveSpaces(" ~ ") == "~" by {
      assert " ~ "[1..] == "~ ";
      assert "~ "[1..] == " ";
      assert " "[1..] == "";
    }
    assert dv + " ~ " + rhs == dv + (" ~ " + rhs);
  }

  /** The demoReg messages (demoReg/DesignMatrix.py): an unknown IV is quoted. */
  function DemoMessage(e: ParseError): (m: string)
    ensures e.UnknownIV? ==> |m| > |e.name| + 1 && m[..|e.name| + 2] == "'" + e.name + "'"
  {
    match e
    case NoTilde => "No tilde in formula"
    case UnknownDV => "DV from 'formula' not in 'data'"
    case UnknownIV(n) => "'" + n + "' from 'formula' not in 'data'"
  }

  /** The Reg.py messages: an unknown IV is named without quotes. */
  function RegMessage(e: ParseError): (m: string)
    ensures e.UnknownIV? ==> |m| > |e.name| && m[..|e.name|] == e.name
  {
    match e
    case NoTilde => "No tilde in formula"
    case UnknownDV => "DV from 'formula' not in 'data'"
    case UnknownIV(n) => n + " from 'formula' not in 'data'"
  }
}
