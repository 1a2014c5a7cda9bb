/**
 * `show_factor_info` of demoReg/DesignMatrix.py (lines 164-179) as a function
 * from the state to the printed lines. Indexing `levels[var]` for an IV that
 * has a baseline but no levels raises KeyError after that IV's first line.
 */
module FactorInfo {
  import opened Outcomes
  import opened PyText
  import opened Formula

  /** The printed lines, and the missing key if a KeyError ended the output. */
  datatype Shown = Shown(lines: seq<string>, keyError: Option<string>)

  const NotRunMessage: string := ".make_X() whas not yet been run"
  const Header: string := "Factor details:"

  function Spaces(n: nat): (s: string)
    ensures |s| == n && forall k :: 0 <= k < n ==> s[k] == ' '
  {
    seq(n, k => ' ')
  }

  /** `'var': baseline = 'b'`. */
  function BaselineLine(v: string, b: string): string {
    "'" + v + "': baseline = '" + b + "'"
  }

  /** `val[:max_levels_shown]`: the first `maxShown` levels, or all of them when there are fewer. */
  function ShownLevels(lv: seq<string>, maxShown: nat): (s: seq<string>)
    ensures |s| == if |lv| <= maxShown then |lv| else maxShown
    ensures forall k :: 0 <= k < |s| ==> s[k] == lv[k]
  {
    if |lv| <= maxShown then lv else lv[..maxShown]
  }

  function Quote(s: string): string {
    "'" + s + "'"
  }

  function QuoteEach(ps: seq<string>): seq<string> {
    seq(|ps|, k requires 0 <= k < |ps| => Quote(ps[k]))
  }

  /**
   * `"'" + "', '".join(shown) + "'"`: the shown levels, each in quotes,
   * separated by `, `; a pair of quotes when none is shown.
   */
  function QuotedLevels(lv: seq<string>, maxShown: nat): (q: string)
    ensures ShownLevels(lv, maxShown) == [] ==> q == "''"
    ensures ShownLevels(lv, maxShown) != [] ==> q == Join(QuoteEach(ShownLevels(lv, maxShown)), ", ")
  {
    var shown := ShownLevels(lv, maxShown);
    var q := "'" + Join(shown, "', '") + "'";
    if shown != [] then QuotedJoin(shown); q else q
  }

  /** Joining by `', '` inside one outer pair of quotes is quoting each piece and joining by `, `. */
  lemma {:induction false} QuotedJoin(ps: seq<string>)
    requires ps != []
    ensures "'" + Join(ps, "', '") + "'" == Join(QuoteEach(ps), ", ")
    decreases |ps|
  {
    if |ps| >= 2 {
      var tail := Join(ps[1..], "', '");
      QuotedJoin(ps[1..]);
      assert QuoteEach(ps)[1..] == QuoteEach(ps[1..]);
      assert "', '" == "'" + ", " + "'";
      calc {
        "'" + Join(ps, "', '") + "'";
        "'" + (ps[0] + "', '" + tail) + "'";
        ("'" + ps[0] + "'") + ", " + ("'" + tail + "'");
        Quote(ps[0]) + ", " + Join(QuoteEach(ps[1..]), ", ");
        Join(QuoteEach(ps), ", ");
      }
    }
  }

  /** The indented `others = ...` line, with `, ...` when levels are cut off. */
  function OthersLine(v: string, lv: seq<string>, maxShown: nat): (line: string)
    ensures |line| >= 6 + |v| + 9 + 2
    ensures line[..6 + |v|] == Spaces(6 + |v|)
    ensures line[6 + |v|..6 + |v| + 9] == "others = "
    ensures line[6 + |v| + 9..] == QuotedLevels(lv, maxShown) + (if |lv| > maxShown then ", ..." else "")
  {
    var line := Spaces(6 + |v|) + "others = " + QuotedLevels(lv, maxShown) + (if |lv| > maxShown then ", ..." else "");
    assert line[..6 + |v|] == Spaces(6 + |v|);
    assert line[6 + |v| + 9..] == QuotedLevels(lv, maxShown) + (if |lv| > maxShown then ", ..." else "");
    line
  }

  /** The levels line ends in `, ...` exactly when some levels are not shown. */
  lemma OthersLineEnding(v: string, lv: seq<string>, maxShown: nat)
    ensures var line := OthersLine(v, lv, maxShown);
            (|lv| > maxShown ==> line[|line| - 5..] == ", ...")
            && (|lv| <= maxShown ==> line[|line| - 1] == '\'')
  {
  }

  /** The loop over the IVs: two lines per IV with a baseline, in IV order. */
  function VarLines(ivs: seq<string>, baselines: map<string, string>, levels: map<string, seq<string>>,
                    maxShown: nat): (s: Shown)
    decreases |ivs|
  {
    if ivs == [] then Shown([], None)
    else if ivs[0] !in baselines then VarLines(ivs[1..], baselines, levels, maxShown)
    else if ivs[0] !in levels then Shown([BaselineLine(ivs[0], baselines[ivs[0]])], Some(ivs[0]))
    else
      var rest := VarLines(ivs[1..], baselines, levels, maxShown);
      Shown([BaselineLine(ivs[0], baselines[ivs[0]]), OthersLine(ivs[0], levels[ivs[0]], maxShown)] + rest.lines,
            rest.keyError)
  }

  /** `show_factor_info`: only the not-yet-run message before the first `make_X`. */
  function ShowFactorInfo(built: bool, ivs: seq<string>, baselines: map<string, string>,
                          levels: map<string, seq<string>>, maxShown: nat): (s: Shown)
    ensures !built ==> s == Shown([NotRunMessage], None)
    ensures built ==> |s.lines| >= 1 && s.lines[0] == Header
  {
    if !built then Shown([NotRunMessage], None)
    else
      var v := VarLines(ivs, baselines, levels, maxShown);
      Shown([Header] + v.lines, v.keyError)
  }

  /** The IVs that have a baseline, in IV order with repeats: the ones described. */
  function Described(ivs: seq<string>, baselines: map<string, string>): (d: seq<string>)
    ensures forall k :: 0 <= k < |d| ==> d[k] in baselines && d[k] in ivs
    decreases |ivs|
  {
    if ivs == [] then []
    else if ivs[0] in baselines then [ivs[0]] + Described(ivs[1..], baselines)
    else Described(ivs[1..], baselines)
  }

  /** Every IV with a baseline is described. */
  lemma {:induction false} DescribedComplete(ivs: seq<string>, baselines: map<string, string>, v: string)
    requires v in ivs && v in baselines
    ensures v in Described(ivs, baselines)
    decreases |ivs|
  {
    if ivs[0] != v {
      assert v in ivs[1..];
      DescribedComplete(ivs[1..], baselines, v);
    }
  }

  /** The described IVs and the lines printed for them pair up: a baseline line and a levels line each. */
  ghost predicate Paired(lines: seq<string>, d: seq<string>, baselines: map<string, string>,
                         levels: map<string, seq<string>>, maxShown: nat) {
    |lines| == 2 * |d|
    && (forall k :: 0 <= k < |d| ==> d[k] in baselines && d[k] in levels)
    && (forall k :: 0 <= k < |d| ==> lines[2 * k] == BaselineLine(d[k], baselines[d[k]]))
    && (forall k :: 0 <= k < |d| ==> lines[2 * k + 1] == OthersLine(d[k], levels[d[k]], maxShown))
  }

  lemma PairedCons(lines: seq<string>, d: seq<string>, v: string, baselines: map<string, string>,
                   levels: map<string, seq<string>>, maxShown: nat)
    requires Paired(lines, d, baselines, levels, maxShown) && v in baselines && v in levels
    ensures Paired([BaselineLine(v, baselines[v]), OthersLine(v, levels[v], maxShown)] + lines, [v] + d,
                   baselines, levels, maxShown)
  {
    var l2 := [BaselineLine(v, baselines[v]), OthersLine(v, levels[v], maxShown)] + lines;
    var d2 := [v] + d;
    forall k | 1 <= k < |d2|
      ensures d2[k] in baselines && d2[k] in levels
      ensures l2[2 * k] == BaselineLine(d2[k], baselines[d2[k]])
      ensures l2[2 * k + 1] == OthersLine(d2[k], levels[d2[k]], maxShown)
    {
      assert d2[k] == d[k - 1];
      assert l2[2 * k] == lines[2 * (k - 1)];
      assert l2[2 * k + 1] == lines[2 * (k - 1) + 1];
    }
  }

  lemma {:induction false} VarLinesPaired(ivs: seq<string>, baselines: map<string, string>,
                                          levels: map<string, seq<string>>, maxShown: nat)
    requires forall v :: v in ivs && v in baselines ==> v in levels
    ensures var s := VarLines(ivs, baselines, levels, maxShown);
            s.keyError.None? && Paired(s.lines, Described(ivs, baselines), baselines, levels, maxShown)
    decreases |ivs|
  {
    if ivs != [] {
      assert forall v :: v in ivs[1..] ==> v in ivs;
      VarLinesPaired(ivs[1..], baselines, levels, maxShown);
      if ivs[0] in baselines {
        var rest := VarLines(ivs[1..], baselines, levels, maxShown);
        PairedCons(rest.lines, Described(ivs[1..], baselines), ivs[0], baselines, levels, maxShown);
      }
    }
  }

  /**
   * When every described IV has levels, nothing raises and the output is,
   * for the `k`-th described IV, its baseline line at `2k` and its levels
   * line at `2k + 1`.
   */
  lemma VarLinesComplete(ivs: seq<string>, baselines: map<string, string>,
                         levels: map<string, seq<string>>, maxShown: nat)
    requires forall v :: v in ivs && v in baselines ==> v in levels
    ensures var s := VarLines(ivs, baselines, levels, maxShown);
            var d := Described(ivs, baselines);
            s.keyError.None? && |s.lines| == 2 * |d|
            && (forall k :: 0 <= k < |d| ==> s.lines[2 * k] == BaselineLine(d[k], baselines[d[k]]))
            && (forall k :: 0 <= k < |d| ==> s.lines[2 * k + 1] == OthersLine(d[k], levels[d[k]], maxShown))
  {
    VarLinesPaired(ivs, baselines, levels, maxShown);
  }

  lemma {:induction false} VarLinesFirstUnlevelled(ivs: seq<string>, baselines: map<string, string>,
                                                   levels: map<string, seq<string>>, maxShown: nat)
    ensures var s := VarLines(ivs, baselines, levels, maxShown);
            var d := Described(ivs, baselines);
            var k := FirstUnknown(d, levels.Keys);
            s.keyError == (if k < |d| then Some(d[k]) else None) && (k < |d| ==> |s.lines| == 2 * k + 1)
    decreases |ivs|
  {
    if ivs != [] {
      VarLinesFirstUnlevelled(ivs[1..], baselines, levels, maxShown);
      var s := VarLines(ivs, baselines, levels, maxShown);
      var rest := VarLines(ivs[1..], baselines, levels, maxShown);
      var d := Described(ivs, baselines);
      var dt := Described(ivs[1..], baselines);
      if ivs[0] !in baselines {
        assert s == rest && d == dt;
      } else if ivs[0] !in levels {
        assert d[0] == ivs[0] && FirstUnknown(d, levels.Keys) == 0;
      } else {
        assert d == [ivs[0]] + dt;
        assert d[1..] == dt;
        var kt := FirstUnknown(dt, levels.Keys);
        assert FirstUnknown(d, levels.Keys) == 1 + kt;
        assert kt < |dt| ==> d[1 + kt] == dt[kt];
        assert s.keyError == rest.keyError;
        assert s.lines == [BaselineLine(ivs[0], baselines[ivs[0]]), OthersLine(ivs[0], levels[ivs[0]], maxShown)] + rest.lines;
      }
    }
  }

  /** A KeyError names the first described IV that has no levels; the IVs before it printed both lines. */
  lemma VarLinesKeyError(ivs: seq<string>, baselines: map<string, string>,
                         levels: map<string, seq<string>>, maxShown: nat)
    ensures var s := VarLines(ivs, baselines, levels, maxShown);
            var d := Described(ivs, baselines);
            s.keyError.Some? <==> exists k :: 0 <= k < |d| && d[k] !in levels
    ensures var s := VarLines(ivs, baselines, levels, maxShown);
            var d := Described(ivs, baselines);
            s.keyError.Some? ==>
              exists k :: 0 <= k < |d| && d[k] == s.keyError.value && d[k] !in levels
                          && (forall j :: 0 <= j < k ==> d[j] in levels) && |s.lines| == 2 * k + 1
  {
    VarLinesFirstUnlevelled(ivs, baselines, levels, maxShown);
    var d := Described(ivs, baselines);
    var k := FirstUnknown(d, levels.Keys);
    if k < |d| {
      assert d[k] !in levels;
    }
  }
}
