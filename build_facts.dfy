/**
 * What a run of `make_X` establishes, by induction over the IVs: when it
 * succeeds, which entries `baselines` and `levels` hold; exactly when it
 * succeeds; and that a second run, which starts from the aliased
 * `custom_baselines`, rebuilds the same matrix and prints nothing.
 */
module BuildFacts {
  import opened Outcomes
  import opened PyText
  import opened Frame
  import opened Treatment

  /** `u` is one of `ivs` and names a text column. */
  ghost predicate TextIn(data: Table, ivs: seq<string>, u: string) {
    u in ivs && IsTextIV(data, u)
  }

  /**
   * The IV `v` can be coded: if it is text, it has at least two distinct
   * normalised values, and where there is no fallback its override occurs
   * among them.
   */
  ghost predicate CodableOne(data: Table, v: string, f: Flags, policy: Policy, custom: map<string, string>) {
    IsTextIV(data, v) ==>
      |SortedDistinct(Cells(data, v, f))| >= 2
      && (policy.NoFallback? && v in custom ==> custom[v] in Cells(data, v, f))
  }

  ghost predicate Codable(data: Table, ivs: seq<string>, f: Flags, policy: Policy, custom: map<string, string>) {
    forall i :: 0 <= i < |ivs| ==> CodableOne(data, ivs[i], f, policy, custom)
  }

  /**
   * The maps a successful run leaves: `baselines` is `custom` plus one entry
   * per text IV, which is the override if it occurs and the minimum
   * otherwise; `levels` has exactly the text IVs, each the sorted distinct
   * values without its baseline.
   */
  ghost predicate Outcome(data: Table, ivs: seq<string>, f: Flags, custom: map<string, string>,
                          baselines: map<string, string>, levels: map<string, seq<string>>) {
    (forall u :: u in baselines <==> u in custom || TextIn(data, ivs, u))
    && (forall u :: TextIn(data, ivs, u) ==>
          Cells(data, u, f) != [] && baselines[u] == ChosenBaseline(custom, u, Cells(data, u, f))
          && baselines[u] in Cells(data, u, f))
    && (forall u :: u in custom && !TextIn(data, ivs, u) ==> baselines[u] == custom[u])
    && (forall u :: u in levels <==> TextIn(data, ivs, u))
    && (forall u :: u in levels ==>
          TextIn(data, ivs, u) && levels[u] == Levels(SortedDistinct(Cells(data, u, f)), baselines[u]))
  }

  lemma TextInSnoc(data: Table, init: seq<string>, v: string, u: string)
    ensures TextIn(data, init + [v], u) <==> TextIn(data, init, u) || (u == v && IsTextIV(data, v))
  {
    assert u in init + [v] <==> u in init || u == v;
  }

  /** Adding a text IV `v` whose baseline is the chosen one `c` extends an outcome by `v`. */
  lemma OutcomeExtend(data: Table, init: seq<string>, v: string, f: Flags, custom: map<string, string>,
                      baselines: map<string, string>, levels: map<string, seq<string>>, c: string)
    requires IsTextIV(data, v)
    requires Outcome(data, init, f, custom, baselines, levels)
    requires Cells(data, v, f) != [] && c == ChosenBaseline(custom, v, Cells(data, v, f)) && c in Cells(data, v, f)
    ensures Outcome(data, init + [v], f, custom, baselines[v := c],
                    levels[v := Levels(SortedDistinct(Cells(data, v, f)), c)])
  {
    var b2 := baselines[v := c];
    var l2 := levels[v := Levels(SortedDistinct(Cells(data, v, f)), c)];
    forall u
      ensures u in b2 <==> u in custom || TextIn(data, init + [v], u)
    {
      TextInSnoc(data, init, v, u);
    }
    forall u | TextIn(data, init + [v], u)
      ensures Cells(data, u, f) != [] && b2[u] == ChosenBaseline(custom, u, Cells(data, u, f))
              && b2[u] in Cells(data, u, f)
    {
      TextInSnoc(data, init, v, u);
      if u != v {
        assert TextIn(data, init, u);
      }
    }
    forall u | u in custom && !TextIn(data, init + [v], u)
      ensures b2[u] == custom[u]
    {
      TextInSnoc(data, init, v, u);
      assert u != v && !TextIn(data, init, u);
    }
    forall u
      ensures u in l2 <==> TextIn(data, init + [v], u)
    {
      TextInSnoc(data, init, v, u);
    }
    forall u | u in l2
      ensures TextIn(data, init + [v], u) && l2[u] == Levels(SortedDistinct(Cells(data, u, f)), b2[u])
    {
      TextInSnoc(data, init, v, u);
      if u != v {
        assert u in levels && b2[u] == baselines[u];
      }
    }
  }

  /** A successful `recode` of `v` extends the outcome of the IVs before it to one that includes `v`. */
  lemma OutcomeStep(data: Table, init: seq<string>, v: string, f: Flags, policy: Policy, custom: map<string, string>,
                    baselines: map<string, string>, levels: map<string, seq<string>>)
    requires data.Valid() && v in data.columns
    requires Outcome(data, init, f, custom, baselines, levels)
    requires RecodeSpec(data, v, f, policy, baselines, levels).block.Success?
    ensures var st := RecodeSpec(data, v, f, policy, baselines, levels);
            Outcome(data, init + [v], f, custom, st.baselines, st.levels)
  {
    var st := RecodeSpec(data, v, f, policy, baselines, levels);
    if IsTextIV(data, v) {
      var x := Cells(data, v, f);
      assert st == TextStep(v, x, policy, baselines, levels);
      TextStepSuccess(v, x, policy, baselines, levels);
      assert ChosenBaseline(baselines, v, x) == ChosenBaseline(custom, v, x);
      OutcomeExtend(data, init, v, f, custom, baselines, levels, st.baselines[v]);
    } else {
      forall u
        ensures TextIn(data, init + [v], u) <==> TextIn(data, init, u)
      {
        TextInSnoc(data, init, v, u);
      }
    }
  }

  lemma {:induction false} BuildOutcome(data: Table, ivs: seq<string>, f: Flags, policy: Policy, custom: map<string, string>)
    requires data.Valid() && ColumnsKnown(data, ivs)
    requires MakeXSpec(data, ivs, f, policy, custom).error.None?
    ensures var b := MakeXSpec(data, ivs, f, policy, custom);
            Outcome(data, ivs, f, custom, b.baselines, b.levels)
    decreases |ivs|
  {
    if ivs != [] {
      var init := ivs[..|ivs| - 1];
      var v := ivs[|ivs| - 1];
      assert ivs == init + [v];
      assert ColumnsKnown(data, init);
      var prev := MakeXSpec(data, init, f, policy, custom);
      BuildOutcome(data, init, f, policy, custom);
      OutcomeStep(data, init, v, f, policy, custom, prev.baselines, prev.levels);
    }
  }

  /** Given the outcome of the IVs before it, `recode` of `v` succeeds exactly when `v` can be coded (the override test is only new for an IV not seen before). */
  lemma SucceedStep(data: Table, init: seq<string>, v: string, f: Flags, policy: Policy, custom: map<string, string>,
                    baselines: map<string, string>, levels: map<string, seq<string>>)
    requires data.Valid() && v in data.columns
    requires Outcome(data, init, f, custom, baselines, levels)
    requires TextIn(data, init, v) ==> CodableOne(data, v, f, policy, custom)
    ensures RecodeSpec(data, v, f, policy, baselines, levels).block.Success? <==> CodableOne(data, v, f, policy, custom)
  {
    if IsTextIV(data, v) {
      var x := Cells(data, v, f);
      assert RecodeSpec(data, v, f, policy, baselines, levels) == TextStep(v, x, policy, baselines, levels);
      TextStepSuccess(v, x, policy, baselines, levels);
    }
  }

  lemma CodableSnoc(data: Table, init: seq<string>, v: string, f: Flags, policy: Policy, custom: map<string, string>)
    ensures Codable(data, init + [v], f, policy, custom) <==>
            Codable(data, init, f, policy, custom) && CodableOne(data, v, f, policy, custom)
  {
    var ivs := init + [v];
    assert forall i :: 0 <= i < |init| ==> init[i] == ivs[i];
    assert ivs[|init|] == v;
  }

  /** A run succeeds exactly when every text IV can be coded. */
  lemma {:induction false} BuildSucceedsIff(data: Table, ivs: seq<string>, f: Flags, policy: Policy, custom: map<string, string>)
    requires data.Valid() && ColumnsKnown(data, ivs)
    ensures MakeXSpec(data, ivs, f, policy, custom).error.None? <==> Codable(data, ivs, f, policy, custom)
    decreases |ivs|
  {
    if ivs != [] {
      var init := ivs[..|ivs| - 1];
      var v := ivs[|ivs| - 1];
      assert ivs == init + [v];
      assert ColumnsKnown(data, init);
      CodableSnoc(data, init, v, f, policy, custom);
      BuildSucceedsIff(data, init, f, policy, custom);
      var prev := MakeXSpec(data, init, f, policy, custom);
      if prev.error.None? {
        BuildOutcome(data, init, f, policy, custom);
        if TextIn(data, init, v) {
          CodableMember(data, init, v, f, policy, custom);
        }
        SucceedStep(data, init, v, f, policy, custom, prev.baselines, prev.levels);
        var st := RecodeSpec(data, v, f, policy, prev.baselines, prev.levels);
        assert MakeXSpec(data, ivs, f, policy, custom).error.None? <==> st.block.Success?;
      } else {
        assert MakeXSpec(data, ivs, f, policy, custom) == prev;
      }
    }
  }

  lemma CodableMember(data: Table, ivs: seq<string>, v: string, f: Flags, policy: Policy, custom: map<string, string>)
    requires Codable(data, ivs, f, policy, custom) && v in ivs
    ensures CodableOne(data, v, f, policy, custom)
  {
    var i :| 0 <= i < |ivs| && ivs[i] == v;
  }

  /** `recode` of `v` from `again`, which agrees on `v` with the baseline an earlier successful call settled on, repeats that call and prints nothing. */
  lemma RebuildStep(data: Table, v: string, f: Flags, policy: Policy, baselines: map<string, string>,
                    levels: map<string, seq<string>>, again: map<string, string>)
    requires data.Valid() && v in data.columns
    requires RecodeSpec(data, v, f, policy, baselines, levels).block.Success?
    requires IsTextIV(data, v) ==>
               v in again && again[v] == RecodeSpec(data, v, f, policy, baselines, levels).baselines[v]
    ensures var st1 := RecodeSpec(data, v, f, policy, baselines, levels);
            var st2 := RecodeSpec(data, v, f, policy, again, levels);
            st2.block == st1.block && st2.levels == st1.levels && st2.baselines == again && st2.printed == []
  {
    if IsTextIV(data, v) {
      var x := Cells(data, v, f);
      assert RecodeSpec(data, v, f, policy, baselines, levels) == TextStep(v, x, policy, baselines, levels);
      assert RecodeSpec(data, v, f, policy, again, levels) == TextStep(v, x, policy, again, levels);
      TextStepSuccess(v, x, policy, baselines, levels);
      TextStepSuccess(v, x, policy, again, levels);
      TextStepPrinted(v, x, policy, again, levels);
    }
  }

  /**
   * Running again from any `again` that agrees with a successful run's
   * baselines on the text IVs gives the same X and levels, keeps `again`, and
   * prints nothing.
   */
  lemma {:induction false} Rebuild(data: Table, ivs: seq<string>, f: Flags, policy: Policy,
                                   custom: map<string, string>, again: map<string, string>)
    requires data.Valid() && ColumnsKnown(data, ivs)
    requires MakeXSpec(data, ivs, f, policy, custom).error.None?
    requires forall u :: TextIn(data, ivs, u) ==>
               u in again && u in MakeXSpec(data, ivs, f, policy, custom).baselines
               && again[u] == MakeXSpec(data, ivs, f, policy, custom).baselines[u]
    ensures MakeXSpec(data, ivs, f, policy, again).error.None?
    ensures MakeXSpec(data, ivs, f, policy, again).X == MakeXSpec(data, ivs, f, policy, custom).X
    ensures MakeXSpec(data, ivs, f, policy, again).levels == MakeXSpec(data, ivs, f, policy, custom).levels
    ensures MakeXSpec(data, ivs, f, policy, again).baselines == again
    ensures MakeXSpec(data, ivs, f, policy, again).printed == []
    decreases |ivs|
  {
    if ivs != [] {
      var init := ivs[..|ivs| - 1];
      var v := ivs[|ivs| - 1];
      assert ivs == init + [v];
      assert ColumnsKnown(data, init);
      var b1 := MakeXSpec(data, ivs, f, policy, custom);
      var p1 := MakeXSpec(data, init, f, policy, custom);
      BuildOutcome(data, ivs, f, policy, custom);
      BuildOutcome(data, init, f, policy, custom);
      forall u | TextIn(data, init, u)
        ensures u in again && u in p1.baselines && again[u] == p1.baselines[u]
      {
        TextInSnoc(data, init, v, u);
      }
      Rebuild(data, init, f, policy, custom, again);
      TextInSnoc(data, init, v, v);
      RebuildStep(data, v, f, policy, p1.baselines, p1.levels, again);
    }
  }

  /**
   * After `make_X`, `custom_baselines` is the very dict `baselines`, so the
   * next `make_X` starts from the baselines just chosen: it rebuilds the same
   * state and prints no notice.
   */
  lemma MakeXIdempotent(data: Table, ivs: seq<string>, f: Flags, policy: Policy, custom: map<string, string>)
    requires data.Valid() && ColumnsKnown(data, ivs)
    requires MakeXSpec(data, ivs, f, policy, custom).error.None?
    ensures var b := MakeXSpec(data, ivs, f, policy, custom);
            MakeXSpec(data, ivs, f, policy, b.baselines) == Build(b.X, b.baselines, b.levels, [], None)
  {
    var b := MakeXSpec(data, ivs, f, policy, custom);
    BuildOutcome(data, ivs, f, policy, custom);
    Rebuild(data, ivs, f, policy, custom, b.baselines);
  }

  /** Once an IV has raised, the rest of the IVs are never recoded: the state is the one at the failure. */
  lemma {:induction false} BuildStopped(data: Table, ivs: seq<string>, j: nat, f: Flags, policy: Policy,
                                        custom: map<string, string>)
    requires data.Valid() && ColumnsKnown(data, ivs) && j <= |ivs|
    requires MakeXSpec(data, ivs[..j], f, policy, custom).error.Some?
    ensures MakeXSpec(data, ivs, f, policy, custom) == MakeXSpec(data, ivs[..j], f, policy, custom)
    decreases |ivs|
  {
    if j == |ivs| {
      assert ivs[..j] == ivs;
    } else {
      var init := ivs[..|ivs| - 1];
      assert init[..j] == ivs[..j];
      BuildStopped(data, init, j, f, policy, custom);
    }
  }

  /** One turn of the `make_X` loop, from the state after the first `i` IVs. */
  lemma MakeXStep(data: Table, ivs: seq<string>, i: nat, f: Flags, policy: Policy, custom: map<string, string>)
    requires data.Valid() && ColumnsKnown(data, ivs) && i < |ivs|
    requires ColumnsKnown(data, ivs[..i])
    requires MakeXSpec(data, ivs[..i], f, policy, custom).error.None?
    ensures ColumnsKnown(data, ivs[..i + 1])
    ensures var prev := MakeXSpec(data, ivs[..i], f, policy, custom);
            var st := RecodeSpec(data, ivs[i], f, policy, prev.baselines, prev.levels);
            MakeXSpec(data, ivs[..i + 1], f, policy, custom) ==
              if st.block.Failure? then Build(prev.X, st.baselines, st.levels, prev.printed + st.printed, Some(st.block.error))
              else Build(HConcat(prev.X, st.block.value), st.baselines, st.levels, prev.printed + st.printed, None)
  {
    assert ivs[..i + 1][..i] == ivs[..i];
    assert ivs[..i + 1][i] == ivs[i];
  }

  /**
   * One turn of the `make_X` loop as the classes run it: from the state `x0`,
   * `b0`, `l0`, `p0` after the first `i` IVs, a failing `recode` ends the
   * whole run and a successful one appends its block.
   */
  lemma MakeXTurn(data: Table, ivs: seq<string>, i: nat, f: Flags, policy: Policy, custom: map<string, string>,
                  x0: Matrix, b0: map<string, string>, l0: map<string, seq<string>>, p0: seq<string>)
    requires data.Valid() && ColumnsKnown(data, ivs) && i < |ivs|
    requires ColumnsKnown(data, ivs[..i])
    requires MakeXSpec(data, ivs[..i], f, policy, custom) == Build(x0, b0, l0, p0, None)
    ensures ColumnsKnown(data, ivs[..i + 1])
    ensures var st := RecodeSpec(data, ivs[i], f, policy, b0, l0);
            policy.NoFallback? ==> st.printed == []
    ensures var st := RecodeSpec(data, ivs[i], f, policy, b0, l0);
            st.block.Failure? ==>
              MakeXSpec(data, ivs, f, policy, custom)
                == Build(x0, st.baselines, st.levels, p0 + st.printed, Some(st.block.error))
    ensures var st := RecodeSpec(data, ivs[i], f, policy, b0, l0);
            st.block.Success? ==>
              MakeXSpec(data, ivs[..i + 1], f, policy, custom)
                == Build(HConcat(x0, st.block.value), st.baselines, st.levels, p0 + st.printed, None)
  {
    MakeXStep(data, ivs, i, f, policy, custom);
    var st := RecodeSpec(data, ivs[i], f, policy, b0, l0);
    if IsTextIV(data, ivs[i]) {
      assert st == TextStep(ivs[i], Cells(data, ivs[i], f), policy, b0, l0);
      TextStepPrinted(ivs[i], Cells(data, ivs[i], f), policy, b0, l0);
    }
    if st.block.Failure? {
      BuildStopped(data, ivs, i + 1, f, policy, custom);
    }
  }

  /** Without the fallback nothing is ever printed. */
  lemma {:induction false} NoFallbackSilent(data: Table, ivs: seq<string>, f: Flags, custom: map<string, string>)
    requires data.Valid() && ColumnsKnown(data, ivs)
    ensures MakeXSpec(data, ivs, f, NoFallback, custom).printed == []
    decreases |ivs|
  {
    if ivs != [] {
      var init := ivs[..|ivs| - 1];
      assert ColumnsKnown(data, init);
      NoFallbackSilent(data, init, f, custom);
      var v := ivs[|ivs| - 1];
      if IsTextIV(data, v) {
        var prev := MakeXSpec(data, init, f, NoFallback, custom);
        TextStepPrinted(v, Cells(data, v, f), NoFallback, prev.baselines, prev.levels);
      }
    }
  }

  /** The two policies differ only on an override that does not occur. */
  lemma TextStepPoliciesAgree(v: string, x: seq<string>, baselines: map<string, string>, levels: map<string, seq<string>>)
    requires v in baselines ==> baselines[v] in x
    ensures TextStep(v, x, Fallback, baselines, levels) == TextStep(v, x, NoFallback, baselines, levels)
  {
  }

  /**
   * When every override of a text IV occurs among its normalised values, the
   * fallback never fires and the two classes build the same state.
   */
  lemma {:induction false} PoliciesAgree(data: Table, ivs: seq<string>, f: Flags, custom: map<string, string>)
    requires data.Valid() && ColumnsKnown(data, ivs)
    requires forall u :: TextIn(data, ivs, u) && u in custom ==> custom[u] in Cells(data, u, f)
    ensures MakeXSpec(data, ivs, f, Fallback, custom) == MakeXSpec(data, ivs, f, NoFallback, custom)
    decreases |ivs|
  {
    if ivs != [] {
      var init := ivs[..|ivs| - 1];
      var v := ivs[|ivs| - 1];
      assert ivs == init + [v];
      assert ColumnsKnown(data, init);
      forall u | TextIn(data, init, u)
        ensures TextIn(data, ivs, u)
      {
        TextInSnoc(data, init, v, u);
      }
      PoliciesAgree(data, init, f, custom);
      var prev := MakeXSpec(data, init, f, Fallback, custom);
      if prev.error.None? && IsTextIV(data, v) {
        BuildOutcome(data, init, f, Fallback, custom);
        TextInSnoc(data, init, v, v);
        var x := Cells(data, v, f);
        assert v in prev.baselines ==> prev.baselines[v] in x;
        TextStepPoliciesAgree(v, x, prev.baselines, prev.levels);
        assert RecodeSpec(data, v, f, Fallback, prev.baselines, prev.levels)
            == RecodeSpec(data, v, f, NoFallback, prev.baselines, prev.levels);
      }
    }
  }

  /**
   * The columns a successful run appends for its last IV, when that IV is
   * text: the literal block of its normalised values, whose `bi`-th level is
   * the baseline the run chose.
   */
  lemma LastTextBlock(data: Table, ivs: seq<string>, f: Flags, policy: Policy, custom: map<string, string>)
    requires data.Valid() && ColumnsKnown(data, ivs) && ivs != []
    requires IsTextIV(data, ivs[|ivs| - 1])
    requires MakeXSpec(data, ivs, f, policy, custom).error.None?
    ensures ColumnsKnown(data, ivs[..|ivs| - 1])
    ensures var prev := MakeXSpec(data, ivs[..|ivs| - 1], f, policy, custom);
            var b := MakeXSpec(data, ivs, f, policy, custom);
            var v := ivs[|ivs| - 1];
            var x := Cells(data, v, f);
            var names := SortedDistinct(x);
            prev.error.None? && |x| == data.nrow && |names| >= 2 && v in b.baselines && b.baselines[v] in names
            && b.X.cols == prev.X.cols + |names| - 1
            && forall r, c :: 0 <= r < data.nrow && 0 <= c < |names| - 1 ==>
                 b.X.cells[r][prev.X.cols + c] == LiteralBlock(x, names, IndexOf(names, b.baselines[v])).cells[r][c]
  {
    var init := ivs[..|ivs| - 1];
    var v := ivs[|ivs| - 1];
    assert ColumnsKnown(data, init);
    var prev := MakeXSpec(data, init, f, policy, custom);
    var b := MakeXSpec(data, ivs, f, policy, custom);
    assert prev.error.None?;
    var x := Cells(data, v, f);
    assert |data.columns[v].texts| == data.nrow;
    var st := RecodeSpec(data, v, f, policy, prev.baselines, prev.levels);
    assert st == TextStep(v, x, policy, prev.baselines, prev.levels);
    TextStepSuccess(v, x, policy, prev.baselines, prev.levels);
    assert st.block.Success?;
    var m := st.block.value;
    assert b.X == HConcat(prev.X, m) && b.baselines == st.baselines;
    assert m == LiteralBlock(x, SortedDistinct(x), IndexOf(SortedDistinct(x), st.baselines[v]));
  }
}
