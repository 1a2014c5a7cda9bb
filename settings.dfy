/**
 * Argument validation of the setters: `set_baselines`, `set_one_baseline`
 * and the three flag setters of demoReg/DesignMatrix.py (lines 71-112) and
 * Reg.py (lines 73-115). Reg additionally requires each baseline value to be
 * in `self.data[key]`, which for a pandas Series tests the row index labels,
 * not the cells.
 */
module Settings {
  import opened Outcomes
  import opened Frame

  /** The exceptions the setters raise. */
  datatype SetError =
    | KeyNotStr                            // "keys must be 'str' objects"
    | KeyNotIV(key: string)                // "<key> is not one of the IVs"
    | ValueNotStr                          // "values must be 'str' objects"
    | ValueNotIndexed(value: string, key: string)  // "<value> is not in '<key>'"
    | VarNotStr                            // "'var' must be a 'str' object"
    | NotBool                              // TypeError "'value' must be a 'bool' object"
    | NoSuchAttribute                      // AttributeError: no field `custom_baseline`

  /** Which of the two classes' checks apply: Reg also tests the index labels. */
  datatype Checks = DesignChecks | RegChecks(indexLabels: set<string>)

  /** The checks of one dict entry, in the order the loop body makes them. */
  function CheckEntry(key: PyObject, value: PyObject, ivs: seq<string>, checks: Checks): (e: Option<SetError>)
    ensures e.None? <==> key.PyStr? && key.s in ivs && value.PyStr?
                         && (checks.RegChecks? ==> value.s in checks.indexLabels)
    ensures !key.PyStr? ==> e == Some(KeyNotStr)
    ensures key.PyStr? && key.s !in ivs ==> e == Some(KeyNotIV(key.s))
    ensures key.PyStr? && key.s in ivs && !value.PyStr? ==> e == Some(ValueNotStr)
    ensures key.PyStr? && key.s in ivs && value.PyStr? && checks.RegChecks? && value.s !in checks.indexLabels ==>
              e == Some(ValueNotIndexed(value.s, key.s))
  {
    if !key.PyStr? then Some(KeyNotStr)
    else if key.s !in ivs then Some(KeyNotIV(key.s))
    else if !value.PyStr? then Some(ValueNotStr)
    else if checks.RegChecks? && value.s !in checks.indexLabels then Some(ValueNotIndexed(value.s, key.s))
    else None
  }

  /** The error of the first bad entry, if any, scanning the dict in order. */
  function FirstBadEntry(entries: seq<(PyObject, PyObject)>, ivs: seq<string>, checks: Checks): (e: Option<SetError>)
  {
    if entries == [] then None
    else
      var e := CheckEntry(entries[0].0, entries[0].1, ivs, checks);
      if e.Some? then e else FirstBadEntry(entries[1..], ivs, checks)
  }

  /** The scan finds nothing exactly when every entry passes, and what it finds is the error of an entry after only good ones. */
  lemma {:induction false} FirstBadEntryMeaning(entries: seq<(PyObject, PyObject)>, ivs: seq<string>, checks: Checks)
    ensures FirstBadEntry(entries, ivs, checks).None? <==>
              forall i :: 0 <= i < |entries| ==> CheckEntry(entries[i].0, entries[i].1, ivs, checks).None?
    ensures FirstBadEntry(entries, ivs, checks).Some? ==>
              exists i :: 0 <= i < |entries| && FirstBadEntry(entries, ivs, checks) == CheckEntry(entries[i].0, entries[i].1, ivs, checks)
                          && forall j :: 0 <= j < i ==> CheckEntry(entries[j].0, entries[j].1, ivs, checks).None?
    decreases |entries|
  {
    if entries != [] {
      FirstBadEntryMeaning(entries[1..], ivs, checks);
      var e := FirstBadEntry(entries, ivs, checks);
      if CheckEntry(entries[0].0, entries[0].1, ivs, checks).None? && e.Some? {
        var i :| 0 <= i < |entries[1..]| && e == CheckEntry(entries[1..][i].0, entries[1..][i].1, ivs, checks)
                 && forall j :: 0 <= j < i ==> CheckEntry(entries[1..][j].0, entries[1..][j].1, ivs, checks).None?;
        assert entries[i + 1] == entries[1..][i];
        forall j | 1 <= j < i + 1
          ensures CheckEntry(entries[j].0, entries[j].1, ivs, checks).None?
        {
          assert entries[j] == entries[1..][j - 1];
        }
      }
    }
  }

  /** Scanning two dicts in turn: the first one's error if it has one, else the second's. */
  lemma {:induction false} FirstBadEntryAppend(a: seq<(PyObject, PyObject)>, b: seq<(PyObject, PyObject)>,
                                               ivs: seq<string>, checks: Checks)
    ensures FirstBadEntry(a + b, ivs, checks) ==
              if FirstBadEntry(a, ivs, checks).Some? then FirstBadEntry(a, ivs, checks) else FirstBadEntry(b, ivs, checks)
    decreases |a|
  {
    if a != [] {
      assert (a + b)[0] == a[0];
      assert (a + b)[1..] == a[1..] + b;
      FirstBadEntryAppend(a[1..], b, ivs, checks);
    } else {
      assert a + b == b;
    }
  }

  /** The prefix scan the setter's loop performs: after a clean prefix, the next entry decides. */
  lemma FirstBadEntryPrefix(entries: seq<(PyObject, PyObject)>, i: nat, ivs: seq<string>, checks: Checks)
    requires i < |entries|
    requires FirstBadEntry(entries[..i], ivs, checks).None?
    ensures FirstBadEntry(entries[..i + 1], ivs, checks) == CheckEntry(entries[i].0, entries[i].1, ivs, checks)
  {
    assert entries[..i + 1] == entries[..i] + [entries[i]];
    FirstBadEntryAppend(entries[..i], [entries[i]], ivs, checks);
    assert [entries[i]][1..] == [];
  }

  /** Every key and every value of the dict is a `str`. */
  predicate AllStrings(entries: seq<(PyObject, PyObject)>) {
    forall i :: 0 <= i < |entries| ==> entries[i].0.PyStr? && entries[i].1.PyStr?
  }

  /** No later entry has the same key as entry `i`. */
  ghost predicate LastOfKey(entries: seq<(PyObject, PyObject)>, i: int)
    requires 0 <= i < |entries|
  {
    forall j :: i < j < |entries| ==> entries[j].0 != entries[i].0
  }

  /**
   * The dict as a map from key to value, defined when every key and value is
   * a string: each key maps to the value of its last entry, as a dict display
   * keeps the last binding of a repeated key.
   */
  function AsMap(entries: seq<(PyObject, PyObject)>): (m: map<string, string>)
    requires AllStrings(entries)
    ensures forall k :: k in m <==> exists i :: 0 <= i < |entries| && entries[i].0 == PyStr(k)
    ensures forall i :: 0 <= i < |entries| && LastOfKey(entries, i) ==>
              entries[i].0.s in m && m[entries[i].0.s] == entries[i].1.s
    decreases |entries|
  {
    if entries == [] then map[]
    else
      var n := |entries| - 1;
      var last := entries[n];
      var init := entries[..n];
      var m := AsMap(init);
      assert forall i :: 0 <= i < n ==> init[i] == entries[i];
      AsMapSnoc(entries, m);
      m[last.0.s := last.1.s]
  }

  /** Adding the last entry to the map of the others keeps every other key's last value. */
  lemma AsMapSnoc(entries: seq<(PyObject, PyObject)>, m: map<string, string>)
    requires AllStrings(entries) && entries != []
    requires forall i :: 0 <= i < |entries| - 1 && LastOfKey(entries[..|entries| - 1], i) ==>
               entries[i].0.s in m && m[entries[i].0.s] == entries[i].1.s
    ensures var last := entries[|entries| - 1];
            forall i :: 0 <= i < |entries| && LastOfKey(entries, i) ==>
              entries[i].0.s in m[last.0.s := last.1.s] && m[last.0.s := last.1.s][entries[i].0.s] == entries[i].1.s
  {
    var n := |entries| - 1;
    var last := entries[n];
    forall i | 0 <= i < |entries| && LastOfKey(entries, i)
      ensures entries[i].0.s in m[last.0.s := last.1.s] && m[last.0.s := last.1.s][entries[i].0.s] == entries[i].1.s
    {
      if i < n {
        assert entries[n].0 != entries[i].0;
        assert LastOfKey(entries[..n], i);
      }
    }
  }

  /** A dict that passes the checks maps IVs to strings. */
  lemma AcceptedKeysAreIVs(entries: seq<(PyObject, PyObject)>, ivs: seq<string>, checks: Checks)
    requires FirstBadEntry(entries, ivs, checks).None?
    ensures AllStrings(entries)
    ensures forall k :: k in AsMap(entries) ==> k in ivs
  {
    FirstBadEntryMeaning(entries, ivs, checks);
    forall k | k in AsMap(entries)
      ensures k in ivs
    {
      var i :| 0 <= i < |entries| && entries[i].0 == PyStr(k);
      assert CheckEntry(entries[i].0, entries[i].1, ivs, checks).None?;
    }
  }

  /**
   * With the default RangeIndex there are no string index labels, so Reg's
   * `set_baselines` accepts only the empty dict.
   */
  lemma RegRejectsWithoutLabels(entries: seq<(PyObject, PyObject)>, ivs: seq<string>)
    ensures FirstBadEntry(entries, ivs, RegChecks({})).None? <==> entries == []
  {
    FirstBadEntryMeaning(entries, ivs, RegChecks({}));
    if entries != [] {
      assert CheckEntry(entries[0].0, entries[0].1, ivs, RegChecks({})).Some?;
    }
  }

  /** The checks of `set_one_baseline`, before its assignment. */
  function CheckOne(v: PyObject, value: PyObject, ivs: seq<string>, checks: Checks): (e: Option<SetError>)
    ensures e.None? <==> v.PyStr? && v.s in ivs && value.PyStr?
                         && (checks.RegChecks? ==> value.s in checks.indexLabels)
    ensures !v.PyStr? ==> e == Some(VarNotStr)
    ensures v.PyStr? && v.s !in ivs ==> e == Some(KeyNotIV(v.s))
    ensures v.PyStr? && v.s in ivs && !value.PyStr? ==> e == Some(ValueNotStr)
    ensures v.PyStr? && v.s in ivs && value.PyStr? && checks.RegChecks? && value.s !in checks.indexLabels ==>
              e == Some(ValueNotIndexed(value.s, v.s))
  {
    if !v.PyStr? then Some(VarNotStr)
    else if v.s !in ivs then Some(KeyNotIV(v.s))
    else if !value.PyStr? then Some(ValueNotStr)
    else if checks.RegChecks? && value.s !in checks.indexLabels then Some(ValueNotIndexed(value.s, v.s))
    else None
  }
}
