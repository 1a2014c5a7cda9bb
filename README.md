# demoReg design matrix, modelled in Dafny

This project models the part of demoReg that turns an R-style formula such as
`"score ~ age + male"` and a pandas table into a design matrix. The matrix is an
intercept column followed by one block per independent variable (IV):

- a float column is copied;
- an int column is widened to float;
- any other column is a factor. It is coded by treatment contrasts: one 0/1
  indicator column per level other than its baseline.

The translator appears three times in the repository, and each becomes a class
here:

- `DemoDesign.DesignMat` models class `DesignMat` in `demoReg/DesignMatrix.py`.
  It holds the parser, the setters, the baseline fallback, the encoding and the
  factor summary.
- `RegDesign.DesignMatrix` models the older class `DesignMatrix` in
  `DesignMatrix.py`. It reads its settings from a `reg` object, modelled as the
  record `RegDesign.RegView`. It has no fallback: an override missing from the
  data raises.
- `Regression.Reg` models class `Reg` in `Reg.py`. It covers the constructor's
  type checks, its own parser, the setters, `make_X`'s `p`, the coefficient names
  and `df` of `fit`.

The classes share a pure core:

- `PyText`: ASCII `strip`/`upper`/`lower`, `replace(" ", "")`, `find` and `split`.
  It also holds code-point lexicographic order (`LexLess`), `min`, and the sorted
  distinct values that `sorted(value_counts().index)` yields.
- `Frame`: tagged columns, tables and the Python objects that the setters
  type-check.
- `Formula`: `extract_DV` and `extract_IVs`.
- `Treatment`: normalisation, baseline choice, `levels`, and the indicator loop
  as the code writes it. It also holds `RecodeSpec` and `MakeXSpec`, the state
  that `recode` and `make_X` leave. Both are parameterised by the
  missing-override policy: `Fallback` (demoReg) or `NoFallback` (`DesignMatrix.py`).
- `BuildFacts`: inductive facts about `MakeXSpec`.
- `Settings`: entry validation of `set_baselines` and `set_one_baseline`.
- `FactorInfo`: `show_factor_info` as the list of lines it prints.

The methods of each class are proved against these functions. `Fixtures` and
`Scenarios` replay the repository's tests.

Three behaviours of the code are modelled exactly as written:

- **The bare `next` does nothing.** In the indicator loop
  (`demoReg/DesignMatrix.py:149-153`, `DesignMatrix.py:65-69`) the bare `next`
  does not skip the baseline. The baseline's own indicator is written too.
  `Treatment.FillIndicators` runs this loop over an `array2` with the offset and
  Python's `-1` column index. `Treatment.LiteralCorrectIffSmallest` proves the
  block is the intended treatment coding exactly when the baseline is the
  smallest level. `Treatment.LiteralMisplaces` says where the baseline's
  indicator lands otherwise (column `b - 1`). A factor with one level makes
  `X[:, -1]` fail (`IndexOutOfBounds`).
  `Fixtures.CustomBaselinesColumn` shows this on the test data: with baseline
  `P` for `tx`, the last column indicates `P` rather than `A`.
- **`baselines` is the same dict as `custom_baselines` after `make_X`.** Dafny
  maps are values, so `DesignMat` carries a flag `sharesBaselines`. `MakeX` sets
  it, `reset_baselines`/`set_baselines` clear it, and `set_one_baseline` writes
  both maps while it is set. `Reg.MakeX` copies the chosen baselines back into
  `customBaselines`.
- **`Reg.set_one_baseline` always fails once its checks pass.** It assigns to the
  misspelt attribute `self.custom_baseline`, which Python reports as an
  `AttributeError`.

The code is followed where the repository's prose describes it differently:

- `Reg` defaults to `tolower = True`, so the test fixture's coefficient is
  `male.m`, not `male.M`.
- `Reg.set_baselines` checks `value in self.data[key]`. This tests the Series
  index labels, not its values (`Frame.Table.indexLabels`).

Errors are values, not exceptions: `Outcomes.Result`/`Option` with `ParseError`,
`SetError`, `RecodeError` and `InitError`. A failed `make_X` leaves the state it
had reached when the exception escaped.

## Model

| member | source | states |
|---|---|---|
| PyText.Strip | demoReg/DesignMatrix.py:129 | the result is the input minus its maximal leading and trailing runs of whitespace; it neither begins nor ends with whitespace |
| PyText.StripIdempotent | demoReg/DesignMatrix.py:65 | stripping twice equals stripping once |
| PyText.Upper | demoReg/DesignMatrix.py:131 | same length; each ASCII small letter becomes its capital (32 code points lower) and every other character stays |
| PyText.Lower | demoReg/DesignMatrix.py:133 | same length; each ASCII capital becomes its small letter (32 code points higher) and every other character stays |
| PyText.LowerAfterUpper | demoReg/DesignMatrix.py:130-133 | lower-casing after upper-casing equals lower-casing alone |
| PyText.RemoveSpaces | demoReg/DesignMatrix.py:32 | no space is left, and every other character keeps its multiplicity |
| PyText.RemoveSpacesAppend | Reg.py:22 | removing spaces distributes over concatenation |
| PyText.Find | demoReg/DesignMatrix.py:52 | -1 exactly when the character is absent, else the index of its first occurrence |
| PyText.Split | demoReg/DesignMatrix.py:65 | at least one piece, no piece holds the separator, and joining the pieces with it gives the input back |
| PyText.SplitJoin | demoReg/DesignMatrix.py:65 | splitting a join of separator-free pieces gives the pieces back, empty pieces included |
| PyText.LexIrreflexive | demoReg/DesignMatrix.py:135 | the code-point order used by `min` and `sorted` is irreflexive |
| PyText.LexTransitive | demoReg/DesignMatrix.py:143 | the order is transitive |
| PyText.LexTotal | demoReg/DesignMatrix.py:143 | any two different strings are ordered |
| PyText.Min | demoReg/DesignMatrix.py:135 | `min(x)` is an element of `x` and no element is smaller |
| PyText.MinUnique | demoReg/DesignMatrix.py:139 | an element that no element undercuts is the minimum |
| PyText.SortedDistinct | demoReg/DesignMatrix.py:142-143 | strictly increasing, holds exactly the values of the input, non-empty when the input is |
| PyText.DistinctCount | demoReg/DesignMatrix.py:147 | its length is the number of distinct values (`len(cnts)`) |
| PyText.SortedUnique | demoReg/DesignMatrix.py:143 | two strictly sorted lists with the same members are equal |
| PyText.IndexOf | demoReg/DesignMatrix.py:150 | the index of the first occurrence |
| PyText.RemoveFirst | demoReg/DesignMatrix.py:145 | `list.remove` drops the first occurrence of `v` and keeps the rest in order |
| PyText.RemoveFirstCount | demoReg/DesignMatrix.py:145 | exactly one copy of `v` is taken away |
| Formula.ExtractDV | demoReg/DesignMatrix.py:50-57 | fails with NoTilde exactly when there is no `~`; on success the DV is the column-named prefix before the first `~` |
| Formula.ExtractIVs | demoReg/DesignMatrix.py:59-69 | fails with NoTilde exactly when there is no `~`; on success the IVs are the stripped `+` pieces, all columns; otherwise it names the first piece that is not a column, all before it being columns |
| Formula.FirstUnknown | demoReg/DesignMatrix.py:66-68 | every IV before the index is a column, and the one at it is not |
| Formula.Parse | demoReg/DesignMatrix.py:35-36 | succeeds exactly when both extractions do; the DV is checked before the IVs; on success every name is a column |
| Formula.ParseRendered | Reg.py:52-71 | a formula rendered as `dv~iv1+...+ivn` parses back to exactly that DV and those IVs |
| Formula.CandidatesRendered | Reg.py:66-67 | the right-hand side of a rendered formula splits back into its IVs |
| Formula.SpacedJoin | Reg.py:22 | removing spaces from `a + b + c` gives `a+b+c` |
| Formula.DVRendered | Reg.py:52-59 | the DV of a rendered formula is its left-hand side when that is a column, else UnknownDV |
| Formula.IVsRendered | Reg.py:61-71 | the IVs of a rendered formula whose IVs are columns are exactly those IVs |
| Formula.ParseSpacedBadDV | demoReg/DesignMatrix.py:50-57 | a spaced formula whose DV is not a column fails with UnknownDV, whatever its IVs |
| Formula.ParseSpacedFormula | demoReg/DesignMatrix.py:32-36 | a formula written with spaces, as in the tests, parses to its DV and IVs |
| Formula.DemoMessage | demoReg/DesignMatrix.py:68 | the unknown-IV message starts with the name in single quotes |
| Formula.RegMessage | Reg.py:70 | the unknown-IV message starts with the bare name |
| Treatment.Normalise | demoReg/DesignMatrix.py:127-133 | cell `i` of the result is cell `i` stripped, upper-cased and lower-cased as the switches say |
| Treatment.BothCaseSwitches | demoReg/DesignMatrix.py:130-133 | with both case switches on, a cell ends up as its (optionally stripped) lower-case form |
| Treatment.NormalisedCase | DesignMatrix.py:48-54 | with `tolower` on no capital survives; with only `toupper` on no small letter survives |
| Treatment.Ones | demoReg/DesignMatrix.py:160 | an `n x 1` matrix of ones |
| Treatment.HConcat | demoReg/DesignMatrix.py:162 | the left operand's columns, then the right's, row by row |
| Treatment.ColumnOf | demoReg/DesignMatrix.py:121 | one column holding the values in row order |
| Treatment.Widen | demoReg/DesignMatrix.py:123 | one float per int, of the same value |
| Treatment.Levels | demoReg/DesignMatrix.py:144-146 | strictly sorted, one shorter than the sorted levels, holds every level except the baseline, in sorted order |
| Treatment.LiteralBlock | demoReg/DesignMatrix.py:147 | `nrow` rows and one column fewer than there are levels |
| Treatment.IndicatorBlock | demoReg/DesignMatrix.py:147-153 | the intended coding has one column per non-baseline level |
| Treatment.TreatmentRows | demoReg/DesignMatrix.py:147-153 | under the intended coding a baseline row is all zeros, and any other row has its single 1 in its own level's column |
| Treatment.LiteralAtSmallest | demoReg/DesignMatrix.py:148-153 | with the smallest level as baseline, the loop as written yields the intended coding |
| Treatment.LiteralMisplaces | demoReg/DesignMatrix.py:150-153 | with the baseline at sorted index `b > 0`, column `b - 1` holds the baseline's indicator and every other column is as intended |
| Treatment.LiteralCorrectIffSmallest | DesignMatrix.py:64-69 | when every level occurs, the loop is right if and only if the baseline is the smallest level |
| Treatment.LastWriterStep | demoReg/DesignMatrix.py:149-153 | each step writes a column inside the block; which step last wrote each column advances by that write only |
| Treatment.FillIndicators | demoReg/DesignMatrix.py:147-154 | the filled array equals the literal block; it fails with IndexOutOfBounds exactly when there is one level |
| Treatment.Encode | DesignMatrix.py:58-70 | with the baseline fixed, `remove` raises NotInList when it is absent; otherwise `levels[var]` is updated and the block is the literal block, failing only for a single level |
| Treatment.MinStep | demoReg/DesignMatrix.py:134-146 | falling back to the minimum: `min([])` raises EmptyMin with nothing stored; otherwise the minimum is stored and the block succeeds exactly when there are two or more levels |
| Treatment.TextStep | demoReg/DesignMatrix.py:125-154 | a successful text block has one row per cell and one column fewer than there are levels |
| Treatment.TextStepSuccess | demoReg/DesignMatrix.py:134-154 | a text `recode` returns exactly when there are two or more levels and, without fallback, the override occurs; the baseline is then the kept override or the minimum and is among the cells, and `levels` and the block follow from it |
| Treatment.TextStepFailure | demoReg/DesignMatrix.py:135-154 | EmptyMin exactly for an empty column that reaches `min`; IndexOutOfBounds exactly for one level; on failure `baselines` is unchanged or holds the minimum |
| Treatment.TextStepPrinted | demoReg/DesignMatrix.py:136-140 | the two notices are printed exactly when a fallback override is absent, the second only when `min` returns |
| Treatment.RecodeSpec | DesignMatrix.py:42-70 | a numeric column gives one column and changes nothing: a float column's cells as they are, an int column's widened; every block has `nrow` rows |
| Treatment.MakeXSpec | demoReg/DesignMatrix.py:156-162 | X has `nrow` rows and a first column of ones; on success its width is 1 plus each IV's contribution |
| BuildFacts.TextInSnoc | DesignMatrix.py:77 | a text IV of a longer IV list is one of the shorter list's or the new one |
| BuildFacts.MakeXTurn | demoReg/DesignMatrix.py:161-162 | a failing `recode` ends the run with X as it was; a successful one extends the run by its block; without fallback nothing is printed |
| BuildFacts.TextStepPoliciesAgree | DesignMatrix.py:56-57 | when the override occurs (or there is none) the two files' text branches agree |
| BuildFacts.OutcomeExtend | demoReg/DesignMatrix.py:134-146 | coding one more text IV keeps the invariant relating `baselines` and `levels` to the overrides and the data |
| BuildFacts.OutcomeStep | DesignMatrix.py:55-62 | a successful `recode` keeps that invariant |
| BuildFacts.BuildOutcome | demoReg/DesignMatrix.py:156-162 | after a successful `make_X`, every text IV's baseline is the override it kept or the minimum, and lies among its cells; `levels` holds exactly the text IVs, each its sorted levels minus the baseline; other overrides stay |
| BuildFacts.SucceedStep | DesignMatrix.py:55-69 | one `recode` succeeds exactly when its IV is codable |
| BuildFacts.BuildSucceedsIff | DesignMatrix.py:72-78 | `make_X` succeeds if and only if every text IV has a usable baseline and at least two levels |
| BuildFacts.RebuildStep | DesignMatrix.py:55-56 | recoding from its own chosen baseline changes nothing |
| BuildFacts.Rebuild | demoReg/DesignMatrix.py:158 | rebuilding from overrides that name the chosen baselines gives the same X and levels, keeps the overrides and prints nothing |
| BuildFacts.MakeXIdempotent | demoReg/DesignMatrix.py:158-162 | a second `make_X` through the aliased map rebuilds the same X, baselines and levels and prints nothing |
| BuildFacts.BuildStopped | DesignMatrix.py:77-78 | once an IV raises, the later IVs change nothing |
| BuildFacts.MakeXStep | DesignMatrix.py:77-78 | one more IV either appends its block or stops with its error |
| BuildFacts.LastTextBlock | demoReg/DesignMatrix.py:147-154 | the last text IV's columns sit at the end of X and equal its literal block from its chosen baseline |
| BuildFacts.NoFallbackSilent | DesignMatrix.py:55-62 | without the fallback `make_X` prints nothing |
| BuildFacts.PoliciesAgree | demoReg/DesignMatrix.py:134-140 | when every override is present in its data, both policies build the same state |
| Settings.CheckEntry | demoReg/DesignMatrix.py:79-86 | an entry passes exactly when the key is a str naming an IV and the value is a str (and, for `Reg`, an index label); otherwise the error of the first failing check, each of the four named |
| Settings.FirstBadEntryMeaning | demoReg/DesignMatrix.py:79-87 | no error exactly when every entry passes; otherwise the error of the first failing entry, all before it passing |
| Settings.FirstBadEntryAppend | Reg.py:78-87 | checking `a + b` reports `a`'s error, else `b`'s |
| Settings.FirstBadEntryPrefix | Reg.py:78-87 | after a clean prefix the next entry's check decides |
| Settings.AsMap | demoReg/DesignMatrix.py:87 | the stored dictionary has exactly the entries' keys, each bound to the value of its last entry |
| Settings.AcceptedKeysAreIVs | demoReg/DesignMatrix.py:82-83 | accepted entries are all strings and their keys are IVs |
| Settings.RegRejectsWithoutLabels | Reg.py:86-87 | on a table with no string index labels, only an empty dictionary is accepted |
| Settings.CheckOne | demoReg/DesignMatrix.py:91-96 | passes exactly when `var` is a str naming an IV and `value` is a str (and, for `Reg`, an index label); otherwise the error of the first failing check, each of the four named |
| FactorInfo.Spaces | demoReg/DesignMatrix.py:175 | `n` spaces |
| FactorInfo.ShownLevels | demoReg/DesignMatrix.py:174 | the first `max_levels_shown` levels, or all when there are fewer |
| FactorInfo.QuotedLevels | demoReg/DesignMatrix.py:174 | the shown levels each in quotes, separated by `, `; `''` when none is shown |
| FactorInfo.QuotedJoin | demoReg/DesignMatrix.py:174 | joining by `', '` inside one pair of quotes equals quoting each level and joining by `, ` |
| FactorInfo.OthersLine | demoReg/DesignMatrix.py:174-179 | `6 + len(var)` spaces, then `others = `, then the quoted shown levels, then `, ...` when levels are cut off |
| FactorInfo.OthersLineEnding | demoReg/DesignMatrix.py:176-179 | ends in `, ...` exactly when levels are left unshown, else in a quote |
| FactorInfo.ShowFactorInfo | demoReg/DesignMatrix.py:164-168 | before `make_X`, only the not-run message; afterwards the header first |
| FactorInfo.Described | demoReg/DesignMatrix.py:169-170 | the summary covers only IVs with a baseline |
| FactorInfo.DescribedComplete | demoReg/DesignMatrix.py:169-170 | every IV with a baseline is covered |
| FactorInfo.VarLinesComplete | demoReg/DesignMatrix.py:169-179 | when every described IV has levels, two lines per IV in IV order: its baseline line, then its levels line |
| FactorInfo.VarLinesKeyError | demoReg/DesignMatrix.py:173 | a KeyError occurs exactly when a described IV has no levels; it names the first one, after both lines of each earlier IV and its own baseline line |
| DemoDesign.DesignMat.Init | demoReg/DesignMatrix.py:31-44 | the parsed DV and IVs, the switches strip, toupper and not tolower, empty maps, and no X |
| DemoDesign.DesignMat.Create | demoReg/DesignMatrix.py:31-36 | fails with the parse error of the space-free formula, else a fresh valid object on that table |
| DemoDesign.DesignMat.ResetBaselines | demoReg/DesignMatrix.py:71-72 | the overrides become empty and no longer alias `baselines` |
| DemoDesign.DesignMat.SetBaselines | demoReg/DesignMatrix.py:74-87 | the error of the first bad entry with nothing changed, else the overrides become exactly the entries, all keyed by IVs |
| DemoDesign.DesignMat.SetOneBaseline | demoReg/DesignMatrix.py:89-97 | the first failing check with nothing changed, else only that key is set, in `baselines` too while the two are aliased |
| DemoDesign.DesignMat.SetStrip | demoReg/DesignMatrix.py:99-102 | a bool is stored; anything else raises a type error and changes nothing |
| DemoDesign.DesignMat.SetTolower | demoReg/DesignMatrix.py:104-107 | a bool is stored; anything else raises a type error and changes nothing |
| DemoDesign.DesignMat.SetToupper | demoReg/DesignMatrix.py:109-112 | a bool is stored; anything else raises a type error and changes nothing |
| DemoDesign.DesignMat.Recode | demoReg/DesignMatrix.py:114-154 | returns the block, notice and maps of `RecodeSpec` and writes the chosen baseline through the alias |
| DemoDesign.DesignMat.RecodeText | demoReg/DesignMatrix.py:127-154 | the text branch agrees with `TextStep` |
| DemoDesign.DesignMat.ChooseBaseline | demoReg/DesignMatrix.py:134-140 | fails exactly on an empty column; else sets the kept override or the minimum and prints the notice `TextStep` prints |
| DemoDesign.DesignMat.MakeX | demoReg/DesignMatrix.py:156-162 | X, the maps, the notices and the error are those of `MakeXSpec` from the old overrides; afterwards `baselines` aliases the overrides |
| DemoDesign.DesignMat.AppendBlock | demoReg/DesignMatrix.py:161-162 | one loop turn: the maps and notices of `RecodeSpec`; on failure X is unchanged and the error is returned, else the block is appended |
| DemoDesign.DesignMat.ShowFactorInfo | demoReg/DesignMatrix.py:164-179 | the not-run message while X is unset, else the header first |
| DemoDesign.ShowAfterBuild | demoReg/DesignMatrix.py:169-173 | after a successful `make_X` the summary raises no KeyError exactly when every override that names an IV names a text IV |
| RegDesign.DesignMatrix.constructor | DesignMatrix.py:28-30 | holds its `reg` with empty maps and no X |
| RegDesign.DesignMatrix.Recode | DesignMatrix.py:36-70 | the block and maps of `RecodeSpec` without fallback; the chosen baseline is written into `reg.custom_baselines` |
| RegDesign.DesignMatrix.RecodeText | DesignMatrix.py:47-70 | the text branch agrees with `TextStep` without fallback |
| RegDesign.DesignMatrix.MakeX | DesignMatrix.py:72-78 | X, maps and error are those of `MakeXSpec` without fallback; `reg` changes only in `custom_baselines` |
| RegDesign.DesignMatrix.AppendBlock | DesignMatrix.py:77-78 | one loop turn without fallback: on failure X is unchanged and the error is returned, else the block is appended |
| RegDesign.DesignMatrix.AppendAll | DesignMatrix.py:77-78 | the loop over `reg.IVs` ends in the state `MakeXSpec` describes |
| Regression.IVNames | Reg.py:128-132 | for a factor, name `k` is the IV, a dot and level `k`; else the IV's own name |
| Regression.CoefNames | Reg.py:126 | the names start with `Intercept` |
| Regression.CoefficientNames | Reg.py:126-132 | the accumulating loop yields `CoefNames` |
| Regression.CoefCount | Reg.py:120-132 | after a successful `make_X` there are as many coefficient names as X has columns (`p`) |
| Regression.CoefCountPrefix | Reg.py:127-132 | the names of the first `i` IVs match the width they contribute |
| Regression.IVNamesCount | Reg.py:128-132 | one IV's names match its contribution to X |
| Regression.Reg.View | DesignMatrix.py:22-23 | the record the design matrix reads shows the table, IVs, switches and overrides of `Reg` |
| Regression.Reg.Init | Reg.py:25-38 | the parsed DV and IVs, all three switches on, no overrides, no X |
| Regression.Reg.Create | Reg.py:18-38 | a non-str formula raises first, then a non-table; else the parse error, or a fresh valid `Reg` with the space-free formula |
| Regression.Reg.SetBaselines | Reg.py:73-88 | the first bad entry's error (index labels included) with nothing changed, else the overrides become exactly the entries |
| Regression.Reg.SetOneBaseline | Reg.py:90-100 | always fails: the first failing check, else the missing attribute |
| Regression.Reg.SetStrip | Reg.py:102-105 | a bool is stored; anything else raises a type error and changes nothing |
| Regression.Reg.SetTolower | Reg.py:107-110 | a bool is stored; anything else raises a type error and changes nothing |
| Regression.Reg.SetToupper | Reg.py:112-115 | a bool is stored; anything else raises a type error and changes nothing |
| Regression.Reg.MakeX | Reg.py:117-120 | the design matrix's `make_X` without fallback; on success X and `p` its width, else X and `p` unchanged |
| Regression.Reg.Fit | Reg.py:122-137 | `make_X`, then names that number `p` and `df = nrow - p`; all unchanged on error |
| Fixtures.ParseGood | tests/test_DesignMatrix.py:26-31 | the test formula parses to DV `score` and IVs `age`, `male` |
| Fixtures.ParseBadDV | tests/test_DesignMatrix.py:34-37 | `scor ~ ...` fails on the DV |
| Fixtures.ParseBadIV | tests/test_DesignMatrix.py:40-43 | `... + gender` fails naming `gender` |
| Fixtures.WidthFixtures | tests/test_DesignMatrix.py:46-84 | X is 4 x 3 by default, 5 wide with `toupper` off, 4 wide with `strip` off |
| Fixtures.DefaultMaps | tests/test_DesignMatrix.py:54-67 | by default `male` has baseline `F` and levels `M`; `age` has neither |
| Fixtures.ShowOutputFixture | tests/test_DesignMatrix.py:63-67 | the summary prints the three expected lines |
| Fixtures.LowercaseFixture | tests/test_DesignMatrix.py:87-94 | lower-cased with override `m`, the baseline stays `m` |
| Fixtures.CustomBaselinesFixture | tests/test_DesignMatrix.py:97-102 | with overrides `M` and `P`, `tx` keeps `P` and its levels are `A` |
| Fixtures.CustomBaselinesColumn | demoReg/DesignMatrix.py:150-153 | on that test, the `tx` column is the indicator of `P`, the baseline |
| Fixtures.RegMaps | test_Reg.py:14-28 | lower-cased, `male` has baseline `f` and levels `m`; X is 4 x 3 |
| Fixtures.RegFitFixture | test_Reg.py:31-44 | the names are `Intercept`, `age`, `male.m` and `df` is 1 |
| Scenarios.ShowOutputScenario | tests/test_DesignMatrix.py:54-67 | constructing, building and summarising the class prints the expected lines |
| Scenarios.CustomBaselinesScenario | tests/test_DesignMatrix.py:97-102 | after `set_baselines` and `make_X` on the class, `baselines['tx']` is `P` |
| Scenarios.RegFitScenario | test_Reg.py:23-44 | `fit` on a `Reg` of the fixture gives a 4 x 3 X, the three names and `df` 1 |

## Left out

- The least-squares numerics of `fit` (`np.linalg.inv`, products, SSR, residuals, standard errors, t and p values, Reg.py:124-125,133-152) are floating point and library calls. Only the names and `df` are modelled, and a singular `X'X` (LinAlgError) is not.
- Regression.Reg.Fit: with a text DV, the source raises at Reg.py:125 when it multiplies by the DV's values, before `bnames` and `df` are set. The model has no DV dtype check, so its `Fit` still sets both.
- Cells are modelled as `real`. `as real` is exact, whereas `astype(float)` rounds ints above 2^53 in size; that rounding is not modelled.
- `LogLike.py` and `demoReg/LogLike.py` only wrap scipy log-densities with floats; LogLike.py is not part of this model.
- Printing is output, not state: `show_factor_info` and the fallback notices are returned as lines. The trailing empty string that splitting the captured output adds is not a line.
- pandas dtypes other than float, int and text are not distinguished, and `str(v)` of non-string cells is not modelled: text cells are strings already.
- Case mapping and whitespace are ASCII-only; Python's full Unicode tables are not modelled.
- `__repr__`, `__str__` and the `__main__` demo blocks.
- The NaN fill of `np.full`: every cell is overwritten except in a zero-width block, the failing case.
- Aliasing with the caller's dictionary: `set_baselines` stores the caller's dict object, so the caller's later changes would show through. The model stores a copy.
- `levels` being `None` before the first `make_X` and Reg's `X` being unset (an AttributeError) are modelled as an empty map and `None`.
- DemoDesign.DesignMat.Recode: requires that `make_X` has run (`X` set). Called directly before that, the source fails on `self.levels` being `None` for a text column, while a numeric column returns its block without touching `levels`; the model covers neither case.
- RegDesign.DesignMatrix.Recode: requires `baselines` to alias `reg.custom_baselines`, as it does inside `make_X`. A direct call on a fresh object is not modelled: for a text column the source then fails on the missing `levels` attribute, while a numeric column returns its block.
- Regression.Reg.Create: the DesignMatrix is built before the formula is parsed. The model creates it only once parsing succeeds, which is observable only through the object graph.
