# Rule relationship engine — a Dafny model

This project models the core of the Relationship Identification Tool. That
core is the `RuleSet` class of `src/rule_set.py`, plus the cell parser of
`src/utils.py`.

A rule set is a table of rules. Column 0 holds each rule's recommendation
and the other columns hold its attribute values. A value is a number, a
boolean, a string, an interval (pandas style, with its closed sides) or
missing. The class keeps two derived structures:

- **The inter-difference tensor (`idm`).** For attribute `k` and rules
  `i < j`, it holds the code of the relation between the two values: EQUALITY,
  DIFFERENCE, INCLUSION_IJ, INCLUSION_JI or OVERLAP. For the recommendation,
  the code is SAME_REC or DIFF_REC.
- **The product matrix (`pm`).** For every pair, it holds the product of that
  pair's codes over all attributes. `connection` decodes the product into one
  category through zero, identity, sign and divisibility tests: disconnected,
  equal, overlapping or included, each with the same or a different
  recommendation.

The mutators keep both structures up to date incrementally instead of
rebuilding them.

The model is built from immutable datatypes and pure functions:

- `Outcomes` holds the Python exception classes the core raises, and
  `Option`/`Result`.
- `Values` holds values, intervals, closedness (`_isclosed`, as `IsClosed`) and pandas' `overlaps`.
- `RelationCodes` holds the relation codes and the connection categories.
- `Classifier` holds `_val_IDC`, `_intervals_IDC_` and `_rec_IDC`.
- `Aggregation` holds the product, the decoder and the reference meaning
  `Summarize` of a pair's codes.
- `Tensors` and `Classification` hold the tensor shapes, the meaning of a
  rebuilt tensor, and `Fill`. `Fill` is the sequential cell-writing loop
  that stops at the first `TypeError`.
- `RuleSets` holds the state, its invariants, the builders and the readers.
- `CellUpdates` holds `update_idm`, `update_pm` and `update_val`.
- `RuleEdits` holds `add_rule` and `delete_rule`.
- `AttrEdits` holds `add_attr`, `delete_attr` and `update_attr`.
- `AddAttrFinding` and `DeleteAttrFinding` hold the two findings below.
- `Parser` holds `parse_val` and `parse_interval`.

A mutator returns a `Step`: the state after the call, together with the
exception it raised, if any. The state after an exception is the one the
source leaves behind. For example, after a `TypeError` in `add_rule`, the new
row stays in the table, the rule count is restored, and the cells already
classified stay written.

Two invariants tie the model together:

- **`WellShaped`** is the class invariant. It covers the table size, the
  distinct names, the recommendation column's name, and the matrix shapes.
- **`Consistent`** says the tensor is exactly what a full rebuild would
  produce, and the product matrix is exactly the product of its layers.

Every mutator preserves `WellShaped` on success. Every mutator also preserves
`Consistent` on success, with two exceptions.
`update_val` with `update=False` (`CellUpdates.UpdateVal` with `update` false)
writes the cell and deliberately leaves both matrices as they were, so they
go stale whenever the new value changes a code. The source's own fill for an
all-missing attribute (`AttrEdits.AddAttrAsWritten`) breaks consistency (see
"Findings"); `AttrEdits.AddAttr` uses the corrected fill instead.

`ConnectionCorrect` shows that a consistent rule set never reaches the "illegal value" error of
`connection`. It also shows that each connection is the reference category of
the pair's codes.

## Model

| member | source | states |
|---|---|---|
| Classifier.IntervalIDC | src/rule_set.py:64-112 | the code is one of the five value codes; DIFFERENCE exactly when the intervals do not overlap, and EQUALITY exactly when they are identical; with different left bounds, the interval starting first includes the other (INCLUSION_JI, or INCLUSION_IJ when it is the second argument) when it ends no earlier, and otherwise the two OVERLAP; with the same left bound and different right bounds, different left closedness gives OVERLAP and the same left closedness gives the inclusion of the shorter in the longer; with the same bounds and different closedness, a both-closed interval includes the other, a both-open one is included in the other, and left-closed against right-closed gives OVERLAP |
| Classifier.ClosedIncludesOpen | src/rule_set.py:80-91 | with equal bounds, the interval closed on both sides includes the one open on both sides, in both argument orders |
| Classifier.IntervalAntisymmetric | src/rule_set.py:67-70 | exchanging the two intervals exchanges INCLUSION_IJ and INCLUSION_JI and keeps every other code |
| Classifier.IntervalDifferenceMeansDisjoint | src/rule_set.py:72-73 | for non-empty intervals, DIFFERENCE holds exactly when the two share no point |
| Values.ClosedEndPoint | src/rule_set.py:114-122 | `IsClosed`, the model of `_isclosed`, holds on a side of an interval with distinct bounds exactly when the interval holds that side's end point |
| Values.ClosedSidesDetermineLabel | src/rule_set.py:114-122 | two intervals whose sides `IsClosed` judges alike have the same closedness label, so the classifier's side tests tell all four labels apart |
| Values.OverlapsIffSharedPoint | src/rule_set.py:72 | the overlap test used by the classifier holds exactly when two non-empty intervals share a point |
| Classifier.ValIDC | src/rule_set.py:44-62 | missing against missing is EQUALITY; missing on one side is the inclusion toward the missing value; a `TypeError` is raised exactly when both are present with different types; otherwise intervals go to the interval classifier and other values give EQUALITY or DIFFERENCE by Python equality |
| Classifier.ValAntisymmetric | src/rule_set.py:44-62 | exchanging the arguments fails exactly when the original fails, and otherwise exchanges the two inclusions |
| Classifier.RecIDC | src/rule_set.py:124-128 | SAME_REC exactly when the recommendations are equal under Python equality, and DIFF_REC otherwise |
| Classifier.RecSymmetric | src/rule_set.py:124-128 | the recommendation code does not depend on argument order |
| RelationCodes.CodeAssumptions | src/rule_set.py:168-174 | the properties of the chosen code values that the decoder's tests are designed around: EQUALITY 1, DIFFERENCE 0, recommendation codes ±1, OVERLAP prime, and inclusion codes above 1 and not multiples of OVERLAP |
| Aggregation.ProductSign | src/rule_set.py:38 | a product of attribute codes is never negative, and is zero exactly when one of them is DIFFERENCE |
| Aggregation.DifferenceAbsorbs | src/rule_set.py:38 | one DIFFERENCE among the codes makes the product zero |
| Aggregation.Decode | src/rule_set.py:166-176 | the decoding chain; DISCONNECTED exactly for a zero product, the same-recommendation categories only for positive products and the different-recommendation ones only for negative products; it is the decoder that `ConnectionOf` applies and that `DecodeProduct` checks against the reference summary |
| Aggregation.DecodeProduct | src/rule_set.py:166-176 | decoding the product of any valid codes never fails, and yields exactly the category that the codes' reference summary names |
| Aggregation.DecodeNeverFails | src/rule_set.py:175-176 | the "illegal value" error cannot arise from a product of valid codes |
| RuleSets.BuildIDM | src/rule_set.py:23-34 | with fewer than two rules nothing changes; otherwise the call succeeds exactly when every pair classifies, and on success the tensor is the full rebuild; only the tensor changes |
| RuleSets.BuildPM | src/rule_set.py:36-41 | returns true exactly when the tensor is built, and then the product matrix is the product of the layers; otherwise nothing changes |
| RuleSets.RecomputeM | src/rule_set.py:208-213 | succeeds exactly when the tensor is absent or the table classifies, leaves the table and names alone, and on success leaves the rule set consistent |
| RuleSets.GetVal | src/rule_set.py:134-150 | succeeds exactly when the rule is in range and the attribute is an existing index or name, and returns that cell; every failure is a `ValueError` |
| RuleSets.ConnectionOf | src/rule_set.py:152-176 | ERROR while the product matrix is absent, `ValueError` for an index too high, REFERENCE for a rule with itself, and otherwise the decoded product of the ordered pair |
| RuleSets.ConnectionSymmetric | src/rule_set.py:155-165 | the connection does not depend on the order of the two rules |
| RuleSets.ConnectionCorrect | src/rule_set.py:152-176 | on a consistent rule set, the connection of two distinct rules is the reference summary of their per-attribute codes |
| CellUpdates.ReclassifyStar | src/rule_set.py:218-233 | the shape is kept; the reclassification completes exactly when every pair involving the rule classifies on that layer; no cell outside those pairs changes, so no pair without the rule changes; on completion each of those cells holds its rebuilt code |
| CellUpdates.UpdateIdm | src/rule_set.py:215-233 | nothing happens while the tensor is unbuilt; otherwise only the tensor changes, it becomes the reclassification of the rule's pairs on that layer, and a `TypeError` is raised exactly when that stops early |
| CellUpdates.Maintain | src/rule_set.py:252-254 | after a write, maintenance keeps the class invariant, the table and the built state of both matrices; it succeeds whenever the tensor is unbuilt, and otherwise exactly when every pair involving the rule classifies on that layer; a failure is a `TypeError`; on success each of those pairs holds its rebuilt code, the rule's row and column of the product matrix are the products of the tensor, and no pair without the rule changes in either matrix |
| CellUpdates.StarExact | src/rule_set.py:215-239 | when reclassifying a rule's pairs on one layer completes after one value of that rule changed, the tensor is the full rebuild of the new table and the refreshed product matrix is its product |
| CellUpdates.UpdatePm | src/rule_set.py:235-239 | the rule's row and column become the products of the tensor and every other entry is kept |
| CellUpdates.UpdateVal | src/rule_set.py:241-254 | out-of-range indices raise `ValueError` with nothing changed; otherwise the cell is written; without update the call succeeds and the matrices are kept; with update it succeeds whenever the tensor is unbuilt, and otherwise exactly when every pair involving the rule classifies on that attribute of the written table, any failure being a `TypeError`; on success those pairs hold their rebuilt codes, the rule's row and column of the product matrix are the products of the tensor, and no pair without the rule changes in either matrix; the class invariant holds afterwards |
| CellUpdates.UpdateValConsistent | src/rule_set.py:241-254 | a successful update with maintenance keeps a consistent rule set consistent |
| RuleEdits.NatToStringInjective | src/rule_set.py:328-329 | distinct attribute numbers give distinct decimal texts, so the generated names are distinct |
| RuleEdits.GrowAndClassify | src/rule_set.py:354-370 | the tensor grows by one rule; classification of the new rule completes exactly when each of its pairs classifies on every layer; the old pairs keep their codes and the new rule's own row stays zero; on completion each new pair holds its rebuilt code |
| RuleEdits.AppendRule | src/rule_set.py:336-377 | the row is appended; on success the rule count grows and the grown tensor is the classification of the new rule; on a `TypeError` the rule count and the product matrix are as before |
| RuleEdits.AppendExact | src/rule_set.py:336-377 | when classifying the new rule completes, the grown tensor is the full rebuild of the extended table and the grown product matrix with its new column is the product of the layers |
| RuleEdits.AddRule | src/rule_set.py:320-377 | an empty set becomes a one-rule set named "Recommendation", "Attr 1", …; a value list of the wrong length raises `ValueError` with nothing changed; a missing list fills the attributes with missing values; on a non-empty set the names, the attribute count and the built state of both matrices are kept, and the call succeeds whenever the tensor is unbuilt and otherwise exactly when every pair of the new rule classifies on every layer, each of those pairs then holding its rebuilt code |
| RuleEdits.AddRuleConsistent | src/rule_set.py:320-377 | a successful rule addition keeps a consistent rule set consistent |
| RuleEdits.DeleteRule | src/rule_set.py:402-419 | an index out of range raises `ValueError` with nothing changed; otherwise the row goes, the matrices lose that rule's row and column, and with one rule or none left both matrices are emptied |
| RuleEdits.DeleteRuleConsistent | src/rule_set.py:402-419 | deleting a rule keeps a consistent rule set consistent |
| AttrEdits.AddAttr | src/rule_set.py:280-318 | the size and name checks raise `ValueError` with nothing changed, and so does a value list of the wrong length; on success one column is appended with the given or missing values, the name is appended, and the invariant holds; a `TypeError` leaves the column in the table and everything else as before. A valued addition with the tensor built succeeds exactly when every pair classifies on the new column; the earlier layers are then kept, the new layer holds the rebuilt codes, and a built product matrix is the product of the layers. An all-missing addition always succeeds, keeps the product matrix, and appends the layer `OnesLayer(n, 0)` to a built tensor: the corrected fill from row 0; the source's fill from row 1 (lines 295-297) is `AttrEdits.AddAttrAsWritten` |
| AttrEdits.AddMissingAttrConsistent | src/rule_set.py:290-299 | adding an all-missing attribute keeps a consistent rule set consistent with the product matrix untouched (corrected fill) |
| AttrEdits.MissingColumnRebuild | src/rule_set.py:290-297 | the rebuild of a table with an all-missing column appended is the old rebuild plus a layer of EQUALITY on every pair `i < j` |
| AttrEdits.OnesProduct | src/rule_set.py:298-299 | appending that layer of ones leaves every product unchanged, as the comment on line 299 claims |
| AttrEdits.ClassifyColumn | src/rule_set.py:303-312 | the old layers are kept; the new layer is classified from the new column and completes exactly when every pair `i < j` classifies; the lower triangle stays zero; on completion each upper cell holds its rebuilt code |
| AttrEdits.AddValuedAttrConsistent | src/rule_set.py:300-316 | adding an attribute with values keeps a consistent rule set consistent |
| AttrEdits.ProductAppend | src/rule_set.py:298-299 | appending a layer multiplies every product by that layer's code |
| AttrEdits.ColumnToDeleteAsWritten | src/rule_set.py:380-393 | refuses position 0 and the names "Rec" and "Recommendation"; otherwise resolves a position inside the table to itself and a known name to its first position, and refuses the rest, always with `ValueError` |
| AttrEdits.ColumnToDelete | src/rule_set.py:380-381 | the corrected resolution: also refuses the name column 0 carries, so a resolved column is never column 0 |
| AttrEdits.ColumnToDeleteAgrees | src/rule_set.py:380-393 | while column 0 is named "Rec" or "Recommendation", the corrected resolution equals the source's |
| AttrEdits.DeletableColumn | src/rule_set.py:380-393 | refuses position 0 and the recommendation names, positions outside the table and unknown names, with `ValueError`; otherwise yields a column other than the recommendation, matching the index or name given; on a well-shaped rule set it equals the source's resolution |
| AttrEdits.RemoveColumn | src/rule_set.py:394-400 | the column, its name and its layer are removed, the invariant holds, and the product matrix, when built, is the product of the remaining layers |
| AttrEdits.DeleteAttr | src/rule_set.py:379-400 | succeeds exactly when the reference designates a deletable column, and then removes it; otherwise raises `ValueError` with nothing changed |
| AttrEdits.DeleteAttrConsistent | src/rule_set.py:379-400 | deleting an attribute keeps a consistent rule set consistent |
| AttrEdits.UpdateAttr | src/rule_set.py:256-268 | succeeds exactly when the names are non-empty, distinct, led by "Rec" or "Recommendation" and one per column; then only the names change; an empty list raises `IndexError` and every other refusal is a `ValueError` |
| AttrEdits.UpdateAttrConsistent | src/rule_set.py:256-268 | renaming keeps a consistent rule set consistent |
| AttrEdits.AddAttrAsWritten | src/rule_set.py:290-299 | with an all-missing attribute and a built tensor, the new layer is 1 only from row 1 on and the product matrix is kept |
| AddAttrFinding.AddAttrAsWrittenDiverges | src/rule_set.py:294-297 | for every consistent rule set with a built tensor, the fill from row 1 leaves DIFFERENCE between rules 0 and 1 where a rebuild gives EQUALITY, so consistency is lost |
| AddAttrFinding.TwinRulesAfterAddAttr | src/rule_set.py:290-299 | two rules with the same recommendation become disconnected after an all-missing attribute and a product rebuild, and stay equal under the corrected fill |
| DeleteAttrFinding.AsWrittenSelectsRecommendation | src/rule_set.py:380-393 | whenever column 0 carries a name other than "Rec" and "Recommendation", the source resolves deletion by that name to column 0, and the corrected resolution refuses it with `ValueError` |
| Parser.ParseInterval | src/utils.py:22-56 | empty text raises `IndexError`; a wrong opening or closing bracket, a missing comma, a bound the number parser refuses, or bounds out of order raise `ValueError`; on success the interval is closed on the left exactly for `[` and on the right exactly for `]` |
| Parser.ParseVal | src/utils.py:5-20 | missing exactly for "", "*" and "nan" in any case; texts opening with a bracket go to the interval parser; true and false in any case; otherwise a number when the number parser accepts the text, else `ValueError`; never a string |
| Parser.ParseRender | src/utils.py:22-56 | the printed form of every interval parses back to that interval, as an interval text and as a cell text |
| Parser.ParseIntervalShape | src/utils.py:34-55 | every accepted text is bracket, comma-free left bound, comma with at most one space, right bound, bracket, with the bounds read from those two parts |
| Parser.ParseIntervalOrdered | src/utils.py:34-56 | for a text of that shape, bounds out of order are refused, and bounds in order are accepted with exactly those bounds |

## Left out

- Values.IsClosed: takes only the sides `'left'` and `'right'`, the only ones the classifier passes at src/rule_set.py:80-96; `_isclosed` called with `'both'` or `'neither'` is not modelled.
- I/O: `to_csv`, `__str__` and `parse_csv` are not modelled. The table is given directly as values.
- `__init__` from a list of dictionaries is not modelled. Any well-shaped state can serve as a starting point.
- The state after a `TypeError` is not well-shaped. After `add_rule` the table has one more row than the rule count. After `add_attr` the table has one more column than the attribute count and the names. Every operation requires a well-shaped state, so calls made after such a failure are not modelled.
- Floating point is not modelled. Numbers and interval bounds are reals. NaN, as a missing value, is its own constructor. Texts that the number parser turns into NaN or infinity are not modelled.
- The products in the product matrix are exact integers. The source holds them in float64, which is exact for every product below 2^53.
- `float()` is a parameter of the parser, a partial function from texts to reals.
- The numeric values of the relation codes are not modelled as given. They live in `relation.py`, which is not part of this model. The model fixes EQUALITY 1, DIFFERENCE 0, INCLUSION_IJ 2, INCLUSION_JI 4, OVERLAP 3, SAME_REC 1 and DIFF_REC -1. The decoder's proofs use these fixed values. `CodeAssumptions` lists the properties of them that the decoder's tests are designed around, but the proofs are not derived from that list alone.
- `same_type` and `has_type` (numpy against Python scalar types) are replaced by `SameType` on the model's value constructors.
- Strings are a value constructor of their own. Recommendations are usually strings, and string attributes compare by equality.
- Negative indices, and Python's acceptance of `bool` where `int` is expected, are not modelled. Rule and attribute positions are naturals, or integers checked against the ranges the source checks.
- The commented-out single-name `update_attr` (src/rule_set.py:270-278) is not code and is not modelled.
- The class invariant requires column 0 to be named "Rec" or "Recommendation". `update_attr` and `add_rule` enforce this, but the constructor (src/rule_set.py:11-21) does not, and a rule set whose column 0 has another name is outside the model's states. What `delete_attr` does on such a table is the second finding below.
- `update_val` is modelled with in-range natural indices checked as the source checks them. A value of a different type is written, and the next reclassification reports it as a `TypeError`.
- Lower-casing in `parse_val` is ASCII. For the words compared ("nan", "true", "false"), full Unicode lower-casing gives the same results.
- The inclusion codes follow the source's case analysis, not set inclusion of the intervals. For example, `[1,5)` against `[2,5]` gives INCLUSION_JI, and `(1,3]` against `[1,5]` gives OVERLAP. The model states the source's behaviour.

## Findings

| source | as written | input that shows it | evidently intended | confidence | as-written member | corrected member |
|---|---|---|---|---|---|---|
| src/rule_set.py:295-297 | the layer for an all-missing new attribute is filled with 1 only for rows `i >= 1`, so every pair `(0, j)` keeps 0 (DIFFERENCE) | two rules that are equal on every attribute, then `add_attr("x")` and `build_PM()`: `connection(0, 1)` gives DISCONNECTED instead of EQUAL_SAME | fill every pair `i < j` from row 0, as the comment on line 292 says, so that the products stay unchanged | not executed | AddAttrFinding.AddAttrAsWrittenDiverges | AttrEdits.AddMissingAttrConsistent |
| src/rule_set.py:380-393 | the recommendation is refused only as position 0 or under the literal names "Rec" and "Recommendation", while the constructor (lines 11-21) accepts any name for column 0 | a rule set built from dictionaries whose first key is "Outcome", then `delete_attr("Outcome")`: the name resolves to position 0, and lines 394-398 delete the recommendation column and its layer | refuse every reference that designates column 0, as the message "Recommendation cannot be deleted from ruleset" on line 381 says | not executed | DeleteAttrFinding.AsWrittenSelectsRecommendation | AttrEdits.ColumnToDelete |
