# Optimal-parameter summary table

A Dafny model of `generate_optimal_parameter_table` from the class-imbalance
experiments repository. The function reads the hyper-parameter tuning
results. It picks the parameter columns, the ones named `param_…`. It groups
the rows by `(configuration, sample_size, iteration)` and builds one summary
row per group. For each parameter that row holds one representative value:
the group's first value for a numeric column, and the group's most frequent
value otherwise, or `'N/A'` when the group has no non-missing value. The
parameters are renamed by deleting `param_`, and the columns are ordered as
the three key columns followed by the sorted parameter names.

Files:

- `frames.dfy` (`Frames`): the loaded table. Cells are `Missing` (NaN) or
  opaque values. A row is a map from column name to cell. A frame carries
  its column labels, the set of columns whose dtype is numeric, and its rows.
- `py_strings.dfy` (`PyStrings`): `str.startswith`, `str.replace(p, '')` as
  a left-to-right deletion of non-overlapping occurrences, Python's
  code-point order on strings, and `sorted` as an insertion sort. The sort
  is proved sorted and a permutation, and any sorted permutation is proved
  equal to it.
- `group_by.dfy` (`GroupBy`): `DataFrame.groupby` with pandas' default
  `dropna=True`: the distinct keys, each once, and each group's rows in
  table order.
- `series.dfy` (`Series`): `Series.mode()` followed by `.iloc[0]`, as a
  most frequent non-missing value.
- `hyperparameter_tuning.dfy` (`HyperparameterTuning`): the specification
  (`Summarize`, built from `FillRow` and `Representative`), the imperative
  procedure (`GenerateOptimalParameterTable` with the group loop and
  `BuildRow` with the parameter loop), and the lemmas about the summary.

The numeric-or-not decision is a property of the column: `Representative`
reads it from the frame's `numeric` set and never from the group, so the
same rule applies to every group.

## Model

| member | source | states |
|---|---|---|
| `HyperparameterTuning.ParamColumns` | hyperparameter_tuning.py:20 | a column is a parameter column iff it is a column of the table and its name starts with `param_` |
| `HyperparameterTuning.ParamColumnsCounts` | hyperparameter_tuning.py:20 | each column starting with `param_` is selected exactly as many times as it occurs in the header, and no other column is selected |
| `HyperparameterTuning.ParamColumnsKeepsOrder` | hyperparameter_tuning.py:20 | the selection keeps header order: selecting from a header split in two gives the selection from the first part followed by the selection from the second |
| `HyperparameterTuning.ParamNameStripsPrefix` | hyperparameter_tuning.py:31 | `param_` followed by a suffix free of `param_` is renamed to exactly that suffix; a name without `param_` is unchanged |
| `HyperparameterTuning.ParamNameDoublePrefix` | hyperparameter_tuning.py:31 | a doubled prefix is deleted twice: `param_param_` followed by a suffix free of `param_` is renamed to that suffix |
| `PyStrings.DeleteAllAbsent` | hyperparameter_tuning.py:31 | `replace('param_', '')` leaves a string without an occurrence of the pattern unchanged |
| `PyStrings.DeleteAllPresent` | hyperparameter_tuning.py:31 | `replace('param_', '')` shortens a string that contains the pattern by at least the pattern's length |
| `PyStrings.DeleteAllLeftmost` | hyperparameter_tuning.py:31 | `replace('param_', '')` keeps the text before the leftmost occurrence, deletes that occurrence, and continues on the text after it, so every non-overlapping occurrence found left to right is deleted |
| `GroupBy.Keys` | hyperparameter_tuning.py:24 | the group keys are pairwise distinct, and a key is among them iff some row has it with no key value missing |
| `GroupBy.Group` | hyperparameter_tuning.py:24 | a row belongs to the group of `k` iff it is a row of the table whose key is `k`, and it occurs in the group exactly as many times as in the table |
| `GroupBy.GroupNonEmpty` | hyperparameter_tuning.py:24 | a group is non-empty iff some row of the table has its key |
| `GroupBy.GroupStartsAtFirst` | hyperparameter_tuning.py:34 | the first row of a group is the first row of the table, in file order, with that key |
| `Series.Mode` | hyperparameter_tuning.py:36 | the mode is empty iff every value is missing; otherwise its first entry is a non-missing value of the series that no non-missing value outnumbers |
| `HyperparameterTuning.RepresentativeMode` | hyperparameter_tuning.py:35-36 | a non-numeric parameter's representative is `'N/A'` when all group values are missing, and otherwise a most frequent non-missing group value |
| `HyperparameterTuning.FillRowLast` | hyperparameter_tuning.py:30-36 | after the parameter loop, an output name holds the representative of the last parameter column renamed to it |
| `HyperparameterTuning.FillRowKeeps` | hyperparameter_tuning.py:25-36 | an entry of the row dict that no output name hits keeps its value through the parameter loop |
| `HyperparameterTuning.FillRowKeys` | hyperparameter_tuning.py:25-36 | the filled row dict has the key columns plus one entry per parameter output name, and nothing else |
| `HyperparameterTuning.FillRowKeepsKey` | hyperparameter_tuning.py:25-36 | when no output name is a key column, the filled row still carries its group's key |
| `HyperparameterTuning.BuildRow` | hyperparameter_tuning.py:25-36 | the parameter loop yields the row dict the specification prescribes for the group |
| `HyperparameterTuning.GenerateOptimalParameterTable` | hyperparameter_tuning.py:20-44 | the group loop and the column reordering produce exactly the summary, or the KeyError, that `Summarize` prescribes |
| `HyperparameterTuning.SummarizeFails` | hyperparameter_tuning.py:24-44 | a KeyError is raised iff a key column is absent or no row has a complete key; a missing-column error names an absent key column |
| `HyperparameterTuning.OrderedColumnsShape` | hyperparameter_tuning.py:43 | the column list is the three key columns then the parameter names in ascending order, 3 + (number of parameter columns) entries, naming exactly the key columns and the output names |
| `HyperparameterTuning.SummaryColumns` | hyperparameter_tuning.py:43-44 | the summary's columns are the key columns then the sorted parameter names, and every output row has exactly those columns |
| `HyperparameterTuning.SummaryRowAt` | hyperparameter_tuning.py:24-37 | the j-th output row is the row dict built from the j-th group, whose key is complete and whose group is non-empty |
| `HyperparameterTuning.SummaryGroups` | hyperparameter_tuning.py:24-29 | there is one output row per group key, and each output row carries its group's configuration, sample size and iteration |
| `HyperparameterTuning.SummaryOneRowPerGroup` | hyperparameter_tuning.py:24-37 | a key occurs in the output iff some input row has it, and no two output rows share a key |
| `HyperparameterTuning.SummaryNumericFirst` | hyperparameter_tuning.py:33-34 | a numeric parameter takes its value in the first input row, in file order, of the row's group |
| `HyperparameterTuning.SummaryModeValue` | hyperparameter_tuning.py:35-36 | a non-numeric parameter takes `'N/A'` when all its group values are missing, and otherwise a non-missing group value occurring at least as often as every other non-missing value |
| `PyStrings.SortNames` | hyperparameter_tuning.py:43 | the parameter names are put in ascending code-point order, as a permutation of the input |
| `PyStrings.SortedPermutationUnique` | hyperparameter_tuning.py:43 | two sorted permutations of the same names are equal, so any correct `sorted` yields the model's order |

## Left out

- Reading the CSV (`pd.read_csv`, l.17), creating the output directory, writing the CSV and HTML files and the message on standard output (l.46-56): file-system I/O with no logic of its own. The model starts from the loaded frame and returns the summary frame.
- Pandas' dtype inference (`is_numeric_dtype`, l.33): the frame carries the set of numeric columns as given.
- Float semantics of cell values: values are opaque and compared only for equality. A NaN cell is `Missing`.
- GroupBy.Keys: yields the groups in order of first appearance. Pandas' `groupby` sorts the group keys by default, so the row order of the summary is not modelled. That order depends on comparing mixed-type key values.
- Series.Mode: on a tie, the model takes the earliest of the most frequent values. Pandas sorts the modes and `iloc[0]` takes the smallest. Both are a most frequent non-missing value, and only that is promised.
- HyperparameterTuning.SummaryGroups: the key fields are promised only when no parameter's output name is a key column name. A column such as `param_iteration` overwrites the key value in the row dict (l.31, l.34/36). `FillRowLast` and `FillRowKeeps` describe what the row then holds.
