# Fake Internship Detector: the `load_data` pipeline

The dashboard reads a table of job postings. `load_data` keeps the internships, the rows
whose lower-cased title contains "intern". It turns each `salary_range` into one number,
`avg_salary`, and fills a missing number with the median of those that parsed. It
normalises the null markers in the profile, requirements and education columns and derives
the label `likely_fake`. It fills the categorical defaults (department, employment type,
required experience). This project models that pipeline and proves what it does to each row.

Modules, one per file:

- `Wrappers` (`wrappers.dfy`): `Option`. `None` stands for pandas' NaN.
- `Text` (`text.dfy`): the string operations the pipeline uses:
  - `str.lower`;
  - `str.contains`;
  - `str.replace` of one character;
  - `str.split`, with its inverse `Join`.
- `Numbers` (`numbers.dfy`): Python's `int(str)` and `float(str)` on sign-and-digit
  literals, and the decimal numerals that `str` writes.
- `Stats` (`stats.dfy`): `Series.median()`. It takes the middle of the sorted values, or
  the mean of the two middle ones. It is described by a counting balance (at most half
  the values lie below it, at most half above) and by not depending on the order of its
  input. For an odd number of values the balance singles out the median; for an even
  number, every value between the two middle ones is balanced, and the definition picks
  their mean.
- `Salary` (`salary.dfy`): `calc_avgsalary`, a pure function, and its branches.
- `Pipeline` (`pipeline.dfy`):
  - the row datatypes: `Posting` is a row as read, `Internship` a row of `intern_df` once
    `avg_salary` is added and `salary_range`/`telecommuting` are dropped;
  - one function per column step;
  - the specification function `InternTable`;
  - the imperative pipeline `LoadData`. It copies the rows into an array and applies each
    vectorised column operation as an in-place pass (`MapInPlace`). It filters with a loop,
    builds the salary column in a fresh array and collects the median with a loop. It is
    proved equal to `InternTable`.
- `PipelineProperties` (`properties.dfy`): what the output holds, row by row, in terms of
  the rows read. It also works two example rows through the pipeline.

Salaries are exact reals and integers are unbounded, as Python's `int` is.

Where one might expect the pipeline to behave otherwise, the model follows what `load_data` does:

- A value without a hyphen is handed to `float` as it is. Its `$` is not stripped: only
  the hyphen branch calls `replace('$', '')`. So `"$2500"` gives null, not 2500.0.
  `Salary.SalaryExamples` and `Salary.DollarAmountIsNull` state this.
- A value with a hyphen is split at every `-`, not only at the first. The mean is taken
  of the first two pieces, and any further pieces are ignored (`Salary.HyphenRange`).
  A leading `-` leaves an empty first piece, so `"-5"` gives null.
- The median fills a missing salary only when some internship salary parsed. When none
  did, the median is null and every `avg_salary` stays null
  (`PipelineProperties.SalaryNullOnlyWhenNoneParsed`).

## Model

| member | source | states |
|---|---|---|
| Text.Lower | testrun1.py:19-20 | `str.lower`, character by character; its contract is stated by `Text.LowerIsLowered` |
| Text.LowerIsLowered | testrun1.py:19-20 | lower-casing keeps the length, turns each capital A-Z into its own small letter and keeps every other character, so no capital is left and lowering again changes nothing |
| Text.Contains | testrun1.py:21 | `str.contains`, searched from the left; `Text.ContainsIff` states what it means |
| Text.ContainsIff | testrun1.py:21 | `str.contains(sub)` holds exactly when `sub` occurs at some position of the string |
| Text.RemoveChar | testrun1.py:29 | `replace('$', '')`; the lemmas below state what it keeps and removes |
| Text.RemoveCharMembers | testrun1.py:29 | `replace('$', '')` leaves no `$`, and every other character occurs afterwards exactly when it occurred before |
| Text.RemoveCharAbsent | testrun1.py:29 | removing a character that does not occur leaves the string unchanged |
| Text.RemoveCharConcat | testrun1.py:29 | removing a character from a concatenation removes it from each part |
| Text.Split | testrun1.py:29 | `str.split(sep)`: at least one piece; `Text.SplitPieces`, `Text.JoinSplit` and `Text.SplitJoin` state the rest |
| Text.SplitPieces | testrun1.py:29 | `split('-')` gives at least two pieces exactly when the string holds `-`, and no piece holds `-` |
| Text.JoinSplit | testrun1.py:29 | joining the pieces of a split with the separator gives back the string |
| Text.SplitJoin | testrun1.py:29 | splitting a join of separator-free pieces gives back the pieces |
| Text.SplitNoSeparator | testrun1.py:29 | a string without the separator splits into itself alone |
| Numbers.ParseInt | testrun1.py:31 | `int(str)`, null where Python raises ValueError; the lemmas below state which texts it accepts and what it reads |
| Numbers.ParseIntRoundTrip | testrun1.py:31 | `int` reads back every numeral that `str` writes for an integer (`IntToString`) as that integer |
| Numbers.ParseIntAlphabet | testrun1.py:31 | whatever `int` accepts ends in a digit and is made of digits after at most one leading sign, so a lone sign is rejected |
| Numbers.ParseIntAccepts | testrun1.py:31 | conversely, `int` accepts every optional sign followed by a non-empty run of digits (leading zeros and `+` included) and reads the signed value of the digits |
| Numbers.ParseFloat | testrun1.py:34 | `float(str)`, null where Python raises ValueError. `ParseFloatAlphabet` and `ParseFloatShape` bound what it accepts, and `ParseFloatAccepts` and `ParseFloatAcceptsWhole` show that it accepts all of it: an optional sign, then digits with at most one point, with some digit |
| Numbers.ParseFloatOfNat | testrun1.py:34 | `float` reads a natural numeral as the same whole number |
| Numbers.ParseFloatAlphabet | testrun1.py:34 | whatever `float` accepts consists of a sign, digits and a decimal point only |
| Numbers.ParseFloatShape | testrun1.py:34 | whatever `float` accepts has a sign only in front, at most one decimal point, and some digit, so `"1.2.3"`, `"+"` and `"5-"` are rejected |
| Numbers.ParseFloatAccepts | testrun1.py:34 | `float` accepts every optional sign followed by `W.F` with digit runs W and F, not both empty, leading zeros included, and reads W plus F over 10 to the length of F with that sign, exactly |
| Numbers.ParseFloatAcceptsWhole | testrun1.py:34 | `float` accepts every optional sign followed by a non-empty run of digits, leading zeros included, and reads its signed value |
| Numbers.ParseFloatFraction | testrun1.py:34 | `float("12.5")` is exactly 12.5 |
| Numbers.ParseFloatBarePoint | testrun1.py:34 | `float(".")` fails, so it gives null |
| Stats.Insert | testrun1.py:39 | inserting into a sorted sequence keeps it sorted and adds exactly that value |
| Stats.Sort | testrun1.py:39 | the sorted values are in ascending order and are a permutation of the input |
| Stats.Median | testrun1.py:39 | the median is null exactly when there are no values |
| Stats.SortedUnique | testrun1.py:39 | two sorted permutations of the same values are equal, so the order the values come in cannot change the sort |
| Stats.MedianOrderIndependent | testrun1.py:39 | the median of a column depends only on its multiset of values, not on the row order |
| Stats.MiddleBalanced | testrun1.py:39 | in a sorted sequence, at most half the values lie strictly below the middle and at most half strictly above, and it lies between the least and the greatest |
| Stats.MedianBalanced | testrun1.py:39 | the median balances the values (at most half below, at most half above) and lies between two of them |
| Salary.CalcAvgSalary | testrun1.py:26-35 | `calc_avgsalary`. The lemmas below state its null branch, its hyphen branch for every decomposition into pieces, and its no-hyphen branch for every cell that is or is not a float |
| Salary.MeanOfFirstTwo | testrun1.py:31-32 | the mean of the first two pieces read by `int`, null when either fails; `Salary.HyphenRange` and `Salary.HyphenRangeUnparsable` state both cases |
| Salary.NullRangeIsNull | testrun1.py:27 | a null salary range gives null |
| Salary.HyphenRangePieces | testrun1.py:28-31 | a value holding `-` whose `$`-free text is the `-`-join of the pieces gives the mean of the first two pieces read by `int`, or null |
| Salary.HyphenRange | testrun1.py:28-31 | when the first two pieces are integers the result is their exact mean; further pieces play no part |
| Salary.HyphenRangeUnparsable | testrun1.py:28-32 | when either of the first two pieces is not an integer the result is null |
| Salary.StripDollars | testrun1.py:29 | removing the `$` signs from `$X-$Y` leaves `X-Y` when X and Y hold none |
| Salary.DollarRange | testrun1.py:26-35 | `$X-$Y` with numerals X and Y gives exactly (X+Y)/2 |
| Salary.UnreadableAmountIsNull | testrun1.py:33-35 | without a `-`, a cell holding any character other than a digit, `+` or `.` (such as `"Negotiable"` or `"2,500"`) gives null |
| Salary.MalformedAmountIsNull | testrun1.py:33-35 | without a `-`, a cell with a sign after the front, two decimal points or no digit gives null |
| Salary.DollarAmountIsNull | testrun1.py:33-35 | without a `-`, a value holding `$` is not a float and gives null |
| Salary.PlainAmount | testrun1.py:33-34 | without a `-`, a plain numeral gives its value |
| Salary.DecimalAmount | testrun1.py:33-34 | without a `-`, every `W.F` with an optional `+` and digit runs W and F, not both empty, gives its exact decimal value |
| Salary.WholeAmount | testrun1.py:33-34 | without a `-`, every optional `+` followed by a run of digits gives its value, so `"+2500"` and `"02500"` give 2500 |
| Salary.SalaryExamples | testrun1.py:26-35 | `"$2500"` gives null, and so does `"-5"` |
| Pipeline.LowerText | testrun1.py:19-20 | the title and description of one row lower-cased, a null description kept null; `Text.LowerIsLowered` states what lowering does |
| Pipeline.IsInternship | testrun1.py:21 | the filter condition on a lowered title; `Text.ContainsIff` states what it means |
| Pipeline.Interns | testrun1.py:21 | the rows meeting the filter, in order; `PipelineProperties.InternIndicesSpec` states which rows they are |
| Pipeline.FillDepartment | testrun1.py:25 | a null department becomes "unknown", a present one is kept, and no other column changes |
| Pipeline.WithAvgSalary | testrun1.py:37-38 | one row with `avg_salary` set to `calc_avgsalary` of its `salary_range`, and `salary_range` and `telecommuting` dropped by the change of row type |
| Pipeline.FillSalary | testrun1.py:39 | a null `avg_salary` becomes the median, a present one is kept, and no other column changes |
| Pipeline.Present | testrun1.py:39 | the non-null values of a column in row order; `PipelineProperties.PresentMembers` states which they are |
| Pipeline.Salaries | testrun1.py:39 | the values `median` is taken over: the non-null values of the `avg_salary` column |
| Pipeline.NullIfAmong | testrun1.py:40-42 | a value left non-null is the old value and is none of the markers; a non-null value that is no marker is kept |
| Pipeline.NullProfile | testrun1.py:40 | a profile "" or "no profile" becomes null, every other profile is kept, and no other column changes |
| Pipeline.NullRequirements | testrun1.py:41 | empty requirements become null, all others are kept, and no other column changes |
| Pipeline.NullEducation | testrun1.py:42 | an empty education becomes null, all others are kept, and no other column changes |
| Pipeline.DeriveLikelyFake | testrun1.py:43-48 | the label is 0 or 1, and 1 exactly when profile, requirements or education is null or the posting is fraudulent; no other column changes |
| Pipeline.FillEmploymentType | testrun1.py:49 | a null employment type becomes "Unspecified", a present one is kept, and no other column changes |
| Pipeline.Remap | testrun1.py:50 | "Other" becomes "Unspecified" and "Temporary" becomes "Short Term", while every other value, null included, is kept; so neither key is left |
| Pipeline.RemapEmploymentType | testrun1.py:50 | `Remap` applied to the employment type of one row |
| Pipeline.FillExperience | testrun1.py:51 | a null experience becomes "no experience", a present one is kept, and no other column changes |
| Pipeline.Finish | testrun1.py:39-51 | the steps of lines 39 to 51 on one row, in that order; `PipelineProperties.FinishLabel`, `NormalizesNulls` and `FillsCategoricalDefaults` state their effect |
| Pipeline.InternTable | testrun1.py:19-52 | the table `load_data` returns, as a function of the rows read; `Pipeline.LoadData` is proved equal to it and the `PipelineProperties` lemmas state what it holds |
| Pipeline.MapInPlace | testrun1.py:19-20 | a column operation replaces every row by the step applied to its old value, in place |
| Pipeline.SelectInterns | testrun1.py:21 | the boolean-mask filter keeps exactly the rows whose title contains "intern", in order |
| Pipeline.AddSalaryColumn | testrun1.py:37-38 | each row gets `avg_salary` from `calc_avgsalary` of its own `salary_range`, and that column and `telecommuting` are dropped |
| Pipeline.MedianSalary | testrun1.py:39 | the value the loop computes is the median of the non-null `avg_salary` values |
| Pipeline.CleanColumns | testrun1.py:39-51 | after the column passes, every row is the finished form of its old value under the same median |
| Pipeline.LoadData | testrun1.py:10-52 | a read failure gives the empty table; otherwise the result is `InternTable` of the rows read |
| PipelineProperties.PresentMembers | testrun1.py:39 | the non-null values are exactly the values present, and there are none exactly when every value is null |
| PipelineProperties.InternIndicesSpec | testrun1.py:19-21 | the selected positions are increasing, they are exactly the rows whose lower-cased title contains "intern", and the filtered table holds the lower-cased row of each |
| PipelineProperties.PipelineAt | testrun1.py:19-52 | output row k is the k-th internship after lower-casing, the department default, the salary parse and the cleaning with the median of the parsed salaries |
| PipelineProperties.SelectsInternships | testrun1.py:19-22 | the output holds exactly the internship rows in their original order; each keeps its key, has its title and description lower-cased, and its title contains "intern" |
| PipelineProperties.ImputesSalary | testrun1.py:37-39 | a salary that parsed is kept; one that did not holds the median of those that did |
| PipelineProperties.SalaryNullOnlyWhenNoneParsed | testrun1.py:39 | an output salary is null exactly when no internship salary parsed |
| PipelineProperties.LabelsLikelyFake | testrun1.py:40-48 | `likely_fake` is 0 or 1. It is 1 exactly when the raw profile is missing, empty or "no profile", when the requirements or the education are missing or empty, or when the posting is fraudulent |
| PipelineProperties.FinishLabel | testrun1.py:43-48 | the cleaning steps set the label of a row from its profile, requirements, education and fraudulent flag as they were before the null markers were replaced |
| PipelineProperties.NormalizesNulls | testrun1.py:40-42 | the null markers become null (empty or "no profile" for the profile, empty for the requirements and the education); every other value is kept, and so is `fraudulent` |
| PipelineProperties.FillsCategoricalDefaults | testrun1.py:25-51 | a null department becomes "unknown". A null or "Other" employment type becomes "Unspecified" and "Temporary" becomes "Short Term", so neither of those two survives. A null experience becomes "no experience". Present values are kept |
| PipelineProperties.EmptyInputEmptyOutput | testrun1.py:19-52 | reading no rows gives no rows |
| PipelineProperties.MarketingInternTitle | testrun1.py:19-21 | "Marketing Intern" lower-cased contains "intern" |
| PipelineProperties.SoftwareEngineerTitle | testrun1.py:19-21 | "Software Engineer" lower-cased does not contain "intern" |
| PipelineProperties.MarketingInternScenario | testrun1.py:19-52 | a "Marketing Intern" row with range `$X-$Y` and an empty profile is kept alone, gets salary (X+Y)/2 and is labelled likely fake |
| PipelineProperties.SoftwareEngineerScenario | testrun1.py:19-22 | a "Software Engineer" row does not reach the output |

## Left out

- Reading the CSV file is a parameter of `LoadData`: a `ReadResult` holds either the rows
  read or the cause of the failure. The file system and the CSV format are not modelled.
- The error message shown on a failed read and the row count written on success are not
  modelled. They are Streamlit output.
- The Streamlit page, caching, plots and word cloud after `load_data` are not modelled.
  They are presentation only.
- Text.Lower: lower-cases the ASCII letters only. Python's `str.lower` also maps other
  Unicode letters.
- Numbers.ParseInt: accepts an optional sign and ASCII digits only. Python's `int` also
  accepts surrounding whitespace, `_` between digits and other Unicode digits.
- Numbers.ParseFloat: accepts an optional sign and ASCII digits with at most one decimal
  point. Python's `float` also accepts whitespace, `_` between digits, exponents, `inf`,
  `nan` and other Unicode digits.
- Salary.CalcAvgSalary: computes in exact reals. Python's division and `float` round to
  IEEE 754 doubles.
- Salary.CalcAvgSalary: does not model the overflow errors of Python floats. With a
  hyphen, `(int(a) + int(b)) / 2` raises OverflowError once the sum exceeds the double
  range (for example `"1"` followed by 309 zeros, then `-1`). The bare `except` turns that
  into null, but the model gives the exact mean.
- Salary.CalcAvgSalary: does not model the limit on integer string conversion of Python 3.11
  and later. `int` raises ValueError on a piece of more than 4300 digits, which gives null
  there, but the model reads it.
- Salary.CalcAvgSalary: does not model a float that overflows. Without a hyphen, `float` of a
  numeral beyond the double range gives `inf`, and the median then uses that `inf`. The model
  gives the exact value.
- Stats.Median: is exact. pandas averages the two middle values in floating point.
- A null title is not modelled: titles are strings. pandas would make the filter mask null
  there and the selection would fail.
- A `salary_range` column that pandas reads as numbers rather than text is not modelled.
  `'-' in value` would then fail.
- Errors other than a failed read are not modelled, such as a missing column.
- `set_index('job_id')` is modelled as each row keeping its `jobId`. Uniqueness of the index
  is neither required nor checked.
- Aliasing between `df` and the slice `intern_df` is not modelled. Each pass is taken to
  update the table it names, as copy-on-write-free pandas chained `inplace` calls do.
- Columns outside the named ones are not modelled. The pipeline passes them through
  untouched.
- Dropping the columns is modelled by the change of row type from `Posting` to `Internship`.
  Until the label is derived, `likelyFake` holds 0.
