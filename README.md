# PBS job attribute normalisation, in Dafny

This project models the attribute-normalisation engine of the PBS listener, `extensions/pbsdata.py`. The listener receives the scheduler's flat attribute map for a finished job. Keys look like `Job_Name.` or `resources_used.mem`, and values carry a tag prefix, such as `"t.myjob"`. `JobData` turns that map into a typed job record. It works in three steps:

1. It parses the integer job id from the identifier.
2. It walks the ordered `export_table`. For each row it normalises the source key, looks the key up, strips the value's tag and runs the row's converter. A failing row is skipped, and the remaining rows are still processed.
3. It derives the start-time fallback, the run, wait and total durations, the wait rate, the application name and the job file.

`export` then filters the record by a set of keys.

The modules follow the source:

- `Numbers` (numbers.dfy): Python's `int()` on decimal text, the decimal rendering of integers, and `round(x, n)` taken on exact rationals.
- `Text` (text.dfy): `str.split`, `str.strip`, `startswith` and the index searches the converters rely on.
- `Patterns` (patterns.dfy): two of the module's three regular expressions, `host_pat` and `arg_pat`, written as scanners.
  - The `exec_host` host pattern runs under `findall`, which scans left to right, one match after another.
  - The JSDL argument pattern has a lazy `(.+?)`.
  - Both come with a rendering function and a round-trip lemma.
- `Converters` (converters.dfy): the converters `hours`, `timestamp`, `is_job_success`, `var_list`, `hosts`, `size`, `sub_args`, `basename` and `time_range`. The result of each is a `Value`. A converter returns `None` where the Python one raises. The third regular expression, `size_pat`, is scanned here, next to `size`, its only user (`SizeShape`, `SizeSplit`, `Size`).
- `JobRecord` (jobdata.dfy): the record's fields and the export table. Its pure parts are the table pass (`TablePass`), the derivation (`Derive`) and the whole constructor (`Normalise`, which returns a record or a `Failure`). Its imperative parts are the row-by-row methods `RunRows`, `ParseTable`, `FixData` and `Build`, each proved equal to its function, and the `JobData` class with its `data` field and `Export`.
- `Scenarios` (scenarios.dfy): a worked example payload, and what the constructor makes of payloads of its shape.

Behaviour of the code that the model keeps, and that is easy to overlook:

- Durations are differences of timestamps. The run time is finish minus start, the wait time is start minus eligible time, and the total is finish minus create time (lines 118-120). A missing or falsy start time is replaced by the eligible time first (lines 115-117).
- The wait rate divides by `total_hours` with no guard (line 121). A total that rounds to zero is therefore the failure `ZeroDivision`, not a rate of zero.
- The host pattern (line 9) admits only lower-case letters, digits and `-`. So `"nodeA[0]/0"` yields no host (`Patterns.UpperCaseHostIgnored`).
- `job_file` is read from `variables` with no guard (line 127). A payload without `Variable_List.` raises `KeyError` there, and no record is produced (`Scenarios.FailsWithoutVariables`). With a variable list added, a job whose eligible and finish times are 1000 seconds apart gets run and total times of 0.28 hours (`Scenarios.ExtendedDurations`).

## Model

| member | source | states |
|---|---|---|
| Text.Split | extensions/pbsdata.py:17 | `str.split(sep)` gives at least one part, no part holds the separator, and joining the parts with the separator gives back the text |
| Text.SplitJoin | extensions/pbsdata.py:30 | splitting the join of separator-free parts gives back exactly those parts |
| Text.SplitCount | extensions/pbsdata.py:17 | the number of parts is one more than the number of separators in the text |
| Text.Strip | extensions/pbsdata.py:30 | `strip()` gives the text between the leading and trailing whitespace runs; the result neither starts nor ends with whitespace, and only whitespace was cut |
| Text.IndexOf | extensions/pbsdata.py:99 | the first position of a character, or none exactly when it does not occur |
| Text.LastIndexOf | extensions/pbsdata.py:61 | the last position of a character, or none exactly when it does not occur |
| Numbers.ParseInt | extensions/pbsdata.py:22 | `int(s)` succeeds exactly on an optional sign followed by digits; without a minus sign the value is non-negative, and on plain digits it is their decimal value |
| Numbers.ParseIntText | extensions/pbsdata.py:22 | `int(str(n)) == n` for every integer |
| Numbers.DecimalValue | extensions/pbsdata.py:22 | the decimal text of a natural number reads back as that number |
| Numbers.RoundHalfEven | extensions/pbsdata.py:18 | Python's `round` to an integer: at most one half away, and ties go to the even neighbour |
| Numbers.Round2 | extensions/pbsdata.py:18 | `round(x, 2)` is within 0.005 of x; `RoundOnGrid`, `RoundZeroIff`, `RoundMonotone`, `RoundNonNegative` and `RoundUnit` state the rest |
| Numbers.Round3 | extensions/pbsdata.py:53 | `round(x, 3)` is within 0.0005 of x; `RoundExact3` shows that a whole number of thousandths is unchanged |
| Numbers.RoundZeroIff | extensions/pbsdata.py:65 | `round(x, 2)` is zero exactly when x is within 0.005 of zero |
| Numbers.RoundOnGrid | extensions/pbsdata.py:18 | `round(x, 2)` is a whole number of hundredths |
| Numbers.RoundMonotone | extensions/pbsdata.py:65 | `round(x, 2)` never reverses the order of two numbers |
| Numbers.RoundNonNegative | extensions/pbsdata.py:65 | rounding a non-negative number gives a non-negative number |
| Numbers.RoundUnit | extensions/pbsdata.py:121 | a ratio between 0 and 1 stays between 0 and 1 after `round(x, 2)` |
| Numbers.RoundExact3 | extensions/pbsdata.py:53 | a whole number of thousandths is unchanged by `round(x, 3)` |
| Patterns.NameLen | extensions/pbsdata.py:9 | the greedy `[a-z0-9-]+` run at the start of a text: every character in it is a name character, and the next one is not |
| Patterns.DigitsLen | extensions/pbsdata.py:10 | the greedy `\d+` run at the start of a text: every character in it is an ASCII digit, and the next one is not (see Left out) |
| Patterns.IndexLen | extensions/pbsdata.py:9 | the optional `[digits]` group: when taken, it is `[`, one or more digits, then `]` |
| Patterns.SlotLen | extensions/pbsdata.py:9 | the mandatory `/digits` part (with its optional `*digits`): when present it starts with `/` and a digit |
| Patterns.CountLen | extensions/pbsdata.py:9 | the optional `(?:\*\d+)` tail is taken exactly when the text starts with `*` and a digit, and then it takes the `*` and the whole digit run after it, so the next scan starts after the last digit |
| Patterns.CountLenWholeRun | extensions/pbsdata.py:9 | a taken `*digits` tail is all digits after its `*`, and no digit follows it |
| Patterns.CountTailTaken | extensions/pbsdata.py:9 | in `a/1*2b/3` the slot of `a` takes `/1*2`, so the scan resumes at `b` |
| Patterns.HostMatch | extensions/pbsdata.py:9 | a match at the start of a text captures the whole leading name run, which is non-empty and shorter than the match |
| Patterns.HostMatchSound | extensions/pbsdata.py:9 | when the host pattern matches, the name run is followed by an optional `[digits]` and then `/digit` |
| Patterns.HostMatchComplete | extensions/pbsdata.py:9 | conversely, a non-empty name run followed by an optional `[digits]` and `/digit` is always matched |
| Patterns.NameRunIsHost | extensions/pbsdata.py:9 | a non-empty name run is a host name: non-empty and made of `[a-z0-9-]` only |
| Patterns.FindHostsNames | extensions/pbsdata.py:9 | `FindHosts` is `findall` of the host pattern; every string it returns is a non-empty run of `[a-z0-9-]` |
| Patterns.FindHostsSound | extensions/pbsdata.py:35 | every host `findall` returns occurs in the text followed by an optional `[digits]` and a `/digit` |
| Patterns.FindHostsRender | extensions/pbsdata.py:9 | on a well-formed `exec_host` string (entries `host`, an optional `[index]`, `/slot` and an optional `*count`, joined by `+`), `findall` returns exactly the hosts, in order |
| Patterns.FindHostsStep | extensions/pbsdata.py:35 | after a match, `findall` resumes right after the matched text |
| Patterns.SkipNoMatch | extensions/pbsdata.py:35 | where no match starts, `findall` moves on by one character |
| Patterns.NoNameNoHost | extensions/pbsdata.py:9 | a text without any name character yields no host |
| Patterns.StoppedRun | extensions/pbsdata.py:9 | a name run followed by a character other than `[` or `/` yields nothing of its own |
| Patterns.StoppedRunStep | extensions/pbsdata.py:35 | inside a name run that no slot follows, no match starts, so `findall` moves on by one character |
| Patterns.TrailingRun | extensions/pbsdata.py:9 | a name run at the end of the text yields no host |
| Patterns.UpperCaseHostIgnored | extensions/pbsdata.py:9 | `"nodeA[0]/0"` yields no host, because the pattern is lower-case only |
| Patterns.Dedup | extensions/pbsdata.py:35 | `list(set(xs))`: the same members as xs, and no duplicates |
| Patterns.LazyClose | extensions/pbsdata.py:11 | the lazy `(.+?)` closes at the first position, from the group's minimum length on, where a closing tag starts and no newline lies before it; None means no such position exists before the first newline |
| Patterns.ArgMatch | extensions/pbsdata.py:11 | a match of the argument pattern captures a non-empty text without a newline |
| Patterns.FindArgs | extensions/pbsdata.py:57 | every argument `findall` returns is non-empty and holds no newline |
| Patterns.ArgMatchRender | extensions/pbsdata.py:11 | the pattern captures a plain argument exactly between its opening and closing tags |
| Patterns.FindArgsRender | extensions/pbsdata.py:56-57 | `sub_args` of a rendered argument list gives back the list of plain arguments, in order |
| Converters.HoursParts | extensions/pbsdata.py:16-18 | on a three-part `H:M:S`, `hours` succeeds exactly when H and M are integers, and the result is within 0.005 of H + M/60 |
| Converters.Hours | extensions/pbsdata.py:16-18 | `hours` succeeds exactly when the text splits on `:` into three parts and the first two are integer text; `HoursParts` gives the value, and `Scenarios.HoursWorked` shows `"02:30:00"` gives 2.5 |
| Converters.HoursOfParts | extensions/pbsdata.py:17-18 | unpacking into three parts and `float()` of the first two succeed exactly when there are three parts and the first two are integer text |
| Converters.HoursOnGrid | extensions/pbsdata.py:18 | every value `hours` returns is a whole number of hundredths |
| Converters.HoursSameParts | extensions/pbsdata.py:17 | two texts with the same hour and minute parts give the same result, whatever their seconds |
| Converters.HoursIgnoresSeconds | extensions/pbsdata.py:17 | changing only the seconds of `H:M:S` never changes the result |
| Converters.HoursNeedsTwoColons | extensions/pbsdata.py:17 | a text without exactly two colons fails to unpack into three parts |
| Converters.Timestamp | extensions/pbsdata.py:21-22 | `timestamp` succeeds exactly on integer text and gives a time |
| Converters.TimestampText | extensions/pbsdata.py:22 | the text of epoch second n gives the time n |
| Converters.IsJobSuccess | extensions/pbsdata.py:25-26 | `is_job_success` succeeds exactly on integer text and gives a boolean |
| Converters.ExitStatusText | extensions/pbsdata.py:26 | exit status n counts as success exactly when n is 0 |
| Converters.VarList | extensions/pbsdata.py:29-31 | `var_list` gives a string map when it succeeds |
| Converters.VarItemsFailIff | extensions/pbsdata.py:30-31 | `VarItems`, the dict comprehension, fails exactly when some item that is not `PBS_`-prefixed has no `=` |
| Converters.VarItemsNoReserved | extensions/pbsdata.py:31 | no key of the result starts with `PBS_` |
| Converters.VarItemsKeys | extensions/pbsdata.py:31 | every key of the result is the key of some item that is not `PBS_`-prefixed |
| Converters.VarItemsLastWins | extensions/pbsdata.py:31 | for a key's last item, the key is in the result with that item's value, which is the text between its first and second `=` |
| Converters.ItemValueBetween | extensions/pbsdata.py:30 | an item holding `=` splits so that its second part is the text right after the first `=`, ending at the second `=` or at the end |
| Converters.SplitNoSep | extensions/pbsdata.py:30 | a text splits into one part exactly when it does not hold the separator, and that part is the text |
| Converters.Hosts | extensions/pbsdata.py:34-35 | `hosts` has exactly the members of the host `findall`, with no duplicates |
| Converters.HostsSound | extensions/pbsdata.py:34-35 | every host returned is a non-empty run of `[a-z0-9-]` that occurs in the text before an optional `[digits]` and a `/digit` |
| Converters.HostsOfExecHost | extensions/pbsdata.py:34-35 | on a well-formed `exec_host` string, the hosts are exactly the rendered host names |
| Converters.Size | extensions/pbsdata.py:38-53 | `size` succeeds exactly on the texts `^\d+(k\|m\|g\|t)b$` matches case-insensitively (a final newline allowed), with `\d` read as the ASCII digits (see Left out), and gives a number |
| Converters.SizeSplitAt | extensions/pbsdata.py:10 | the digits group of a size match is the whole leading digit run |
| Converters.SizeAt | extensions/pbsdata.py:49-53 | a matching text gives its digits scaled by its unit's rate |
| Converters.SizeOf | extensions/pbsdata.py:49-53 | `digits + unit + b` gives the digits' value times 1024 to the unit's rate, and a trailing newline changes nothing |
| Converters.SizeIgnoresCase | extensions/pbsdata.py:10 | the case of the unit and of the `b` does not change the result |
| Converters.UnitRateCases | extensions/pbsdata.py:43-48 | k is -2, m is -1, g is 0 and t is 1, in either case (the Kelvin sign folds to k) |
| Converters.UnitRate | extensions/pbsdata.py:43-48 | `rate_map[unit.lower()]` exists only for the four units, and its rate lies between -2 and 1 |
| Converters.ScaledNear | extensions/pbsdata.py:53 | `Scaled`, `round(n * 1024 ** rate, 3)`: g and t give the exact integers n and 1024n; k and m give n/1024² and n/1024 to within 0.0005 |
| Converters.SubArgs | extensions/pbsdata.py:56-57 | every extracted argument is non-empty and holds no newline |
| Converters.LastComponent | extensions/pbsdata.py:61 | `os.path.basename` gives a `/`-free suffix of the path that is either the whole path or starts right after a `/`: the text after the last `/` |
| Converters.Basename | extensions/pbsdata.py:60-61 | `basename` gives a `/`-free prefix of the last path component: the whole component when it has no `.`, otherwise the part before a `.` after which no `.` follows (the last one) |
| Converters.BasenameOf | extensions/pbsdata.py:60-61 | `dir/stem.ext` gives `stem`: the path and the last extension are cut |
| Converters.BasenameNoExtension | extensions/pbsdata.py:61 | a final component without a dot is kept whole |
| Converters.BasenameBare | extensions/pbsdata.py:60-61 | a bare `stem.ext`, with no `/` and a dot-free extension, gives `stem` |
| Converters.TimeRangeZeroIff | extensions/pbsdata.py:64-65 | the duration is zero hours exactly when the two times are at most 18 seconds apart |
| Converters.TimeRange | extensions/pbsdata.py:64-65 | the duration in hours is within 0.005 hours of the exact difference of the two times |
| Converters.TimeRangeMonotone | extensions/pbsdata.py:64-65 | a longer interval never gives a shorter duration, and an ordered pair never gives a negative one |
| JobRecord.FieldNamedName | extensions/pbsdata.py:72-95 | every record field's key leads back to that field |
| JobRecord.NameFieldNamed | extensions/pbsdata.py:130-131 | a key that names a field is that field's key |
| JobRecord.Convert | extensions/pbsdata.py:109 | every successful conversion gives the kind of value its converter produces |
| JobRecord.TableFieldNotDerived | extensions/pbsdata.py:72-95 | no table row fills the job id, and of the derived fields only `start_time` and `app` have rows |
| JobRecord.ExportTableDistinct | extensions/pbsdata.py:72-95 | no two rows of the export table fill the same field |
| JobRecord.RowOrdinal | extensions/pbsdata.py:72-95 | row j of the table fills the field declared in place j + 1 |
| JobRecord.Rows | extensions/pbsdata.py:72-95 | the first n rows of the table form a sequence of n entries |
| JobRecord.RowsAt | extensions/pbsdata.py:72-95 | each of the first n rows sits at its own position |
| JobRecord.TableAt | extensions/pbsdata.py:72-95 | row j of the export table is the row declared in place j + 1 |
| JobRecord.LookupKey | extensions/pbsdata.py:104 | the lookup key holds a dot: the source key when it has one, otherwise the source key with `.` appended |
| JobRecord.StripTag | extensions/pbsdata.py:108 | stripping the tag never lengthens the value |
| JobRecord.StripTagOf | extensions/pbsdata.py:108 | `tag.value` with a dot-free tag gives `value`, even when the value holds dots |
| JobRecord.StripTagNoDot | extensions/pbsdata.py:108 | a value without a dot is passed on whole |
| JobRecord.EntryValue | extensions/pbsdata.py:104-109 | a row's value, when there is one, has the kind its converter produces |
| JobRecord.ApplyEntry | extensions/pbsdata.py:104-109 | one pass of the loop body: the row's field is present afterwards exactly when the row yields a value or it was present before; it holds that value when there is one, and keeps its earlier state otherwise |
| JobRecord.ApplyEntryOther | extensions/pbsdata.py:104-109 | one pass of the loop body leaves every other field as it was |
| JobRecord.TablePassOther | extensions/pbsdata.py:103-113 | the loop leaves alone every field that no row fills |
| JobRecord.TablePassField | extensions/pbsdata.py:103-113 | `TablePass`, the loop over the rows: a row's field is set exactly when its key is present, its value non-empty and its conversion successful; otherwise the field keeps its earlier state; a failing row does not stop the later ones |
| JobRecord.TablePassKeys | extensions/pbsdata.py:103-113 | the loop adds no field other than those of its rows |
| JobRecord.TableRow | extensions/pbsdata.py:100-113 | in the table record, starting from the job id alone, a row's field is present exactly when that row yields a value, and then holds it |
| JobRecord.FieldTyped | extensions/pbsdata.py:109 | after the loop, a row's field holds the kind of value its converter produces |
| JobRecord.TableWellTyped | extensions/pbsdata.py:103-113 | after the loop, the time fields hold times, `args` a list and `variables` a map |
| JobRecord.Table | extensions/pbsdata.py:100-113 | the table record holds the job id and is well typed |
| JobRecord.FixStart | extensions/pbsdata.py:115-117 | the start-time fallback succeeds exactly when a start or an eligible time exists; afterwards a start time exists and nothing else changed |
| JobRecord.AddDurations | extensions/pbsdata.py:118-121 | the four durations are added and nothing else changed |
| JobRecord.FixApp | extensions/pbsdata.py:122-126 | afterwards `app` exists, and nothing else changed |
| JobRecord.AddJobFile | extensions/pbsdata.py:127 | succeeds exactly when `variables` exists; afterwards `job_file` exists and nothing else changed |
| JobRecord.FixTimes | extensions/pbsdata.py:115-121 | after the start fallback and the durations, start time and the four durations exist, and no other field changed |
| JobRecord.DeriveOkIff | extensions/pbsdata.py:115-127 | `Derive`, lines 115-127 on the table record, succeeds exactly when the eligible, finish and create times and `variables` are present, and the finish and create times are more than 18 seconds apart, in either order (otherwise `total_hours` rounds to zero) |
| JobRecord.DeriveFailure | extensions/pbsdata.py:115-127 | each failure is the first one Python raises: KeyError on eligible_time, finish_time, eligible_time or create_time, then ZeroDivisionError, then KeyError on variables |
| JobRecord.DeriveDurations | extensions/pbsdata.py:117-121 | run = start→finish, wait = eligible→start, total = create→finish, all in hours rounded to 2 places; total is non-zero; and rate = round(wait/total, 2) |
| JobRecord.DeriveStartFallback | extensions/pbsdata.py:115-119 | without a start time, the start becomes the eligible time, so the wait and the rate are zero |
| JobRecord.DeriveNear | extensions/pbsdata.py:118-120 | each duration is within 0.005 hours of the exact difference of its times |
| JobRecord.RateUnit | extensions/pbsdata.py:121 | a wait no longer than the total gives a rate between 0 and 1 |
| JobRecord.DeriveOrdered | extensions/pbsdata.py:118-121 | when create ≤ eligible ≤ start ≤ finish, run and wait lie between 0 and total, and the rate between 0 and 1 |
| JobRecord.DeriveApp | extensions/pbsdata.py:122-126 | a truthy parsed `app` is kept; otherwise `app` comes from the last submit argument |
| JobRecord.AppFromPath | extensions/pbsdata.py:124 | `AppFromArgs`: a last argument `dir/stem.ext` gives the app `stem` |
| JobRecord.AppFromFile | extensions/pbsdata.py:124 | a last argument that is a bare `stem.ext` gives the app `stem` |
| JobRecord.AppUnknown | extensions/pbsdata.py:125-126 | with no arguments, or an empty list, the app is `"unknown"` |
| JobRecord.DeriveJobFile | extensions/pbsdata.py:127 | `job_file` (`JobFileOf`) is `variables["jobfile"]` when that key exists, and None otherwise |
| JobRecord.DeriveKeeps | extensions/pbsdata.py:114-127 | every derived field exists afterwards; every other field is unchanged; a parsed start time is kept |
| JobRecord.JobIdOfServer | extensions/pbsdata.py:99 | `JobIdOf`: `"<n>.<server>"` gives the job id n |
| JobRecord.JobIdOfBare | extensions/pbsdata.py:99 | an identifier without a dot is read whole |
| JobRecord.JobIdAt | extensions/pbsdata.py:99 | the job id is the integer text before the identifier's first dot |
| JobRecord.NormaliseBadId | extensions/pbsdata.py:99 | `Normalise`, the whole constructor as a function: it fails on the job id exactly when the identifier's prefix is not an integer |
| JobRecord.NormaliseJobId | extensions/pbsdata.py:99-100 | a built record holds the parsed job id |
| JobRecord.NormaliseField | extensions/pbsdata.py:103-113 | in a built record, a row's non-derived field is present exactly when that row yields a value, and then holds it |
| JobRecord.ApplyRow | extensions/pbsdata.py:104-113 | one pass of the loop body: normalise the key, look it up, strip the tag, convert, and store the result or skip the row |
| JobRecord.RunRows | extensions/pbsdata.py:103-113 | the loop over the rows, in order, computes the table pass |
| JobRecord.ParseTable | extensions/pbsdata.py:99-113 | starting from the job id, the loop over the export table gives the table record |
| JobRecord.UpdateTimes | extensions/pbsdata.py:115-121 | the step-by-step start fallback and durations compute `FixTimes` |
| JobRecord.FixData | extensions/pbsdata.py:114-127 | the step-by-step fix-up of the record computes the derivation |
| JobRecord.Build | extensions/pbsdata.py:97-128 | the whole constructor, step by step, computes `Normalise` |
| JobRecord.JobData.constructor | extensions/pbsdata.py:128 | the object's data is the built record |
| JobRecord.JobData.Create | extensions/pbsdata.py:97-128 | a fresh object holding the normalised record, or the failure that aborts construction |
| JobRecord.JobData.Export | extensions/pbsdata.py:130-131 | exactly the fields of the record whose keys are among the requested keys, with their values; every exported key names a field of the record |
| JobRecord.JobData.ExportMonotone | extensions/pbsdata.py:130-131 | asking for more keys keeps every entry of the smaller export |
| JobRecord.JobData.ExportAll | extensions/pbsdata.py:130-131 | asking for every field's key exports the whole record |
| Scenarios.ExampleJobId | extensions/pbsdata.py:99 | `"12345.host"` gives the job id 12345 |
| Scenarios.JobNameRow | extensions/pbsdata.py:73 | the `job_name` row reads `Job_Name.` with `str` |
| Scenarios.ExitStatusRow | extensions/pbsdata.py:83 | the `is_job_success` row reads `Exit_status.` with `is_job_success` |
| Scenarios.CreatedRow | extensions/pbsdata.py:85 | the `create_time` row reads `ctime.` with `timestamp` |
| Scenarios.FinishedRow | extensions/pbsdata.py:86 | the `finish_time` row reads `mtime.` with `timestamp` |
| Scenarios.StartedRow | extensions/pbsdata.py:87 | the `start_time` row reads `stime.` with `timestamp` |
| Scenarios.EligibleRow | extensions/pbsdata.py:88 | the `eligible_time` row reads `etime.` with `timestamp` |
| Scenarios.ArgsRow | extensions/pbsdata.py:91 | the `args` row reads `Submit_arguments.` as it is, with `sub_args` |
| Scenarios.VariablesRow | extensions/pbsdata.py:92 | the `variables` row reads `Variable_List.` with `var_list` |
| Scenarios.ExecutableRow | extensions/pbsdata.py:94 | the `app` row reads `executable.` with `basename` |
| Scenarios.Filled | extensions/pbsdata.py:104-109 | a present `t.`-tagged value that converts fills its row's field with the converted value |
| Scenarios.RowValue | extensions/pbsdata.py:104-109 | a row whose key holds `t.` and a convertible value yields the converted value |
| Scenarios.Unfilled | extensions/pbsdata.py:106-111 | a missing key leaves its row's field absent |
| Scenarios.TimeRow | extensions/pbsdata.py:85-88 | a time row with text `t.<n>` holds the time n |
| Scenarios.ExampleCreated | extensions/pbsdata.py:85 | `ctime` `t.1000` gives create time 1000 |
| Scenarios.ExampleFinished | extensions/pbsdata.py:86 | `mtime` `t.2000` gives finish time 2000 |
| Scenarios.ExampleEligible | extensions/pbsdata.py:88 | `etime` `t.1000` gives eligible time 1000 |
| Scenarios.ExampleTimes | extensions/pbsdata.py:85-88 | the example's three times are read and its start time is absent |
| Scenarios.ExampleName | extensions/pbsdata.py:73 | `Job_Name` `t.myjob` gives the job name `myjob` |
| Scenarios.ExampleSuccess | extensions/pbsdata.py:83 | `Exit_status` `t.0` gives a successful job |
| Scenarios.ExampleNoApp | extensions/pbsdata.py:91-94 | without submit arguments or an executable, neither `args` nor `app` is filled |
| Scenarios.FailsWithoutVariables | extensions/pbsdata.py:127 | a payload of the example's shape without `Variable_List` produces no record: KeyError on variables |
| Scenarios.ThousandSeconds | extensions/pbsdata.py:64-65 | 1000 seconds round to 0.28 hours |
| Scenarios.HoursWorked | extensions/pbsdata.py:16-18 | `hours("02:30:00")` is 2.5 |
| Scenarios.SizeMegabytes | extensions/pbsdata.py:49-53 | `size("2048mb")` is 2.0 |
| Scenarios.SizeTerabyte | extensions/pbsdata.py:49-53 | `size("1tb")` is 1024 |
| Scenarios.VarListOne | extensions/pbsdata.py:29-31 | a single `key=value` item gives the one-entry map |
| Scenarios.OneItem | extensions/pbsdata.py:31 | a single item that is not `PBS_`-prefixed gives a one-entry map |
| Scenarios.VariableListText | extensions/pbsdata.py:29-31 | `"jobfile=run.sh"` gives the map jobfile ↦ run.sh |
| Scenarios.ExampleVariables | extensions/pbsdata.py:92 | a convertible `Variable_List` fills `variables` with its map |
| Scenarios.ExtendedTable | extensions/pbsdata.py:100-113 | the example with a variable list gives the expected table record |
| Scenarios.ExtendedOk | extensions/pbsdata.py:97-128 | the example with a variable list builds a record |
| Scenarios.ExtendedDurations | extensions/pbsdata.py:115-127 | that record has start time 1000, run and total 0.28 hours, wait and rate 0, the app `"unknown"`, and the variable list's job file |
| Scenarios.Kept | extensions/pbsdata.py:114-127 | a parsed field outside the derived ones reaches the built record unchanged |
| Scenarios.ExtendedIdentity | extensions/pbsdata.py:99-113 | that record holds job id 12345 and job name `myjob` |
| Scenarios.ExtendedSuccess | extensions/pbsdata.py:83 | that record marks the job successful |

## Left out

- The rest of the repository is not part of this model. This covers `pbs_listener.py` (PostgreSQL LISTEN, the poll loop, the thread pool, JSON, configuration), `extensions/metrics.py`, `extensions/sendmail.py`, `extensions/user_db.py` and `extensions/datastore.py`. All of these are I/O around the record.
- Logging (lines 101, 111, 113, 116) is left out. It does not affect the record.
- Exceptions are values. A converter that raises is `None`, and the try/except of lines 105-113 skips that row. An exception that escapes the constructor is a `Failure`: `BadJobId`, `Missing(field)` or `ZeroDivision`.
- Numbers.ParseInt: `int()` is modelled on an optional sign and ASCII digits. Python also accepts surrounding whitespace, `_` between digits and non-ASCII digits; none of these occur in scheduler output. Python 3.11 and later also refuse a text of more than 4300 digits, so such a row fails in Python, while the model reads it; scheduler output never holds such a text.
- Converters.HoursParts: `float()` on the hour and minute parts is modelled by the same integer text. Decimal points, exponents, `inf` and `nan` are not accepted.
- Converters.TimeRangeZeroIff: arithmetic is exact rational arithmetic, and `round` rounds ties to even on the exact value. Python's binary floats turn 18 s / 3600 = 0.005 into a double slightly above 0.005, which rounds to 0.01. So under Python only differences of up to 17 s round to zero. Other results can differ from the float ones in the last place for the same reason.
- Converters.Timestamp: `datetime.fromtimestamp` is modelled as the epoch second itself. Local time zones are left out. So is the range error Python raises for times beyond the platform's limits, which would make that row fail. The 4300-digit limit of `int()` (see `Numbers.ParseInt`) applies here too.
- Converters.Hosts: `list(set(...))` has no defined order in Python. The model keeps each host's first occurrence, and its contracts promise only the members and the absence of duplicates.
- Converters.Size: `k` and `m` sizes are exact rationals rounded to three places, not floats. `g` and `t` sizes are integers, as `1024 ** rate` is an integer for those units. For `k` and `m` Python computes `n * 1024 ** rate` as a float, which raises `OverflowError` once `n` has more than about 309 digits; the model still gives a value there, as no memory size in scheduler output comes near that.
- Converters.Size: the `\d+` of `size_pat` (line 10) is modelled as ASCII `0`-`9`. In Python 3 a `str` pattern's `\d` matches every Unicode decimal digit, and `int()` reads them too. So a size written with, say, Arabic-Indic digits converts in Python but is `None` here. Scheduler output uses ASCII digits.
- Patterns.DigitsLen: `\d` is modelled as ASCII `0`-`9`, where Python 3 matches every Unicode decimal digit (category Nd). The same holds for the `\d` runs inside the host pattern, in `Patterns.IndexLen`, `Patterns.SlotLen` and `Patterns.CountLen`: an `exec_host` entry whose index or slot uses non-ASCII digits is matched in Python but not here.
- JobRecord.JobData.Export: `keys` is any iterable in Python and is tested with `in`. It is modelled as a set of strings, which is what membership sees. Dictionary insertion order is not modelled: the record is a map.
- The other dictionary operations `JobData` inherits from `UserDict` are not modelled; only construction and `export` are.
- Scenarios: the worked payload is stated for every attribute map of its shape, not evaluated as one literal map. The same holds for the extended payload with a variable list. Each converter's result on the payload's literal texts is its own lemma.
