/**
 * A worked example: one job's attribute map as the scheduler tags it
 * (`t.` before every value), taken through the whole constructor.
 */
module Scenarios {
  import opened Wrappers
  import opened Text
  import opened Numbers
  import opened Patterns
  import opened Converters
  import opened JobRecord

  /** A finished job that never recorded a start time and carries no variable list. */
  function Example(): map<string, string> {
    map[
      "Job_Name." := "t.myjob",
      "Exit_status." := "t.0",
      "exec_host." := "t.nodeA[0]/0",
      "ctime." := "t.1000",
      "mtime." := "t.2000",
      "etime." := "t.1000",
      "resources_used.walltime." := "t.00:10:00"
    ]
  }

  // ---------------------------------------------------------- the rows the example reads

  /** The `Job_Name` row fills `JobName` with `ToStr`, read under the key `Job_Name.`. */
  lemma JobNameRow()
    ensures ExportTable[0] == Entry(JobName, "Job_Name", ToStr) && LookupKey("Job_Name") == "Job_Name."
  {
    TableAt(0);
  }

  /** The `Exit_status` row fills `IsJobSuccess` with `ToSuccess`, read under the key `Exit_status.`. */
  lemma ExitStatusRow()
    ensures ExportTable[10] == Entry(IsJobSuccess, "Exit_status", ToSuccess) && LookupKey("Exit_status") == "Exit_status."
  {
    TableAt(10);
  }

  /** The `ctime` row fills `CreateTime` with `ToTime`, read under the key `ctime.`. */
  lemma CreatedRow()
    ensures ExportTable[12] == Entry(CreateTime, "ctime", ToTime) && LookupKey("ctime") == "ctime."
  {
    TableAt(12);
  }

  /** The `mtime` row fills `FinishTime` with `ToTime`, read under the key `mtime.`. */
  lemma FinishedRow()
    ensures ExportTable[13] == Entry(FinishTime, "mtime", ToTime) && LookupKey("mtime") == "mtime."
  {
    TableAt(13);
  }

  /** The `stime` row fills `StartTime` with `ToTime`, read under the key `stime.`. */
  lemma StartedRow()
    ensures ExportTable[14] == Entry(StartTime, "stime", ToTime) && LookupKey("stime") == "stime."
  {
    TableAt(14);
  }

  /** The `etime` row fills `EligibleTime` with `ToTime`, read under the key `etime.`. */
  lemma EligibleRow()
    ensures ExportTable[15] == Entry(EligibleTime, "etime", ToTime) && LookupKey("etime") == "etime."
  {
    TableAt(15);
  }

  /** The `Submit_arguments.` row fills `Args` with `ToArgs`, read under the key `Submit_arguments.`. */
  lemma ArgsRow()
    ensures ExportTable[16] == Entry(Args, "Submit_arguments.", ToArgs) && LookupKey("Submit_arguments.") == "Submit_arguments."
  {
    TableAt(16);
  }

  /** The `Variable_List` row fills `Variables` with `ToVars`, read under the key `Variable_List.`. */
  lemma VariablesRow()
    ensures ExportTable[17] == Entry(Variables, "Variable_List", ToVars) && LookupKey("Variable_List") == "Variable_List."
  {
    TableAt(17);
  }

  /** The `executable` row fills `App` with `ToBasename`, read under the key `executable.`. */
  lemma ExecutableRow()
    ensures ExportTable[19] == Entry(App, "executable", ToBasename) && LookupKey("executable") == "executable."
  {
    TableAt(19);
  }

  /** The example's tagged values: `t.` and the value. */
  lemma TaggedTexts()
    ensures "t." + "1000" == "t.1000" && "t." + "2000" == "t.2000"
    ensures "t." + "myjob" == "t.myjob" && "t." + "0" == "t.0"
  {
  }

  /** The decimal texts of the example's times and exit status. */
  lemma EpochTexts()
    ensures IntText(1000) == "1000" && IntText(2000) == "2000" && IntText(0) == "0"
  {
  }

  // ---------------------------------------------------------- row by row

  /** The example's attributes. */
  lemma ExampleAttrs(attr: map<string, string>)
    requires attr == Example()
    ensures "Job_Name." in attr && attr["Job_Name."] == "t.myjob"
    ensures "Exit_status." in attr && attr["Exit_status."] == "t.0"
    ensures "exec_host." in attr && attr["exec_host."] == "t.nodeA[0]/0"
    ensures "ctime." in attr && attr["ctime."] == "t.1000"
    ensures "mtime." in attr && attr["mtime."] == "t.2000"
    ensures "etime." in attr && attr["etime."] == "t.1000"
    ensures "stime." !in attr && "Submit_arguments." !in attr && "executable." !in attr
  {
  }

  /** A row whose key holds `t.` and a value puts the converted value in the table's result. */
  lemma Filled(attr: map<string, string>, id: int, j: nat, key: string, value: string, v: Value)
    requires j < |ExportTable| && LookupKey(ExportTable[j].source) == key
    requires key in attr && attr[key] == "t." + value && value != ""
    requires Convert(ExportTable[j].conv, value) == Some(v)
    ensures ExportTable[j].field in Table(attr, id) && Table(attr, id)[ExportTable[j].field] == v
  {
    RowValue(ExportTable[j], attr, key, value, v);
    TableRow(attr, id, j);
  }

  /** A row whose key holds `t.` and a convertible value yields the converted value. */
  lemma RowValue(e: Entry, attr: map<string, string>, key: string, value: string, v: Value)
    requires LookupKey(e.source) == key && key in attr && attr[key] == "t." + value && value != ""
    requires Convert(e.conv, value) == Some(v)
    ensures EntryValue(e, attr) == Some(v)
  {
    StripTagOf("t", value);
    assert "t" + "." + value == "t." + value;
  }

  /** A row whose key is missing leaves its field out of the table's result. */
  lemma Unfilled(attr: map<string, string>, id: int, j: nat, key: string)
    requires j < |ExportTable| && LookupKey(ExportTable[j].source) == key && key !in attr
    ensures ExportTable[j].field !in Table(attr, id)
  {
    assert EntryValue(ExportTable[j], attr).None?;
    TableRow(attr, id, j);
  }

  /** A time row holding `t.` and an epoch second puts that second in the table's result. */
  lemma TimeRow(attr: map<string, string>, id: int, j: nat, key: string, n: nat, text: string)
    requires j < |ExportTable| && ExportTable[j].conv == ToTime && LookupKey(ExportTable[j].source) == key
    requires text == IntText(n) && key in attr && attr[key] == "t." + text
    ensures ExportTable[j].field in Table(attr, id) && Table(attr, id)[ExportTable[j].field] == Time(n)
  {
    TimestampText(n);
    assert |Decimal(n)| > 0;
    Filled(attr, id, j, key, text, Time(n));
  }

  /** The example's creation time. */
  lemma ExampleCreated(attr: map<string, string>, id: int)
    requires "ctime." in attr && attr["ctime."] == "t.1000"
    ensures CreateTime in Table(attr, id) && Table(attr, id)[CreateTime] == Time(1000)
  {
    CreatedRow();
    TaggedTexts();
    EpochTexts();
    TimeRow(attr, id, 12, "ctime.", 1000, "1000");
  }

  /** The example's finish time. */
  lemma ExampleFinished(attr: map<string, string>, id: int)
    requires "mtime." in attr && attr["mtime."] == "t.2000"
    ensures FinishTime in Table(attr, id) && Table(attr, id)[FinishTime] == Time(2000)
  {
    FinishedRow();
    TaggedTexts();
    EpochTexts();
    TimeRow(attr, id, 13, "mtime.", 2000, "2000");
  }

  /** The example's eligible time. */
  lemma ExampleEligible(attr: map<string, string>, id: int)
    requires "etime." in attr && attr["etime."] == "t.1000"
    ensures EligibleTime in Table(attr, id) && Table(attr, id)[EligibleTime] == Time(1000)
  {
    EligibleRow();
    TaggedTexts();
    EpochTexts();
    TimeRow(attr, id, 15, "etime.", 1000, "1000");
  }

  /** The three times of the example, and no start time. */
  lemma ExampleTimes(attr: map<string, string>, id: int)
    requires "ctime." in attr && attr["ctime."] == "t.1000"
    requires "mtime." in attr && attr["mtime."] == "t.2000"
    requires "etime." in attr && attr["etime."] == "t.1000"
    requires "stime." !in attr
    ensures var data := Table(attr, id);
      && CreateTime in data && data[CreateTime] == Time(1000)
      && FinishTime in data && data[FinishTime] == Time(2000)
      && EligibleTime in data && data[EligibleTime] == Time(1000)
      && StartTime !in data
  {
    ExampleCreated(attr, id);
    ExampleFinished(attr, id);
    ExampleEligible(attr, id);
    StartedRow();
    Unfilled(attr, id, 14, "stime.");
  }

  /** The example's identifier is job 12345. */
  lemma ExampleJobId()
    ensures JobIdOf("12345.host") == Some(12345)
  {
    var id := "12345.host";
    assert id[..5] == ['1', '2', '3', '4', '5'];
    JobNumber(id[..5]);
    JobIdAt(id, 5, 12345);
  }

  /** `int("12345")` is 12345. */
  lemma JobNumber(s: string)
    requires s == ['1', '2', '3', '4', '5']
    ensures ParseInt(s) == Some(12345)
  {
    assert AllDigits(s);
    assert s[..4] == ['1', '2', '3', '4'] && s[..4][..3] == ['1', '2', '3'];
    assert s[..4][..3][..2] == ['1', '2'] && s[..4][..3][..2][..1] == ['1'] && ['1'][..0] == [];
    assert DigitsValue(['1']) == 1;
    assert DigitsValue(['1', '2']) == 12;
    assert DigitsValue(['1', '2', '3']) == 123;
    assert DigitsValue(['1', '2', '3', '4']) == 1234;
    assert DigitsValue(s) == 12345;
  }

  // ---------------------------------------------------------- whole records

  /** The facts about the example's attributes the whole-record lemmas use. */
  predicate ExampleShape(attr: map<string, string>) {
    && "Job_Name." in attr && attr["Job_Name."] == "t.myjob"
    && "Exit_status." in attr && attr["Exit_status."] == "t.0"
    && "exec_host." in attr && attr["exec_host."] == "t.nodeA[0]/0"
    && "ctime." in attr && attr["ctime."] == "t.1000"
    && "mtime." in attr && attr["mtime."] == "t.2000"
    && "etime." in attr && attr["etime."] == "t.1000"
    && "stime." !in attr && "Submit_arguments." !in attr && "executable." !in attr
  }

  /** Without a variable list the constructor raises a KeyError on `variables`. */
  lemma FailsWithoutVariables(jobId: string, attr: map<string, string>)
    requires JobIdOf(jobId) == Some(12345) && ExampleShape(attr) && "Variable_List." !in attr
    ensures Normalise(jobId, attr) == Err(Missing(Variables))
  {
    ExampleTimes(attr, 12345);
    VariablesRow();
    Unfilled(attr, 12345, 17, "Variable_List.");
    DeriveFailure(Table(attr, 12345));
  }

  /** A difference of 1000 seconds is 0.28 hours once rounded. */
  lemma ThousandSeconds()
    ensures TimeRange(1000, 2000) == 0.28
  {
    var x := (2000 - 1000) as real / 3600.0;
    assert x * 100.0 == 250.0 / 9.0;
    assert 27.0 <= 250.0 / 9.0 < 28.0;
    assert RoundHalfEven(x * 100.0) == 28;
  }

  /** `int("02")` is 2 and `int("30")` is 30. */
  lemma HourDigits()
    ensures ParseInt("02") == Some(2) && ParseInt("30") == Some(30)
  {
    assert AllDigits("02") && AllDigits("30");
    assert "02"[..1] == "0" && "0"[..0] == "";
    assert "30"[..1] == "3" && "3"[..0] == "";
    assert DigitsValue("02") == 2 && DigitsValue("30") == 30;
  }

  /** The digits of the worked sizes read as 1 and 2048. */
  lemma SizeDigits()
    ensures DigitsValue("1") == 1 && DigitsValue("2048") == 2048
  {
    assert "1"[..0] == "";
    assert "2048"[..3] == "204" && "204"[..2] == "20" && "20"[..1] == "2" && "2"[..0] == "";
    assert DigitsValue("2") == 2 && DigitsValue("20") == 20 && DigitsValue("204") == 204;
  }

  /** Two and a half hours: the seconds do not count. */
  lemma HoursWorked()
    ensures Hours("02:30:00") == Some(2.5)
  {
    SplitThree("02", "30", "00");
    assert "02:30:00" == "02" + ":" + "30" + ":" + "00";
    HoursOfNumbers("02", "30", "00");
    HourDigits();
    assert RoundHalfEven(250.0) == 250;
  }

  /** 2048 megabytes are two gigabytes. */
  lemma SizeMegabytes()
    ensures Size("2048mb") == Some(Real(2.0))
  {
    assert "2048mb" == "2048" + ['m', 'b'];
    SizeOf("2048", 'm', 'b');
    SizeDigits();
    RoundExact3(2000);
    assert 2048.0 / 1024.0 == 2000 as real / 1000.0;
  }

  /** One terabyte is 1024 gigabytes. */
  lemma SizeTerabyte()
    ensures Size("1tb") == Some(Int(1024))
  {
    assert "1tb" == "1" + ['t', 'b'];
    SizeOf("1", 't', 'b');
    SizeDigits();
  }

  /** A text without the separator splits into itself alone. */
  lemma SplitSingle(s: string, sep: char)
    requires sep !in s
    ensures Split(s, sep) == [s]
  {
  }

  /** One `key=value` item whose key does not start with `PBS_` makes a one-entry map. */
  lemma OneItem(item: string, key: string, value: string)
    requires Split(item, '=') == [key, value] && !StartsWith(key, "PBS_")
    ensures VarItems([item]) == Some(map[key := value])
  {
    assert [item][..0] == [];
  }

  /** A variable list of one `key=value` item, with no whitespace around it. */
  lemma VarListOne(text: string, key: string, value: string)
    requires Strip(text) == text && ',' !in text
    requires Split(text, '=') == [key, value] && !StartsWith(key, "PBS_")
    ensures VarList(text) == Some(StrMap(map[key := value]))
  {
    SplitSingle(text, ',');
    OneItem(text, key, value);
  }

  lemma JobFileKey()
    ensures !StartsWith("jobfile", "PBS_")
  {
    assert "jobfile"[..4][0] == 'j';
  }

  lemma JobFileItemStripped()
    ensures Strip("jobfile=run.sh") == "jobfile=run.sh"
  {
  }

  lemma JobFileItemSplit()
    ensures Split("jobfile=run.sh", '=') == ["jobfile", "run.sh"]
  {
    assert Join(["jobfile", "run.sh"], '=') == "jobfile=run.sh";
    SplitJoin(["jobfile", "run.sh"], '=');
  }

  lemma JobFileItemNoComma()
    ensures ',' !in "jobfile=run.sh"
  {
  }

  /** `jobfile=run.sh` reads as a one-entry variable map. */
  lemma VariableListText()
    ensures VarList("jobfile=run.sh") == Some(StrMap(map["jobfile" := "run.sh"]))
  {
    JobFileItemStripped();
    JobFileItemSplit();
    JobFileKey();
    JobFileItemNoComma();
    VarListOne("jobfile=run.sh", "jobfile", "run.sh");
  }

  /** The variable-list row converts a text that reads as the map `m` to `m`. */
  lemma VarsConverted(vars: string, m: map<string, string>)
    requires VarList(vars) == Some(StrMap(m))
    ensures Convert(ToVars, vars) == Some(StrMap(m))
  {
  }

  /** A variable list whose text reads as the map `m` fills the table's `variables` field. */
  lemma ExampleVariables(attr: map<string, string>, id: int, vars: string, m: map<string, string>)
    requires "Variable_List." in attr && attr["Variable_List."] == "t." + vars && vars != ""
    requires VarList(vars) == Some(StrMap(m))
    ensures Variables in Table(attr, id) && Table(attr, id)[Variables] == StrMap(m)
  {
    VariablesRow();
    VarsConverted(vars, m);
    Filled(attr, id, 17, "Variable_List.", vars, StrMap(m));
  }

  /** The example's attributes with a variable list `vars` that reads as the map `m`. */
  predicate ExtendedShape(attr: map<string, string>, vars: string, m: map<string, string>) {
    && ExampleShape(attr)
    && "Variable_List." in attr && attr["Variable_List."] == "t." + vars && vars != ""
    && VarList(vars) == Some(StrMap(m))
  }

  /** The example has the shape the whole-record lemmas take, and no variable list. */
  lemma ExampleShapeHolds()
    ensures ExampleShape(Example()) && "Variable_List." !in Example()
  {
    ExampleAttrs(Example());
  }

  /** Without submit arguments or an executable the table loop sets neither `args` nor `app`. */
  lemma ExampleNoApp(attr: map<string, string>, id: int)
    requires "Submit_arguments." !in attr && "executable." !in attr
    ensures Args !in Table(attr, id) && App !in Table(attr, id)
  {
    ArgsRow();
    Unfilled(attr, id, 16, "Submit_arguments.");
    ExecutableRow();
    Unfilled(attr, id, 19, "executable.");
  }

  /** The table loop's result for the extended example. */
  lemma ExtendedTable(attr: map<string, string>, vars: string, m: map<string, string>)
    requires ExtendedShape(attr, vars, m)
    ensures var data := Table(attr, 12345);
      && CreateTime in data && data[CreateTime] == Time(1000)
      && FinishTime in data && data[FinishTime] == Time(2000)
      && EligibleTime in data && data[EligibleTime] == Time(1000)
      && StartTime !in data && Args !in data && App !in data
      && Variables in data && data[Variables] == StrMap(m)
  {
    ExampleTimes(attr, 12345);
    ExampleVariables(attr, 12345, vars, m);
    ExampleNoApp(attr, 12345);
  }

  /**
   * The derived fields of the extended example: the eligible time stands in
   * for the missing start, 1000 seconds make 0.28 hours of run and total time,
   * nothing is waited, `app` is unknown and the job file comes from the variables.
   */
  lemma ExtendedDurations(jobId: string, attr: map<string, string>, vars: string, m: map<string, string>)
    requires JobIdOf(jobId) == Some(12345) && ExtendedShape(attr, vars, m) && "jobfile" in m
    ensures Normalise(jobId, attr).Ok?
    ensures var r := Normalise(jobId, attr).value;
      && StartTime in r && r[StartTime] == Time(1000)
      && RunHours in r && r[RunHours] == Real(0.28)
      && TotalHours in r && r[TotalHours] == Real(0.28)
      && WaitHours in r && r[WaitHours] == Real(0.0)
      && WaitRate in r && r[WaitRate] == Real(0.0)
      && App in r && r[App] == Str("unknown")
      && JobFile in r && r[JobFile] == Str(m["jobfile"])
  {
    ExtendedTable(attr, vars, m);
    var data := Table(attr, 12345);
    DeriveOkIff(data);
    DeriveDurations(data);
    DeriveStartFallback(data);
    ThousandSeconds();
    DeriveJobFile(data);
    DeriveApp(data);
    AppUnknown(data);
  }

  /** The job name and the success flag are not derived fields. */
  lemma KeptFields()
    ensures JobName !in DerivedFields && IsJobSuccess !in DerivedFields
  {
  }

  /** A field the derivation does not write keeps its value from the table loop. */
  lemma Kept(jobId: string, attr: map<string, string>, id: int, f: Field)
    requires JobIdOf(jobId) == Some(id) && Normalise(jobId, attr).Ok?
    requires f in Table(attr, id) && f !in DerivedFields
    ensures f in Normalise(jobId, attr).value && Normalise(jobId, attr).value[f] == Table(attr, id)[f]
  {
    DeriveKeeps(Table(attr, id));
    assert Agree(Derive(Table(attr, id)).value, Table(attr, id), f);
  }

  /** The example's job name. */
  lemma ExampleName(attr: map<string, string>, id: int)
    requires "Job_Name." in attr && attr["Job_Name."] == "t.myjob"
    ensures JobName in Table(attr, id) && Table(attr, id)[JobName] == Str("myjob")
  {
    JobNameRow();
    TaggedTexts();
    Filled(attr, id, 0, "Job_Name.", "myjob", Str("myjob"));
  }

  /** The example's exit status 0 reads as a success. */
  lemma ExampleSuccess(attr: map<string, string>, id: int)
    requires "Exit_status." in attr && attr["Exit_status."] == "t.0"
    ensures IsJobSuccess in Table(attr, id) && Table(attr, id)[IsJobSuccess] == Bool(true)
  {
    ExitStatusText(0);
    TaggedTexts();
    EpochTexts();
    ExitStatusRow();
    Filled(attr, id, 10, "Exit_status.", "0", Bool(true));
  }

  /** The extended example builds a record. */
  lemma ExtendedOk(jobId: string, attr: map<string, string>, vars: string, m: map<string, string>)
    requires JobIdOf(jobId) == Some(12345) && ExtendedShape(attr, vars, m)
    ensures Normalise(jobId, attr).Ok?
  {
    ExtendedTable(attr, vars, m);
    DeriveOkIff(Table(attr, 12345));
  }

  /** The extended example's record is job 12345, named `myjob`. */
  lemma ExtendedIdentity(jobId: string, attr: map<string, string>, vars: string, m: map<string, string>)
    requires JobIdOf(jobId) == Some(12345) && ExtendedShape(attr, vars, m)
    ensures Normalise(jobId, attr).Ok?
    ensures var r := Normalise(jobId, attr).value;
      && JobId in r && r[JobId] == Int(12345)
      && JobName in r && r[JobName] == Str("myjob")
  {
    ExtendedOk(jobId, attr, vars, m);
    NormaliseJobId(jobId, attr);
    ExampleName(attr, 12345);
    KeptFields();
    Kept(jobId, attr, 12345, JobName);
  }

  /** The extended example's exit status 0 is recorded as a success. */
  lemma ExtendedSuccess(jobId: string, attr: map<string, string>, vars: string, m: map<string, string>)
    requires JobIdOf(jobId) == Some(12345) && ExtendedShape(attr, vars, m)
    ensures Normalise(jobId, attr).Ok?
    ensures IsJobSuccess in Normalise(jobId, attr).value
    ensures Normalise(jobId, attr).value[IsJobSuccess] == Bool(true)
  {
    ExtendedOk(jobId, attr, vars, m);
    ExampleSuccess(attr, 12345);
    KeptFields();
    Kept(jobId, attr, 12345, IsJobSuccess);
  }
}
