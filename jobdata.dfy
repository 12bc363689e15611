/**
 * The job record: the export table, the table-driven pass over the
 * scheduler's attribute map, the derived fields, and the record object with
 * its key filter.
 */
module JobRecord {
  import opened Wrappers
  import opened Text
  import opened Numbers
  import opened Patterns
  import opened Converters

  /** The keys a job record can hold: the export table's fields, the job id and the derived fields. */
  datatype Field =
    | JobId | JobName | Project | User | Email | Queue | Priority | RunCount | Cores
    | Memory | CpuHours | IsJobSuccess | Hosts | CreateTime | FinishTime | StartTime
    | EligibleTime | Args | Variables | PlacementSet | App
    | RunHours | WaitHours | TotalHours | WaitRate | JobFile

  /** The key under which the record stores a field. */
  function Name(f: Field): string {
    match f
    case JobId => "job_id"
    case JobName => "job_name"
    case Project => "project"
    case User => "user"
    case Email => "email"
    case Queue => "queue"
    case Priority => "priority"
    case RunCount => "run_count"
    case Cores => "cores"
    case Memory => "memory"
    case CpuHours => "cpu_hours"
    case IsJobSuccess => "is_job_success"
    case Hosts => "hosts"
    case CreateTime => "create_time"
    case FinishTime => "finish_time"
    case StartTime => "start_time"
    case EligibleTime => "eligible_time"
    case Args => "args"
    case Variables => "variables"
    case PlacementSet => "placement_set"
    case App => "app"
    case RunHours => "run_hours"
    case WaitHours => "wait_hours"
    case TotalHours => "total_hours"
    case WaitRate => "wait_rate"
    case JobFile => "job_file"
  }

  /** The field stored under a key, if any. */
  function FieldNamed(key: string): Option<Field> {
    match key
    case "job_id" => Some(JobId)
    case "job_name" => Some(JobName)
    case "project" => Some(Project)
    case "user" => Some(User)
    case "email" => Some(Email)
    case "queue" => Some(Queue)
    case "priority" => Some(Priority)
    case "run_count" => Some(RunCount)
    case "cores" => Some(Cores)
    case "memory" => Some(Memory)
    case "cpu_hours" => Some(CpuHours)
    case "is_job_success" => Some(IsJobSuccess)
    case "hosts" => Some(Hosts)
    case "create_time" => Some(CreateTime)
    case "finish_time" => Some(FinishTime)
    case "start_time" => Some(StartTime)
    case "eligible_time" => Some(EligibleTime)
    case "args" => Some(Args)
    case "variables" => Some(Variables)
    case "placement_set" => Some(PlacementSet)
    case "app" => Some(App)
    case "run_hours" => Some(RunHours)
    case "wait_hours" => Some(WaitHours)
    case "total_hours" => Some(TotalHours)
    case "wait_rate" => Some(WaitRate)
    case "job_file" => Some(JobFile)
    case _ => None
  }

  /** Every field's key leads back to the field. */
  lemma FieldNamedName(f: Field)
    ensures FieldNamed(Name(f)) == Some(f)
  {
  }

  /** A key that names a field is that field's key. */
  lemma NameFieldNamed(key: string)
    ensures FieldNamed(key).Some? ==> Name(FieldNamed(key).value) == key
  {
  }

  /** The converter a table entry names. */
  datatype Converter =
    | ToStr | ToInt | ToSize | ToHours | ToSuccess
    | ToHosts | ToTime | ToArgs | ToVars | ToBasename

  /** The kind of value each converter produces. */
  predicate OfType(c: Converter, v: Value) {
    match c
    case ToStr => v.Str?
    case ToInt => v.Int?
    case ToSize => v.Int? || v.Real?
    case ToHours => v.Real?
    case ToSuccess => v.Bool?
    case ToHosts => v.StrList?
    case ToTime => v.Time?
    case ToArgs => v.StrList?
    case ToVars => v.StrMap?
    case ToBasename => v.Str?
  }

  /** Runs a converter; None where the Python converter raises. */
  function Convert(c: Converter, text: string): (r: Option<Value>)
    ensures r.Some? ==> OfType(c, r.value)
  {
    match c
    case ToStr => Some(Str(text))
    case ToInt => (match ParseInt(text) case Some(n) => Some(Int(n)) case None => None)
    case ToSize => Size(text)
    case ToHours => (match Hours(text) case Some(h) => Some(Real(h)) case None => None)
    case ToSuccess => Converters.IsJobSuccess(text)
    case ToHosts => Some(StrList(Converters.Hosts(text)))
    case ToTime => Timestamp(text)
    case ToArgs => Some(StrList(SubArgs(text)))
    case ToVars => VarList(text)
    case ToBasename => Some(Str(Basename(text)))
  }

  /** One row of the export table: the record field, the scheduler key it comes from, its converter. */
  datatype Entry = Entry(field: Field, source: string, conv: Converter)

  /** Row `j` of the export table, in its declared order. */
  function Row(j: int): Entry {
    match j
    case 0 => Entry(JobName, "Job_Name", ToStr)
    case 1 => Entry(Project, "project", ToStr)
    case 2 => Entry(User, "euser", ToStr)
    case 3 => Entry(Email, "Mail_Users", ToStr)
    case 4 => Entry(Queue, "queue", ToStr)
    case 5 => Entry(Priority, "Priority", ToInt)
    case 6 => Entry(RunCount, "run_count", ToInt)
    case 7 => Entry(Cores, "resources_used.ncpus", ToInt)
    case 8 => Entry(Memory, "resources_used.mem", ToSize)
    case 9 => Entry(CpuHours, "resources_used.cput", ToHours)
    case 10 => Entry(IsJobSuccess, "Exit_status", ToSuccess)
    case 11 => Entry(Hosts, "exec_host", ToHosts)
    case 12 => Entry(CreateTime, "ctime", ToTime)
    case 13 => Entry(FinishTime, "mtime", ToTime)
    case 14 => Entry(StartTime, "stime", ToTime)
    case 15 => Entry(EligibleTime, "etime", ToTime)
    case 16 => Entry(Args, "Submit_arguments.", ToArgs)
    case 17 => Entry(Variables, "Variable_List", ToVars)
    case 18 => Entry(PlacementSet, "pset", ToVars)
    case _ => Entry(App, "executable", ToBasename)
  }

  /** The first `n` rows of the export table. */
  function Rows(n: nat): (es: seq<Entry>)
    ensures |es| == n
  {
    if n == 0 then [] else Rows(n - 1) + [Row(n - 1)]
  }

  /** Each of the first `n` rows sits at its own position. */
  lemma {:induction false} RowsAt(n: nat, j: nat)
    requires j < n
    ensures Rows(n)[j] == Row(j)
  {
    if j < n - 1 {
      RowsAt(n - 1, j);
    }
  }

  /** The export table: its twenty rows, in their declared order. */
  const ExportTable: seq<Entry> := Rows(20)

  /** Row `j` of the table is `Row(j)`. */
  lemma TableAt(j: nat)
    requires j < |ExportTable|
    ensures ExportTable[j] == Row(j)
  {
    RowsAt(20, j);
  }

  /** The table fills neither the job id nor a field only the derivation writes. */
  lemma TableFieldNotDerived(j: nat)
    requires j < |ExportTable|
    ensures ExportTable[j].field != JobId
    ensures ExportTable[j].field in DerivedFields ==> ExportTable[j].field == StartTime || ExportTable[j].field == App
  {
    RowOrdinal(j);
  }

  predicate DistinctFields(es: seq<Entry>) {
    forall i, j :: 0 <= i < j < |es| ==> es[i].field != es[j].field
  }

  /** A field's place in the declaration of `Field`. */
  function Ordinal(f: Field): nat {
    match f
    case JobId => 0 case JobName => 1 case Project => 2 case User => 3 case Email => 4
    case Queue => 5 case Priority => 6 case RunCount => 7 case Cores => 8 case Memory => 9
    case CpuHours => 10 case IsJobSuccess => 11 case Hosts => 12 case CreateTime => 13
    case FinishTime => 14 case StartTime => 15 case EligibleTime => 16 case Args => 17
    case Variables => 18 case PlacementSet => 19 case App => 20 case RunHours => 21
    case WaitHours => 22 case TotalHours => 23 case WaitRate => 24 case JobFile => 25
  }

  /** No two rows of the export table fill the same field: the rows follow the declaration order. */
  lemma ExportTableDistinct()
    ensures DistinctFields(ExportTable)
  {
    forall i, j | 0 <= i < j < |ExportTable|
      ensures ExportTable[i].field != ExportTable[j].field
    {
      RowOrdinal(i);
      RowOrdinal(j);
    }
  }

  /** Row `j` fills the field declared `j + 1`-th. */
  lemma RowOrdinal(j: nat)
    requires j < |ExportTable|
    ensures Ordinal(ExportTable[j].field) == j + 1
  {
    TableAt(j);
    if j < 10 {
      FirstRowsOrdinal(j);
    } else {
      LastRowsOrdinal(j);
    }
  }

  /** The first ten rows fill the fields declared first to tenth. */
  lemma FirstRowsOrdinal(j: nat)
    requires j < 10
    ensures Ordinal(Row(j).field) == j + 1
  {
    if j < 5 {
      assert j == 0 || j == 1 || j == 2 || j == 3 || j == 4;
    } else {
      assert j == 5 || j == 6 || j == 7 || j == 8 || j == 9;
    }
  }

  /** The last ten rows fill the fields declared eleventh to twentieth. */
  lemma LastRowsOrdinal(j: nat)
    requires 10 <= j < 20
    ensures Ordinal(Row(j).field) == j + 1
  {
    if j < 15 {
      assert j == 10 || j == 11 || j == 12 || j == 13 || j == 14;
    } else {
      assert j == 15 || j == 16 || j == 17 || j == 18 || j == 19;
    }
  }

  /** The key looked up for a source key: the key itself when it holds a dot, the key and a dot otherwise. */
  function LookupKey(source: string): (key: string)
    ensures '.' in key
    ensures '.' in source ==> key == source
    ensures '.' !in source ==> key == source + "."
  {
    if '.' in source then source else source + "."
  }

  /** `raw.split('.', 1)[-1]`: the value without its `tag.` prefix, or all of it when it has no dot. */
  function StripTag(raw: string): (v: string)
    ensures |v| <= |raw|
  {
    match IndexOf(raw, '.')
    case None => raw
    case Some(i) => raw[i + 1..]
  }

  /** The scheduler's `tag.value` form gives back the value, whatever it holds. */
  lemma StripTagOf(tag: string, value: string)
    requires '.' !in tag
    ensures StripTag(tag + "." + value) == value
  {
    var raw := tag + "." + value;
    assert raw[..|tag|] == tag;
    IndexOfAt(raw, '.', |tag|);
    assert raw[|tag| + 1..] == value;
  }

  /** A value without a dot is passed on whole. */
  lemma StripTagNoDot(raw: string)
    requires '.' !in raw
    ensures StripTag(raw) == raw
  {
  }

  /**
   * What one table row contributes: None when its key is missing, its value
   * empty, or its converter raises; otherwise the converted value.
   */
  function EntryValue(e: Entry, attr: map<string, string>): (r: Option<Value>)
    ensures r.Some? ==> OfType(e.conv, r.value)
  {
    var key := LookupKey(e.source);
    if key in attr && attr[key] != "" then Convert(e.conv, StripTag(attr[key])) else None
  }

  /** One pass of the loop body: the row's field is set when the row yields a value, and nothing else changes. */
  function ApplyEntry(e: Entry, attr: map<string, string>, data: map<Field, Value>): (r: map<Field, Value>)
    ensures e.field in r <==> EntryValue(e, attr).Some? || e.field in data
    ensures EntryValue(e, attr).Some? ==> r[e.field] == EntryValue(e, attr).value
    ensures EntryValue(e, attr).None? ==> Agree(r, data, e.field)
  {
    match EntryValue(e, attr)
    case Some(v) => data[e.field := v]
    case None => data
  }

  /** One row leaves every other field as it was. */
  lemma ApplyEntryOther(e: Entry, attr: map<string, string>, data: map<Field, Value>, k: Field)
    requires k != e.field
    ensures Agree(ApplyEntry(e, attr, data), data, k)
  {
  }

  /** The table loop from its first row to its last, each row's failure caught on its own. */
  function TablePass(es: seq<Entry>, attr: map<string, string>, data: map<Field, Value>): map<Field, Value>
    decreases |es|
  {
    if |es| == 0 then data
    else ApplyEntry(es[|es| - 1], attr, TablePass(es[..|es| - 1], attr, data))
  }

  /** A key no row fills keeps what it had before the loop. */
  lemma {:induction false} TablePassOther(es: seq<Entry>, attr: map<string, string>, data: map<Field, Value>, k: Field)
    requires forall i :: 0 <= i < |es| ==> es[i].field != k
    ensures k in TablePass(es, attr, data) <==> k in data
    ensures k in data ==> TablePass(es, attr, data)[k] == data[k]
    decreases |es|
  {
    if |es| > 0 {
      TablePassOther(es[..|es| - 1], attr, data, k);
    }
  }

  /**
   * Failure isolation, row by row: a field is filled exactly when its own row
   * produced a value (or it was there before), with that value; what the
   * other rows do never matters.
   */
  lemma {:induction false} TablePassField(es: seq<Entry>, attr: map<string, string>, data: map<Field, Value>, j: nat)
    requires DistinctFields(es) && j < |es|
    ensures es[j].field in TablePass(es, attr, data) <==> EntryValue(es[j], attr).Some? || es[j].field in data
    ensures EntryValue(es[j], attr).Some? ==> TablePass(es, attr, data)[es[j].field] == EntryValue(es[j], attr).value
    ensures EntryValue(es[j], attr).None? && es[j].field in data ==> TablePass(es, attr, data)[es[j].field] == data[es[j].field]
    decreases |es|
  {
    var init := es[..|es| - 1];
    if j == |es| - 1 {
      TablePassOther(init, attr, data, es[j].field);
    } else {
      assert init[j] == es[j];
      TablePassField(init, attr, data, j);
      ApplyEntryOther(es[|es| - 1], attr, TablePass(init, attr, data), es[j].field);
    }
  }

  /** The loop fills only the table's own fields. */
  lemma {:induction false} TablePassKeys(es: seq<Entry>, attr: map<string, string>, data: map<Field, Value>)
    ensures forall k :: k in TablePass(es, attr, data) ==> k in data || exists i :: 0 <= i < |es| && es[i].field == k
    decreases |es|
  {
    if |es| > 0 {
      var init := es[..|es| - 1];
      TablePassKeys(init, attr, data);
      forall k | k in TablePass(es, attr, data) && k !in data
        ensures exists i :: 0 <= i < |es| && es[i].field == k
      {
        if k in TablePass(init, attr, data) {
          var i :| 0 <= i < |init| && init[i].field == k;
          assert es[i].field == k;
        } else {
          assert es[|es| - 1].field == k;
        }
      }
    }
  }

  // ---------------------------------------------------------- derived fields

  /** Python truthiness of a field value. */
  predicate Truthy(v: Value) {
    match v
    case Str(s) => s != ""
    case Int(i) => i != 0
    case Real(r) => r != 0.0
    case Bool(b) => b
    case Time(_) => true
    case StrList(items) => |items| > 0
    case StrMap(entries) => |entries| > 0
    case Null => false
  }

  predicate TimeAt(data: map<Field, Value>, f: Field) {
    f in data ==> data[f].Time?
  }

  /** The fields the derivation reads hold the kinds of value their converters produce. */
  predicate WellTyped(data: map<Field, Value>) {
    && TimeAt(data, CreateTime) && TimeAt(data, FinishTime)
    && TimeAt(data, StartTime) && TimeAt(data, EligibleTime)
    && (Args in data ==> data[Args].StrList?)
    && (Variables in data ==> data[Variables].StrMap?)
  }

  /** Why a record could not be built. */
  datatype Failure =
    | BadJobId                  // int() of the identifier's prefix raised
    | Missing(key: Field)       // a KeyError on the named field
    | ZeroDivision              // total_hours rounded to 0

  /** `basename(args[-1])`, or `"unknown"` when there is no last argument. */
  function AppFromArgs(data: map<Field, Value>): Value
    requires Args in data ==> data[Args].StrList?
  {
    if Args in data && |data[Args].items| > 0 then
      Str(Basename(data[Args].items[|data[Args].items| - 1]))
    else Str("unknown")
  }

  /** `variables.get('jobfile', None)`. */
  function JobFileOf(vars: map<string, string>): Value {
    if "jobfile" in vars then Str(vars["jobfile"]) else Null
  }

  /** Field `f` is present in both maps or in neither, with the same value. */
  predicate Agree(a: map<Field, Value>, b: map<Field, Value>, f: Field) {
    (f in a <==> f in b) && (f in a ==> a[f] == b[f])
  }

  /** The start-time fallback: a missing start time is replaced by the eligible time, which must then exist. */
  function FixStart(data: map<Field, Value>): (r: Result<map<Field, Value>, Failure>)
    requires WellTyped(data)
    ensures r.Ok? <==> StartTime in data || EligibleTime in data
    ensures r.Ok? ==> WellTyped(r.value) && StartTime in r.value
    ensures r.Ok? ==> forall k :: k != StartTime ==> Agree(r.value, data, k)
  {
    if StartTime in data && Truthy(data[StartTime]) then Ok(data)
    else if EligibleTime !in data then Err(Missing(EligibleTime))
    else Ok(data[StartTime := data[EligibleTime]])
  }

  /** The three durations and the wait rate; a missing time or a zero total ends the derivation. */
  function AddDurations(data: map<Field, Value>): (r: Result<map<Field, Value>, Failure>)
    requires WellTyped(data) && StartTime in data
    ensures r.Ok? ==> WellTyped(r.value)
    ensures r.Ok? ==> RunHours in r.value && WaitHours in r.value && TotalHours in r.value && WaitRate in r.value
    ensures r.Ok? ==> forall k :: k != RunHours && k != WaitHours && k != TotalHours && k != WaitRate ==>
      Agree(r.value, data, k)
  {
    var start := data[StartTime].secs;
    if FinishTime !in data then Err(Missing(FinishTime))
    else
      var finish := data[FinishTime].secs;
      var d2 := data[RunHours := Real(TimeRange(start, finish))];
      if EligibleTime !in d2 then Err(Missing(EligibleTime))
      else
        var wait := TimeRange(d2[EligibleTime].secs, start);
        var d3 := d2[WaitHours := Real(wait)];
        if CreateTime !in d3 then Err(Missing(CreateTime))
        else
          var total := TimeRange(d3[CreateTime].secs, finish);
          var d4 := d3[TotalHours := Real(total)];
          if total == 0.0 then Err(ZeroDivision)
          else Ok(d4[WaitRate := Real(Round2(wait / total))])
  }

  /** The `app` fallback: kept when set and non-empty, otherwise taken from the submit arguments. */
  function FixApp(data: map<Field, Value>): (r: map<Field, Value>)
    requires WellTyped(data)
    ensures WellTyped(r) && App in r
    ensures forall k :: k != App ==> Agree(r, data, k)
  {
    if App in data && Truthy(data[App]) then data else data[App := AppFromArgs(data)]
  }

  /** `job_file` from the variables, which must exist. */
  function AddJobFile(data: map<Field, Value>): (r: Result<map<Field, Value>, Failure>)
    requires WellTyped(data)
    ensures r.Ok? <==> Variables in data
    ensures r.Ok? ==> JobFile in r.value
    ensures r.Ok? ==> forall k :: k != JobFile ==> Agree(r.value, data, k)
  {
    if Variables !in data then Err(Missing(Variables))
    else Ok(data[JobFile := JobFileOf(data[Variables].entries)])
  }

  /** The time fixes: the start-time fallback, then the durations and the wait rate. */
  function FixTimes(data: map<Field, Value>): (r: Result<map<Field, Value>, Failure>)
    requires WellTyped(data)
    ensures r.Ok? ==> WellTyped(r.value)
    ensures r.Ok? ==>
      StartTime in r.value && RunHours in r.value && WaitHours in r.value && TotalHours in r.value && WaitRate in r.value
    ensures r.Ok? ==> forall k ::
      (k != StartTime && k != RunHours && k != WaitHours && k != TotalHours && k != WaitRate) ==> Agree(r.value, data, k)
  {
    match FixStart(data)
    case Err(f) => Err(f)
    case Ok(d1) => AddDurations(d1)
  }

  /** The derivation after the table loop, step by step; the first KeyError or division by zero ends it. */
  function Derive(data: map<Field, Value>): Result<map<Field, Value>, Failure>
    requires WellTyped(data)
  {
    match FixTimes(data)
    case Err(f) => Err(f)
    case Ok(d5) => AddJobFile(FixApp(d5))
  }

  /** `int(job_id.split('.', 1)[0])`: the integer before the identifier's first dot. */
  function JobIdOf(id: string): Option<int> {
    match IndexOf(id, '.')
    case None => ParseInt(id)
    case Some(i) => ParseInt(id[..i])
  }

  /** The record after the table loop, started from the job id alone. */
  function Table(attr: map<string, string>, id: int): (r: map<Field, Value>)
    ensures WellTyped(r)
    ensures JobId in r && r[JobId] == Int(id)
  {
    TableWellTyped(attr, map[JobId := Int(id)]);
    forall i | 0 <= i < |ExportTable|
      ensures ExportTable[i].field != JobId
    {
      TableFieldNotDerived(i);
    }
    TablePassOther(ExportTable, attr, map[JobId := Int(id)], JobId);
    TablePass(ExportTable, attr, map[JobId := Int(id)])
  }

  /** The record the constructor builds from an identifier and an attribute map, or why it raised. */
  function Normalise(jobId: string, attr: map<string, string>): Result<map<Field, Value>, Failure> {
    match JobIdOf(jobId)
    case None => Err(BadJobId)
    case Some(id) => Derive(Table(attr, id))
  }

  /** A row's field, after the loop, holds the kind of value its converter produces. */
  lemma FieldTyped(attr: map<string, string>, data: map<Field, Value>, j: nat)
    requires j < |ExportTable| && Row(j).field !in data
    ensures var f := Row(j).field;
      f in TablePass(ExportTable, attr, data) ==> OfType(Row(j).conv, TablePass(ExportTable, attr, data)[f])
  {
    TableAt(j);
    ExportTableDistinct();
    TablePassField(ExportTable, attr, data, j);
  }

  /** The table loop fills the fields the derivation reads with values of the right kind. */
  lemma TableWellTyped(attr: map<string, string>, data: map<Field, Value>)
    requires forall f :: f in data ==> f == JobId
    ensures WellTyped(TablePass(ExportTable, attr, data))
  {
    FieldTyped(attr, data, 12);
    FieldTyped(attr, data, 13);
    FieldTyped(attr, data, 14);
    FieldTyped(attr, data, 15);
    FieldTyped(attr, data, 16);
    FieldTyped(attr, data, 17);
  }

  // ------------------------------------------------------- the derivation's promises

  /** The start the durations use: the job's own start, or its eligible time in its place. */
  function EffectiveStart(data: map<Field, Value>): int
    requires WellTyped(data) && (StartTime in data || EligibleTime in data)
  {
    if StartTime in data then data[StartTime].secs else data[EligibleTime].secs
  }

  /**
   * The derivation succeeds exactly when the eligible, finish and creation
   * times and the variables are all there and the total rounds to a non-zero
   * number of hours.
   */
  lemma DeriveOkIff(data: map<Field, Value>)
    requires WellTyped(data)
    ensures Derive(data).Ok? <==>
      && EligibleTime in data && FinishTime in data && CreateTime in data && Variables in data
      && !(-18 <= data[FinishTime].secs - data[CreateTime].secs <= 18)
  {
    if FinishTime in data && CreateTime in data {
      TimeRangeZeroIff(data[CreateTime].secs, data[FinishTime].secs);
    }
  }

  /** Which failure ends the derivation: the first missing key, in the order the steps read them. */
  lemma DeriveFailure(data: map<Field, Value>)
    requires WellTyped(data)
    ensures StartTime !in data && EligibleTime !in data ==> Derive(data) == Err(Missing(EligibleTime))
    ensures (StartTime in data || EligibleTime in data) && FinishTime !in data ==>
      Derive(data) == Err(Missing(FinishTime))
    ensures FinishTime in data && EligibleTime !in data ==> Derive(data) == Err(Missing(EligibleTime))
    ensures FinishTime in data && EligibleTime in data && CreateTime !in data ==>
      Derive(data) == Err(Missing(CreateTime))
    ensures (FinishTime in data && EligibleTime in data && CreateTime in data
      && (-18 <= data[FinishTime].secs - data[CreateTime].secs <= 18)) ==> Derive(data) == Err(ZeroDivision)
    ensures (FinishTime in data && EligibleTime in data && CreateTime in data
      && !(-18 <= data[FinishTime].secs - data[CreateTime].secs <= 18) && Variables !in data) ==>
      Derive(data) == Err(Missing(Variables))
  {
    if FinishTime in data && CreateTime in data {
      TimeRangeZeroIff(data[CreateTime].secs, data[FinishTime].secs);
    }
  }

  /** The fields the derivation adds, each a rounded duration in hours of the matching pair of times. */
  lemma DeriveDurations(data: map<Field, Value>)
    requires WellTyped(data) && Derive(data).Ok?
    ensures EligibleTime in data && FinishTime in data && CreateTime in data
    ensures var r := Derive(data).value;
      var s := EffectiveStart(data);
      && r[StartTime] == Time(s)
      && r[RunHours] == Real(TimeRange(s, data[FinishTime].secs))
      && r[WaitHours] == Real(TimeRange(data[EligibleTime].secs, s))
      && r[TotalHours] == Real(TimeRange(data[CreateTime].secs, data[FinishTime].secs))
      && r[TotalHours].r != 0.0
      && r[WaitRate] == Real(Round2(r[WaitHours].r / r[TotalHours].r))
  {
  }

  /** Without a start time the job counts as started when it became eligible: no wait, a wait rate of 0. */
  lemma DeriveStartFallback(data: map<Field, Value>)
    requires WellTyped(data) && Derive(data).Ok? && StartTime !in data
    ensures EligibleTime in data
    ensures var r := Derive(data).value;
      && r[StartTime] == data[EligibleTime]
      && r[WaitHours] == Real(0.0) && r[WaitRate] == Real(0.0)
  {
    DeriveDurations(data);
    TimeRangeZeroIff(data[EligibleTime].secs, data[EligibleTime].secs);
    RoundZeroIff(0.0);
  }

  /**
   * Each duration is within half a hundredth of an hour of the exact
   * difference of its two times.
   */
  lemma DeriveNear(data: map<Field, Value>)
    requires WellTyped(data) && Derive(data).Ok?
    ensures FinishTime in data && EligibleTime in data && CreateTime in data
    ensures var r := Derive(data).value;
      var s := EffectiveStart(data);
      var f := data[FinishTime].secs;
      && r[RunHours].Real? && r[WaitHours].Real? && r[TotalHours].Real?
      && -0.005 <= r[RunHours].r - (f - s) as real / 3600.0 <= 0.005
      && -0.005 <= r[WaitHours].r - (s - data[EligibleTime].secs) as real / 3600.0 <= 0.005
      && -0.005 <= r[TotalHours].r - (f - data[CreateTime].secs) as real / 3600.0 <= 0.005
  {
    DeriveDurations(data);
  }

  /** A wait no longer than a non-zero total gives a rate between 0 and 1. */
  lemma RateUnit(wait: real, total: real)
    requires 0.0 <= wait <= total && total != 0.0
    ensures 0.0 <= Round2(wait / total) <= 1.0
  {
    assert wait / total * total == wait;
    RoundUnit(wait / total);
  }

  /**
   * For a job whose times come in their natural order (created, eligible,
   * started, finished) the durations are non-negative, neither the run nor
   * the wait exceeds the total, and the wait rate is a fraction between 0 and 1.
   */
  lemma DeriveOrdered(data: map<Field, Value>)
    requires WellTyped(data) && Derive(data).Ok?
    requires FinishTime in data && EligibleTime in data && CreateTime in data
    requires var s := EffectiveStart(data);
      data[CreateTime].secs <= data[EligibleTime].secs <= s <= data[FinishTime].secs
    ensures var r := Derive(data).value;
      && 0.0 <= r[RunHours].r <= r[TotalHours].r
      && 0.0 <= r[WaitHours].r <= r[TotalHours].r
      && 0.0 <= r[WaitRate].r <= 1.0
  {
    DeriveDurations(data);
    var s := EffectiveStart(data);
    var c, e, f := data[CreateTime].secs, data[EligibleTime].secs, data[FinishTime].secs;
    TimeRangeMonotone(s, f, c, f);
    TimeRangeMonotone(e, s, c, f);
    RateUnit(TimeRange(e, s), TimeRange(c, f));
  }

  /** The `app` field: kept when it is set and non-empty, otherwise taken from the last submit argument. */
  lemma DeriveApp(data: map<Field, Value>)
    requires WellTyped(data) && Derive(data).Ok?
    ensures App in data && Truthy(data[App]) ==> Derive(data).value[App] == data[App]
    ensures !(App in data && Truthy(data[App])) ==> Derive(data).value[App] == AppFromArgs(data)
  {
    var d5 := FixTimes(data).value;
    var d6 := FixApp(d5);
    assert Derive(data) == AddJobFile(d6);
    assert Agree(Derive(data).value, d6, App);
    assert Agree(d5, data, App);
    assert Agree(d5, data, Args);
  }

  /** The application named by a submit argument is its file name without directory and extension. */
  lemma AppFromPath(data: map<Field, Value>, front: seq<string>, dir: string, stem: string, ext: string)
    requires Args in data && data[Args] == StrList(front + [dir + "/" + stem + "." + ext])
    requires '/' !in stem && '/' !in ext && '.' !in ext
    ensures AppFromArgs(data) == Str(stem)
  {
    BasenameOf(dir, stem, ext);
  }

  /** A bare file name as the last submit argument names the application by its stem. */
  lemma AppFromFile(data: map<Field, Value>, front: seq<string>, stem: string, ext: string)
    requires Args in data && data[Args] == StrList(front + [stem + "." + ext])
    requires '/' !in stem && '/' !in ext && '.' !in ext
    ensures AppFromArgs(data) == Str(stem)
  {
    BasenameBare(stem, ext);
  }

  /** Without submit arguments the application is `unknown`. */
  lemma AppUnknown(data: map<Field, Value>)
    requires Args in data ==> data[Args].StrList?
    requires Args !in data || data[Args].items == []
    ensures AppFromArgs(data) == Str("unknown")
  {
  }

  /** `job_file` is the variables' `jobfile` entry when there is one, None otherwise. */
  lemma DeriveJobFile(data: map<Field, Value>)
    requires WellTyped(data) && Derive(data).Ok?
    ensures Variables in data
    ensures var vars := data[Variables].entries; var r := Derive(data).value;
      && (r[JobFile] != Null <==> "jobfile" in vars)
      && ("jobfile" in vars ==> r[JobFile] == Str(vars["jobfile"]))
  {
  }

  /** The fields the derivation writes. */
  const DerivedFields: set<Field> := {StartTime, RunHours, WaitHours, TotalHours, WaitRate, App, JobFile}

  /**
   * The derivation adds exactly its own fields and leaves every other field,
   * and a start time that was already set, as the table loop left it.
   */
  lemma DeriveKeeps(data: map<Field, Value>)
    requires WellTyped(data) && Derive(data).Ok?
    ensures forall k :: k in DerivedFields ==> k in Derive(data).value
    ensures forall k :: k !in DerivedFields ==> Agree(Derive(data).value, data, k)
    ensures StartTime in data ==> Derive(data).value[StartTime] == data[StartTime]
  {
  }

  // ------------------------------------------------------------- the job id

  /** The identifier's integer prefix: a job id `n.server` gives `n`. */
  lemma JobIdOfServer(n: int, server: string)
    ensures JobIdOf(IntText(n) + "." + server) == Some(n)
  {
    var id := IntText(n) + "." + server;
    IntTextNoDot(n);
    assert id[..|IntText(n)|] == IntText(n);
    IndexOfAt(id, '.', |IntText(n)|);
    ParseIntText(n);
  }

  /** An identifier without a dot is read whole. */
  lemma JobIdOfBare(n: int)
    ensures JobIdOf(IntText(n)) == Some(n)
  {
    IntTextNoDot(n);
    ParseIntText(n);
  }

  /** The job id is the integer before the identifier's first dot. */
  lemma JobIdAt(id: string, i: nat, n: int)
    requires i < |id| && id[i] == '.' && '.' !in id[..i] && ParseInt(id[..i]) == Some(n)
    ensures JobIdOf(id) == Some(n)
  {
    IndexOfAt(id, '.', i);
  }

  /** The constructor raises on the identifier exactly when its prefix is not an integer, whatever the attributes. */
  lemma NormaliseBadId(jobId: string, attr: map<string, string>)
    ensures Normalise(jobId, attr) == Err(BadJobId) <==> JobIdOf(jobId).None?
  {
  }

  /** A built record carries the identifier's integer as `job_id`. */
  lemma NormaliseJobId(jobId: string, attr: map<string, string>)
    requires Normalise(jobId, attr).Ok?
    ensures JobIdOf(jobId).Some?
    ensures JobId in Normalise(jobId, attr).value
    ensures Normalise(jobId, attr).value[JobId] == Int(JobIdOf(jobId).value)
  {
    var data := Table(attr, JobIdOf(jobId).value);
    assert Normalise(jobId, attr) == Derive(data);
    var d5 := FixTimes(data).value;
    var d6 := FixApp(d5);
    assert Derive(data) == AddJobFile(d6);
    assert Agree(d5, data, JobId);
    assert Agree(d6, d5, JobId);
    assert Agree(AddJobFile(d6).value, d6, JobId);
  }

  /**
   * Every table field other than the start time and `app` ends up in a built
   * record exactly when its own row produced a value, and holds that value.
   */
  lemma NormaliseField(jobId: string, attr: map<string, string>, j: nat)
    requires j < |ExportTable| && ExportTable[j].field != StartTime && ExportTable[j].field != App
    requires Normalise(jobId, attr).Ok?
    ensures var f := ExportTable[j].field;
      && (f in Normalise(jobId, attr).value <==> EntryValue(ExportTable[j], attr).Some?)
      && (f in Normalise(jobId, attr).value ==> Normalise(jobId, attr).value[f] == EntryValue(ExportTable[j], attr).value)
  {
    var id := JobIdOf(jobId).value;
    var data := Table(attr, id);
    var f := ExportTable[j].field;
    TableFieldNotDerived(j);
    TableRow(attr, id, j);
    DeriveKeeps(data);
    assert Agree(Derive(data).value, data, f);
  }

  /**
   * Failure isolation on the export table: after the loop, a row's field is
   * set exactly when that row produced a value, and holds that value,
   * whatever the other rows did.
   */
  lemma TableRow(attr: map<string, string>, id: int, j: nat)
    requires j < |ExportTable|
    ensures ExportTable[j].field in Table(attr, id) <==> EntryValue(ExportTable[j], attr).Some?
    ensures EntryValue(ExportTable[j], attr).Some? ==>
      Table(attr, id)[ExportTable[j].field] == EntryValue(ExportTable[j], attr).value
  {
    var init := map[JobId := Int(id)];
    assert Table(attr, id) == TablePass(ExportTable, attr, init);
    RowOrdinal(j);
    ExportTableDistinct();
    TablePassField(ExportTable, attr, init, j);
  }

  // --------------------------------------------------------- the constructor

  /** One pass of the loop: the row's value is stored when its key is set and its converter succeeds. */
  method ApplyRow(e: Entry, attr: map<string, string>, data: map<Field, Value>) returns (r: map<Field, Value>)
    ensures r == ApplyEntry(e, attr, data)
  {
    r := data;
    var key := LookupKey(e.source);
    if key in attr && attr[key] != "" {
      var v := Convert(e.conv, StripTag(attr[key]));
      if v.Some? {
        r := r[e.field := v.value];
      }
    }
  }

  /** The loop over the export table, each row's failure swallowed. */
  method ParseTable(attr: map<string, string>, id: int) returns (data: map<Field, Value>)
    ensures data == Table(attr, id)
  {
    data := RunRows(ExportTable, attr, map[JobId := Int(id)]);
  }

  /** The loop itself, over any list of rows, starting from `data`. */
  method RunRows(es: seq<Entry>, attr: map<string, string>, data: map<Field, Value>) returns (r: map<Field, Value>)
    ensures r == TablePass(es, attr, data)
  {
    r := data;
    for i := 0 to |es|
      invariant r == TablePass(es[..i], attr, data)
    {
      r := ApplyRow(es[i], attr, r);
      assert es[..i + 1][..i] == es[..i];
    }
    assert es[..|es|] == es;
  }

  /**
   * The constructor's body: the job id, the table loop, then the derived
   * fields.
   */
  method Build(jobId: string, attr: map<string, string>) returns (r: Result<map<Field, Value>, Failure>)
    ensures r == Normalise(jobId, attr)
  {
    var parsed := JobIdOf(jobId);
    if parsed.None? {
      return Err(BadJobId);
    }
    var data := ParseTable(attr, parsed.value);
    r := FixData(data);
  }

  /** The fixes after the table loop, in place; the first missing key or a zero total ends them. */
  method FixData(table: map<Field, Value>) returns (r: Result<map<Field, Value>, Failure>)
    requires WellTyped(table)
    ensures r == Derive(table)
  {
    var times := UpdateTimes(table);
    if times.Err? {
      return Err(times.error);
    }
    var data := times.value;
    // the app fallback
    if !(App in data && Truthy(data[App])) {
      if Args in data && |data[Args].items| > 0 {
        data := data[App := Str(Basename(data[Args].items[|data[Args].items| - 1]))];
      } else {
        data := data[App := Str("unknown")];
      }
    }
    assert data == FixApp(times.value) by {
      if App in times.value && Truthy(times.value[App]) {
      } else {
        assert data[App] == AppFromArgs(times.value);
      }
    }
    // the job file
    if Variables !in data {
      return Err(Missing(Variables));
    }
    data := data[JobFile := JobFileOf(data[Variables].entries)];
    return Ok(data);
  }

  /** The start-time fallback and the durations, in place. */
  method UpdateTimes(table: map<Field, Value>) returns (r: Result<map<Field, Value>, Failure>)
    requires WellTyped(table)
    ensures r == FixTimes(table)
  {
    var data := table;
    if !(StartTime in data && Truthy(data[StartTime])) {
      if EligibleTime !in data {
        return Err(Missing(EligibleTime));
      }
      data := data[StartTime := data[EligibleTime]];
    }
    assert FixStart(table) == Ok(data);
    ghost var started := data;
    if FinishTime !in data {
      return Err(Missing(FinishTime));
    }
    data := data[RunHours := Real(TimeRange(data[StartTime].secs, data[FinishTime].secs))];
    if EligibleTime !in data {
      return Err(Missing(EligibleTime));
    }
    data := data[WaitHours := Real(TimeRange(data[EligibleTime].secs, data[StartTime].secs))];
    if CreateTime !in data {
      return Err(Missing(CreateTime));
    }
    data := data[TotalHours := Real(TimeRange(data[CreateTime].secs, data[FinishTime].secs))];
    if data[TotalHours].r == 0.0 {
      return Err(ZeroDivision);
    }
    data := data[WaitRate := Real(Round2(data[WaitHours].r / data[TotalHours].r))];
    assert AddDurations(started) == Ok(data);
    return Ok(data);
  }

  // ------------------------------------------------------------ the record

  /** A job record: the dictionary its constructor fills and the key filter on it. */
  class JobData {
    var data: map<Field, Value>

    /** Stores a built dictionary as the record's data. */
    constructor (built: map<Field, Value>)
      ensures data == built
    {
      data := built;
    }

    /** Builds the record for a job, or reports why the constructor raises. */
    static method Create(jobId: string, attr: map<string, string>) returns (r: Result<JobData, Failure>)
      ensures r.Ok? ==> fresh(r.value) && Normalise(jobId, attr) == Ok(r.value.data)
      ensures r.Err? ==> Normalise(jobId, attr) == Err(r.error)
    {
      var built := Build(jobId, attr);
      if built.Err? {
        return Err(built.error);
      }
      var job := new JobData(built.value);
      return Ok(job);
    }

    /** `export`: the entries whose key is among `keys`, and nothing else. */
    function Export(keys: set<string>): (r: map<string, Value>)
      reads this
      ensures forall k :: k in r ==> k in keys
      ensures forall k :: k in r ==> FieldNamed(k).Some? && FieldNamed(k).value in data
      ensures forall f :: Name(f) in r <==> f in data && Name(f) in keys
      ensures forall f :: Name(f) in r ==> r[Name(f)] == data[f]
    {
      forall f ensures FieldNamed(Name(f)) == Some(f) {
        FieldNamedName(f);
      }
      forall k ensures FieldNamed(k).Some? ==> Name(FieldNamed(k).value) == k {
        NameFieldNamed(k);
      }
      map k | k in keys && FieldNamed(k).Some? && FieldNamed(k).value in data :: data[FieldNamed(k).value]
    }

    /** Asking for more keys never loses an entry. */
    lemma ExportMonotone(keys: set<string>, more: set<string>)
      requires keys <= more
      ensures forall k :: k in Export(keys) ==> k in Export(more) && Export(more)[k] == Export(keys)[k]
    {
    }

    /** Asking for every field's key gives back the whole record. */
    lemma ExportAll(keys: set<string>)
      requires forall f :: f in data ==> Name(f) in keys
      ensures forall f :: f in data <==> Name(f) in Export(keys)
    {
    }
  }
}
