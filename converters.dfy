/**
 * The attribute converters: each turns the text of one scheduler attribute
 * (its `tag.` prefix already removed) into a typed field value, or fails
 * (None) exactly where the Python converter raises.
 */
module Converters {
  import opened Wrappers
  import opened Text
  import opened Numbers
  import opened Patterns

  /** A field value of a job record. */
  datatype Value =
    | Str(s: string)
    | Int(i: int)
    | Real(r: real)
    | Bool(b: bool)
    | Time(secs: int)                        // a `datetime`, as epoch seconds
    | StrList(items: seq<string>)
    | StrMap(entries: map<string, string>)
    | Null                                   // Python's None

  // ------------------------------------------------------------------- hours

  /** Three parts joined by a separator. */
  lemma Join3(a: string, b: string, c: string, sep: char)
    ensures Join([a, b, c], sep) == a + [sep] + b + [sep] + c
  {
    assert [a, b, c][1..] == [b, c];
    assert [b, c][1..] == [c];
    assert Join([b, c], sep) == b + [sep] + c;
    assert a + [sep] + (b + [sep] + c) == a + [sep] + b + [sep] + c;
  }

  /** `H:M:S` with colon-free parts splits back into those parts. */
  lemma SplitThree(h: string, m: string, sec: string)
    requires ':' !in h && ':' !in m && ':' !in sec
    ensures Split(h + ":" + m + ":" + sec, ':') == [h, m, sec]
  {
    Join3(h, m, sec, ':');
    SplitJoin([h, m, sec], ':');
  }

  /** `hours`: `H:M:S` to hours, rounded to two places; the seconds are ignored. */
  function Hours(pat: string): (r: Option<real>)
    ensures r.Some? <==> var parts := Split(pat, ':');
      |parts| == 3 && IsIntText(parts[0]) && IsIntText(parts[1])
  {
    HoursOfParts(Split(pat, ':'))
  }

  /** The unpacking into hours, minutes and seconds, and the sum `hours` rounds. */
  function HoursOfParts(parts: seq<string>): (r: Option<real>)
    ensures r.Some? <==> |parts| == 3 && IsIntText(parts[0]) && IsIntText(parts[1])
  {
    if |parts| != 3 || ParseInt(parts[0]).None? || ParseInt(parts[1]).None? then None
    else Some(Round2(ParseInt(parts[0]).value as real + ParseInt(parts[1]).value as real / 60.0))
  }

  /** A text that splits into three parts H, M, S: accepted iff H and M are integers, then within half a hundredth of H + M/60. */
  lemma HoursParts(pat: string, h: string, m: string, sec: string)
    requires Split(pat, ':') == [h, m, sec]
    ensures Hours(pat).Some? <==> IsIntText(h) && IsIntText(m)
    ensures Hours(pat).Some? ==>
      var exact := ParseInt(h).value as real + ParseInt(m).value as real / 60.0;
      -0.005 <= Hours(pat).value - exact <= 0.005
  {
    HoursOfNumbers(h, m, sec);
  }

  /** Every accepted text converts to a whole number of hundredths of an hour. */
  lemma HoursOnGrid(pat: string)
    requires Hours(pat).Some?
    ensures Hundredths(Hours(pat).value)
  {
    var parts := Split(pat, ':');
    var exact := ParseInt(parts[0]).value as real + ParseInt(parts[1]).value as real / 60.0;
    var r := Hours(pat).value;
    assert r == Round2(exact);
    RoundOnGrid(exact);
  }

  /** Three parts whose first two are integers convert to their rounded sum; otherwise they fail. */
  lemma HoursOfNumbers(h: string, m: string, sec: string)
    ensures IsIntText(h) && IsIntText(m) ==>
      HoursOfParts([h, m, sec]) == Some(Round2(ParseInt(h).value as real + ParseInt(m).value as real / 60.0))
    ensures !(IsIntText(h) && IsIntText(m)) ==> HoursOfParts([h, m, sec]) == None
  {
    var parts := [h, m, sec];
    assert parts[0] == h && parts[1] == m;
  }

  /** Texts that split into the same hours and minutes convert alike. */
  lemma HoursSameParts(p1: string, p2: string, h: string, m: string, s1: string, s2: string)
    requires Split(p1, ':') == [h, m, s1] && Split(p2, ':') == [h, m, s2]
    ensures Hours(p1) == Hours(p2)
  {
    HoursOfThree(h, m, s1);
    HoursOfThree(h, m, s2);
  }

  /** Three parts convert by their first two alone. */
  lemma HoursOfThree(h: string, m: string, sec: string)
    ensures HoursOfParts([h, m, sec]) == HoursOfParts([h, m, ""])
  {
    var p, q := [h, m, sec], [h, m, ""];
    assert p[0] == q[0] && p[1] == q[1];
  }

  /** The seconds part never changes the result. */
  lemma HoursIgnoresSeconds(h: string, m: string, s1: string, s2: string)
    requires ':' !in h && ':' !in m && ':' !in s1 && ':' !in s2
    ensures Hours(h + ":" + m + ":" + s1) == Hours(h + ":" + m + ":" + s2)
  {
    SplitThree(h, m, s1);
    SplitThree(h, m, s2);
    HoursSameParts(h + ":" + m + ":" + s1, h + ":" + m + ":" + s2, h, m, s1, s2);
  }

  /** Any number of colons other than two makes the unpacking fail. */
  lemma HoursNeedsTwoColons(pat: string)
    requires multiset(pat)[':'] != 2
    ensures Hours(pat).None?
  {
    SplitCount(pat, ':');
  }

  // --------------------------------------------------- timestamp, exit status

  /** `timestamp`: epoch seconds to a point in time; fails where `int()` does. */
  function Timestamp(pat: string): (r: Option<Value>)
    ensures r.Some? <==> IsIntText(pat)
    ensures r.Some? ==> r.value.Time?
  {
    match ParseInt(pat)
    case Some(n) => Some(Time(n))
    case None => None
  }

  /** The decimal text of any epoch second converts back to that second. */
  lemma TimestampText(n: int)
    ensures Timestamp(IntText(n)) == Some(Time(n))
  {
    ParseIntText(n);
  }

  /** `is_job_success`: true iff the exit status is the integer zero. */
  function IsJobSuccess(pat: string): (r: Option<Value>)
    ensures r.Some? <==> IsIntText(pat)
    ensures r.Some? ==> r.value.Bool?
  {
    match ParseInt(pat)
    case Some(n) => Some(Bool(n == 0))
    case None => None
  }

  /** Exit status `n` means success exactly when `n` is 0. */
  lemma ExitStatusText(n: int)
    ensures IsJobSuccess(IntText(n)) == Some(Bool(n == 0))
  {
    ParseIntText(n);
  }

  // ---------------------------------------------------------------- var_list

  /** The key of one `K=V` item: the text before its first `=` (all of it when there is none). */
  function ItemKey(item: string): string {
    Split(item, '=')[0]
  }

  /** Items whose key starts with `PBS_` are dropped before their value is read. */
  predicate Reserved(item: string) {
    StartsWith(ItemKey(item), "PBS_")
  }

  /** An item the comprehension cannot take: kept, but with no `=` to give it a value. */
  predicate Broken(item: string) {
    !Reserved(item) && '=' !in item
  }

  /** The dict comprehension over the split items, left to right; a later key overwrites an earlier one. */
  function VarItems(items: seq<string>): Option<map<string, string>>
    decreases |items|
  {
    if |items| == 0 then Some(map[])
    else match VarItems(items[..|items| - 1])
      case None => None
      case Some(m) =>
        var parts := Split(items[|items| - 1], '=');
        if StartsWith(parts[0], "PBS_") then Some(m)
        else if |parts| < 2 then None
        else Some(m[parts[0] := parts[1]])
  }

  /** `var_list`: a comma-separated `K=V` list to a map without the `PBS_` keys. */
  function VarList(pat: string): (r: Option<Value>)
    ensures r.Some? ==> r.value.StrMap?
  {
    match VarItems(Split(Strip(pat), ','))
    case Some(m) => Some(StrMap(m))
    case None => None
  }

  /** An item has a single part exactly when it holds no `=`, and then that part is the item. */
  lemma SplitNoSep(s: string, sep: char)
    ensures |Split(s, sep)| == 1 <==> sep !in s
    ensures sep !in s ==> Split(s, sep)[0] == s
  {
    SplitCount(s, sep);
    assert sep !in s <==> multiset(s)[sep] == 0;
  }

  /** The conversion fails exactly when some kept item has no `=`. */
  lemma {:induction false} VarItemsFailIff(items: seq<string>)
    ensures VarItems(items).None? <==> exists j :: 0 <= j < |items| && Broken(items[j])
    decreases |items|
  {
    if |items| > 0 {
      var init := items[..|items| - 1];
      var last := items[|items| - 1];
      VarItemsFailIff(init);
      assert init + [last] == items;
      BrokenSnoc(init, last);
      VarItemsLast(init, last);
    }
  }

  /** Some item of a list with one more item is broken iff one of the earlier ones or the new one is. */
  lemma BrokenSnoc(init: seq<string>, last: string)
    ensures (exists j :: 0 <= j < |init + [last]| && Broken((init + [last])[j])) <==>
      (exists j :: 0 <= j < |init| && Broken(init[j])) || Broken(last)
  {
    var items := init + [last];
    if exists j :: 0 <= j < |items| && Broken(items[j]) {
      var j :| 0 <= j < |items| && Broken(items[j]);
      if j < |init| {
        assert Broken(init[j]);
      }
    }
    if exists j :: 0 <= j < |init| && Broken(init[j]) {
      var j :| 0 <= j < |init| && Broken(init[j]);
      assert items[j] == init[j];
    }
    assert items[|init|] == last;
  }

  /** One more item: the conversion fails iff it failed before or the new item is broken. */
  lemma VarItemsLast(init: seq<string>, last: string)
    ensures VarItems(init + [last]).None? <==> VarItems(init).None? || Broken(last)
  {
    var items := init + [last];
    assert items[..|items| - 1] == init && items[|items| - 1] == last;
    SplitNoSep(last, '=');
  }

  /** No key of the result starts with `PBS_`. */
  lemma {:induction false} VarItemsNoReserved(items: seq<string>)
    requires VarItems(items).Some?
    ensures forall k :: k in VarItems(items).value ==> !StartsWith(k, "PBS_")
    decreases |items|
  {
    if |items| > 0 {
      VarItemsNoReserved(items[..|items| - 1]);
    }
  }

  /** Every key of the result is the key of some kept item. */
  lemma {:induction false} VarItemsKeys(items: seq<string>)
    requires VarItems(items).Some?
    ensures forall k :: k in VarItems(items).value ==>
      exists j :: 0 <= j < |items| && !Reserved(items[j]) && ItemKey(items[j]) == k
    decreases |items|
  {
    if |items| > 0 {
      var init := items[..|items| - 1];
      VarItemsKeys(init);
      forall k | k in VarItems(items).value
        ensures exists j :: 0 <= j < |items| && !Reserved(items[j]) && ItemKey(items[j]) == k
      {
        if k in VarItems(init).value {
          var j :| 0 <= j < |init| && !Reserved(init[j]) && ItemKey(init[j]) == k;
          assert init[j] == items[j];
        } else {
          assert !Reserved(items[|items| - 1]) && ItemKey(items[|items| - 1]) == k;
        }
      }
    }
  }

  /**
   * A kept item that no later item overrides supplies its key's value: the
   * text between its first and its second `=`.
   */
  lemma {:induction false} VarItemsLastWins(items: seq<string>, j: nat)
    requires VarItems(items).Some?
    requires j < |items| && !Reserved(items[j])
    requires forall l :: j < l < |items| ==> ItemKey(items[l]) != ItemKey(items[j])
    ensures |Split(items[j], '=')| >= 2
    ensures ItemKey(items[j]) in VarItems(items).value
    ensures VarItems(items).value[ItemKey(items[j])] == Split(items[j], '=')[1]
    decreases |items|
  {
    var init := items[..|items| - 1];
    if j < |items| - 1 {
      assert init[j] == items[j];
      forall l | j < l < |init| ensures ItemKey(init[l]) != ItemKey(init[j]) {
        assert init[l] == items[l];
      }
      VarItemsLastWins(init, j);
    } else {
      SplitNoSep(items[j], '=');
    }
  }

  /** A text holding the separator splits into at least two parts. */
  lemma SplitAtSep(s: string, sep: char)
    requires sep in s
    ensures |Split(s, sep)| >= 2
  {
    var i := IndexOf(s, sep).value;
    assert Split(s, sep) == [s[..i]] + Split(s[i + 1..], sep);
  }

  /** The value of an item is the text after its first `=`, up to its second `=` or its end. */
  lemma ItemValueBetween(item: string)
    requires '=' in item
    ensures |Split(item, '=')| >= 2
    ensures var parts := Split(item, '=');
      var e := |parts[0]| + 1 + |parts[1]|;
      && e <= |item|
      && item[..|parts[0]|] == parts[0] && item[|parts[0]|] == '='
      && item[|parts[0]| + 1..e] == parts[1]
      && (e == |item| || item[e] == '=')
  {
    SplitAtSep(item, '=');
    var parts := Split(item, '=');
    JoinSecond(item, parts, '=');
  }

  /** In a join of two or more parts, the second part sits between the first two separators. */
  lemma JoinSecond(s: string, parts: seq<string>, sep: char)
    requires |parts| >= 2 && Join(parts, sep) == s
    ensures var e := |parts[0]| + 1 + |parts[1]|;
      && e <= |s| && s[..|parts[0]|] == parts[0] && s[|parts[0]|] == sep
      && s[|parts[0]| + 1..e] == parts[1]
      && (e == |s| || s[e] == sep)
  {
    assert s == parts[0] + [sep] + Join(parts[1..], sep);
    if |parts| == 2 {
      assert parts[1..] == [parts[1]];
      JoinPieces(s, parts[0], parts[1], "", sep);
    } else {
      assert parts[1..][1..] == parts[2..];
      var rest := [sep] + Join(parts[2..], sep);
      assert Join(parts[1..], sep) == parts[1] + rest;
      JoinPieces(s, parts[0], parts[1], rest, sep);
    }
  }

  /** Reading the pieces of `key=value rest` back off the text. */
  lemma JoinPieces(item: string, key: string, value: string, rest: string, sep: char)
    requires item == key + [sep] + (value + rest)
    ensures item[..|key|] == key && item[|key|] == sep
    ensures item[|key| + 1..|key| + 1 + |value|] == value
    ensures |key| + 1 + |value| < |item| ==> item[|key| + 1 + |value|] == rest[0]
  {
  }

  // ------------------------------------------------------------------- hosts

  /** `hosts`: the distinct host names `host_pat` finds. */
  function Hosts(pat: string): (r: seq<string>)
    ensures forall h :: h in r <==> h in FindHosts(pat)
    ensures forall i, j :: 0 <= i < j < |r| ==> r[i] != r[j]
  {
    Dedup(FindHosts(pat))
  }

  /** Every reported host is a non-empty run of `[a-z0-9-]` found in the text right before a slot. */
  lemma HostsSound(pat: string, h: string)
    requires h in Hosts(pat)
    ensures |h| > 0 && (forall c :: c in h ==> IsNameChar(c)) && OccursAsHost(pat, h)
  {
    FindHostsSound(pat);
    FindHostsNames(pat);
  }

  /** On a well-formed `exec_host` text, the hosts are exactly the entries' host names. */
  lemma HostsOfExecHost(es: seq<ExecSlot>)
    requires forall k :: 0 <= k < |es| ==> WellFormedSlot(es[k])
    ensures forall h :: h in Hosts(RenderExecHost(es)) <==> h in HostNames(es)
  {
    FindHostsRender(es);
  }

  // -------------------------------------------------------------------- size

  /** The unit letters under IGNORECASE, with their power of 1024 (the Kelvin sign folds to `k`). */
  function UnitRate(c: char): (r: Option<int>)
    ensures r.Some? ==> -2 <= r.value <= 1
  {
    if c == 'k' || c == 'K' || c == '\U{212a}' then Some(-2)
    else if c == 'm' || c == 'M' then Some(-1)
    else if c == 'g' || c == 'G' then Some(0)
    else if c == 't' || c == 'T' then Some(1)
    else None
  }

  predicate IsByte(c: char) { c == 'b' || c == 'B' }

  /**
   * The texts `^(\d+)(k|m|g|t)b$` matches under IGNORECASE: digits, a unit,
   * a `b`, and at most one newline, which `$` lets through at the very end.
   */
  ghost predicate SizeShape(pat: string) {
    exists d: nat :: SizeSplit(pat, d)
  }

  predicate SizeSplit(pat: string, d: nat) {
    && 0 < d && d + 2 <= |pat| && AllDigits(pat[..d])
    && UnitRate(pat[d]).Some? && IsByte(pat[d + 1])
    && (pat[d + 2..] == "" || pat[d + 2..] == "\n")
  }

  /** `n * 1024 ** rate` rounded to three places: `int` for g and t, `float` for k and m. */
  function Scaled(n: nat, rate: int): Value {
    if rate == -2 then Real(Round3(n as real / 1048576.0))
    else if rate == -1 then Real(Round3(n as real / 1024.0))
    else if rate == 0 then Int(n)
    else Int(n * 1024)
  }

  /** `size`: the regex match taken left to right, then the scaling. */
  function Size(pat: string): (r: Option<Value>)
    ensures r.Some? <==> SizeShape(pat)
    ensures r.Some? ==> r.value.Int? || r.value.Real?
  {
    var d := DigitsLen(pat);
    if d == 0 || d + 2 > |pat| || UnitRate(pat[d]).None? || !IsByte(pat[d + 1]) then
      assert !SizeShape(pat) by { SizeSplitAt(pat); }
      None
    else if pat[d + 2..] != "" && pat[d + 2..] != "\n" then
      assert !SizeShape(pat) by { SizeSplitAt(pat); }
      None
    else
      assert SizeSplit(pat, d);
      Some(Scaled(DigitsValue(pat[..d]), UnitRate(pat[d]).value))
  }

  /** The only place the digits can end is where the digit run ends. */
  lemma SizeSplitAt(pat: string)
    ensures forall d: nat :: SizeSplit(pat, d) ==> d == DigitsLen(pat)
  {
    forall d: nat | SizeSplit(pat, d) ensures d == DigitsLen(pat) {
      assert forall k :: 0 <= k < d ==> pat[..d][k] == pat[k];
    }
  }

  /** A text split at the end of its digit run is scaled by the unit after the digits. */
  lemma SizeAt(pat: string, digits: string)
    requires DigitsLen(pat) == |digits| && pat[..|digits|] == digits && SizeSplit(pat, |digits|)
    ensures Size(pat) == Some(Scaled(DigitsValue(digits), UnitRate(pat[|digits|]).value))
  {
  }

  /** Digits, a unit, a `b` and an optional tail `$` accepts, split where the digits end. */
  lemma SizeSplitOf(digits: string, u: char, b: char, tail: string)
    requires |digits| > 0 && AllDigits(digits) && UnitRate(u).Some? && IsByte(b)
    requires tail == "" || tail == "\n"
    ensures var pat := digits + ([u, b] + tail);
      DigitsLen(pat) == |digits| && pat[..|digits|] == digits && SizeSplit(pat, |digits|) && pat[|digits|] == u
  {
    var pat := digits + ([u, b] + tail);
    DigitsLenConcat(digits, [u, b] + tail);
    assert pat[..|digits|] == digits;
    assert pat[|digits|] == u && pat[|digits| + 1] == b;
    assert pat[|digits| + 2..] == tail;
  }

  /** Digits, a unit and a `b` give the digits' value times 1024 to the unit's rate. */
  lemma SizeOf(digits: string, u: char, b: char)
    requires |digits| > 0 && AllDigits(digits) && UnitRate(u).Some? && IsByte(b)
    ensures Size(digits + [u, b]) == Some(Scaled(DigitsValue(digits), UnitRate(u).value))
    ensures Size(digits + [u, b] + "\n") == Size(digits + [u, b])
  {
    SizeSplitOf(digits, u, b, "");
    assert digits + ([u, b] + "") == digits + [u, b];
    SizeAt(digits + [u, b], digits);
    SizeSplitOf(digits, u, b, "\n");
    assert digits + ([u, b] + "\n") == digits + [u, b] + "\n";
    SizeAt(digits + [u, b] + "\n", digits);
  }

  /** Only the unit's rate matters, so case variants of the unit and of the `b` give the same value. */
  lemma SizeIgnoresCase(digits: string, u1: char, b1: char, u2: char, b2: char)
    requires |digits| > 0 && AllDigits(digits)
    requires UnitRate(u1).Some? && UnitRate(u1) == UnitRate(u2) && IsByte(b1) && IsByte(b2)
    ensures Size(digits + [u1, b1]) == Size(digits + [u2, b2])
  {
    SizeOf(digits, u1, b1);
    SizeOf(digits, u2, b2);
  }

  /** The unit letters that share a rate: upper and lower case, and the Kelvin sign for `k`. */
  lemma UnitRateCases()
    ensures UnitRate('k') == UnitRate('K') == UnitRate('\U{212a}') == Some(-2)
    ensures UnitRate('m') == UnitRate('M') == Some(-1)
    ensures UnitRate('g') == UnitRate('G') == Some(0)
    ensures UnitRate('t') == UnitRate('T') == Some(1)
  {
  }

  /** Before rounding the result is digits × 1024^rate; the rounding moves it by at most half a thousandth. */
  lemma ScaledNear(n: nat, rate: int)
    requires -2 <= rate <= 1
    ensures rate == 0 ==> Scaled(n, rate) == Int(n)
    ensures rate == 1 ==> Scaled(n, rate) == Int(n * 1024)
    ensures rate == -1 ==> Scaled(n, rate).Real? && -0.0005 <= Scaled(n, rate).r - n as real / 1024.0 <= 0.0005
    ensures rate == -2 ==> Scaled(n, rate).Real? && -0.0005 <= Scaled(n, rate).r - n as real / 1048576.0 <= 0.0005
  {
  }

  // ---------------------------------------------------------------- sub_args

  /** `sub_args`: the text of every `<jsdl-hpcpa:Argument>` element, in order. */
  function SubArgs(pat: string): (r: seq<string>)
    ensures forall k :: 0 <= k < |r| ==> |r[k]| > 0 && '\n' !in r[k]
  {
    FindArgs(pat)
  }

  // ---------------------------------------------------------------- basename

  /** `os.path.basename`: the text after the last `/`. */
  function LastComponent(path: string): (r: string)
    ensures '/' !in r
    ensures |r| <= |path| && path[|path| - |r|..] == r
    ensures |r| == |path| || path[|path| - |r| - 1] == '/'
  {
    match LastIndexOf(path, '/')
    case None => path
    case Some(i) => path[i + 1..]
  }

  /** `basename`: the last path component, cut before its last `.` if it has one. */
  function Basename(path: string): (r: string)
    ensures '/' !in r
    ensures var base := LastComponent(path);
      && |r| <= |base| && base[..|r|] == r
      && ('.' !in base ==> r == base)
      && ('.' in base ==> |r| < |base| && base[|r|] == '.' && '.' !in base[|r| + 1..])
  {
    var base := LastComponent(path);
    match LastIndexOf(base, '.')
    case None => base
    case Some(j) => base[..j]
  }

  /** A path ending in `stem.ext` gives `stem`, whatever directory precedes it. */
  lemma BasenameOf(dir: string, stem: string, ext: string)
    requires '/' !in stem && '/' !in ext && '.' !in ext
    ensures Basename(dir + "/" + stem + "." + ext) == stem
  {
    var path := dir + "/" + stem + "." + ext;
    var tail := stem + "." + ext;
    assert path == (dir + "/") + tail;
    assert path[|dir| + 1..] == tail;
    assert path[|dir|] == '/';
    LastIndexOfAt(path, '/', |dir|);
    assert tail[|stem|] == '.';
    assert tail[|stem| + 1..] == ext;
    LastIndexOfAt(tail, '.', |stem|);
    assert tail[..|stem|] == stem;
  }

  /** A bare file name `stem.ext` gives `stem`. */
  lemma BasenameBare(stem: string, ext: string)
    requires '/' !in stem && '/' !in ext && '.' !in ext
    ensures Basename(stem + "." + ext) == stem
  {
    var path := stem + "." + ext;
    assert '/' !in path;
    assert path[|stem|] == '.';
    assert path[|stem| + 1..] == ext;
    LastIndexOfAt(path, '.', |stem|);
    assert path[..|stem|] == stem;
  }

  /** A component with no `.` is kept whole. */
  lemma BasenameNoExtension(dir: string, name: string)
    requires '/' !in name && '.' !in name
    ensures Basename(dir + "/" + name) == name
  {
    var path := dir + "/" + name;
    assert path[|dir| + 1..] == name;
    assert path[|dir|] == '/';
    LastIndexOfAt(path, '/', |dir|);
  }

  // -------------------------------------------------------------- time_range

  /** `time_range`: hours from `start` to `finish`, rounded to two places. */
  function TimeRange(start: int, finish: int): (r: real)
    ensures -0.005 <= r - (finish - start) as real / 3600.0 <= 0.005
  {
    Round2((finish - start) as real / 3600.0)
  }

  /** Zero hours exactly when the two times are at most 18 seconds apart. */
  lemma TimeRangeZeroIff(start: int, finish: int)
    ensures TimeRange(start, finish) == 0.0 <==> -18 <= finish - start <= 18
  {
    RoundZeroIff((finish - start) as real / 3600.0);
  }

  /** A longer interval never gives fewer hours, and an ordered pair never gives negative hours. */
  lemma TimeRangeMonotone(s1: int, f1: int, s2: int, f2: int)
    requires f1 - s1 <= f2 - s2
    ensures TimeRange(s1, f1) <= TimeRange(s2, f2)
    ensures s1 <= f1 ==> TimeRange(s1, f1) >= 0.0
  {
    RoundMonotone((f1 - s1) as real / 3600.0, (f2 - s2) as real / 3600.0);
    if s1 <= f1 {
      RoundNonNegative((f1 - s1) as real / 3600.0);
    }
  }
}
