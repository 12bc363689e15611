/**
 * The two `findall` regular expressions of the attribute parser, written as
 * deterministic matchers:
 *   host_pat = ([a-z0-9-]+)(?:\[\d+])?/\d+(?:\*\d+)?
 *   arg_pat  = <jsdl-hpcpa:Argument>(.+?)</jsdl-hpcpa:Argument>
 * Neither pattern has anchors or look-around, so matching at position p of a
 * string is matching at the start of its suffix from p, and `findall` is a
 * scan over suffixes.
 */
module Patterns {
  import opened Wrappers
  import opened Numbers
  import opened Text

  // ---------------------------------------------------------------- host_pat

  /** The class `[a-z0-9-]`: lower-case ASCII letters, digits and the hyphen. */
  predicate IsNameChar(c: char) {
    'a' <= c <= 'z' || IsDigit(c) || c == '-'
  }

  /** Length of the longest prefix of `s` made of `[a-z0-9-]`. */
  function NameLen(s: string): (n: nat)
    ensures n <= |s|
    ensures forall k :: 0 <= k < n ==> IsNameChar(s[k])
    ensures n == |s| || !IsNameChar(s[n])
  {
    if |s| == 0 || !IsNameChar(s[0]) then 0 else 1 + NameLen(s[1..])
  }

  /** Length of the longest prefix of `s` made of ASCII digits. */
  function DigitsLen(s: string): (n: nat)
    ensures n <= |s|
    ensures forall k :: 0 <= k < n ==> IsDigit(s[k])
    ensures n == |s| || !IsDigit(s[n])
  {
    if |s| == 0 || !IsDigit(s[0]) then 0 else 1 + DigitsLen(s[1..])
  }

  /** Length of the optional group `(?:\[\d+])` at the start of `s`; 0 when it is absent. */
  function IndexLen(s: string): (n: nat)
    ensures n <= |s|
    ensures n > 0 ==> n >= 3 && s[0] == '[' && AllDigits(s[1..n - 1]) && s[n - 1] == ']'
  {
    if |s| > 0 && s[0] == '[' then
      var d := DigitsLen(s[1..]);
      if d > 0 && d + 1 < |s| && s[d + 1] == ']' then
        d + 2
      else 0
    else 0
  }

  /** Length of the optional group `(?:\*\d+)` at the start of `s`; 0 when it is absent. */
  function CountLen(s: string): (n: nat)
    ensures n <= |s|
    ensures n > 0 <==> |s| >= 2 && s[0] == '*' && IsDigit(s[1])
    ensures n > 0 ==> n == 1 + DigitsLen(s[1..])
  {
    if |s| > 0 && s[0] == '*' && DigitsLen(s[1..]) > 0 then 1 + DigitsLen(s[1..]) else 0
  }

  /** A taken `*digits` tail ends at the end of its digit run: no digit follows it. */
  lemma CountLenWholeRun(s: string)
    requires CountLen(s) > 0
    ensures AllDigits(s[1..CountLen(s)])
    ensures CountLen(s) == |s| || !IsDigit(s[CountLen(s)])
  {
    var d := DigitsLen(s[1..]);
    assert forall k :: 0 <= k < d ==> s[1..][k] == s[1..CountLen(s)][k];
    assert d == |s[1..]| || s[1..][d] == s[CountLen(s)];
  }

  /** Length of `/\d+(?:\*\d+)?` at the start of `s`; 0 when the slot is missing. */
  function SlotLen(s: string): (n: nat)
    ensures n <= |s|
    ensures n > 0 ==> |s| >= 2 && s[0] == '/' && IsDigit(s[1])
  {
    if |s| > 0 && s[0] == '/' && DigitsLen(s[1..]) > 0 then
      var d := 1 + DigitsLen(s[1..]);
      assert s[1..][..d - 1][0] == s[1];
      d + CountLen(s[d..])
    else 0
  }

  /**
   * What must follow a host name for `host_pat` to match: an optional
   * `[digits]` index, then `/` and at least one digit.
   */
  ghost predicate SlotFollows(t: string) {
    || (|t| >= 2 && t[0] == '/' && IsDigit(t[1]))
    || (exists j :: BracketThenSlot(t, j))
  }

  /** `t` opens with `[digits]`, its `]` at position `j`, followed by `/` and a digit. */
  predicate BracketThenSlot(t: string, j: nat) {
    2 <= j < |t| - 2 && t[0] == '[' && AllDigits(t[1..j]) && t[j] == ']' && t[j + 1] == '/' && IsDigit(t[j + 2])
  }

  /**
   * `host_pat` matched at the start of `s`: the host group and the length of
   * the whole match. The name run is taken greedily; a shorter run would be
   * followed by a name character, which is neither `[` nor `/`, so
   * backtracking never finds another match.
   */
  function HostMatch(s: string): (r: Option<(string, nat)>)
    ensures r.Some? ==> 0 < |r.value.0| < r.value.1 <= |s|
    ensures r.Some? ==> r.value.0 == s[..NameLen(s)]
  {
    var n := NameLen(s);
    if n == 0 then None
    else
      var rest := s[n..];
      var i := IndexLen(rest);
      var t := SlotLen(rest[i..]);
      if t == 0 then None else Some((s[..n], n + i + t))
  }

  /** A match of `host_pat` is a name run followed by a slot. */
  lemma HostMatchSound(s: string)
    requires HostMatch(s).Some?
    ensures NameLen(s) > 0 && SlotFollows(s[NameLen(s)..])
  {
    var n := NameLen(s);
    var t := s[n..];
    var i := IndexLen(t);
    assert SlotLen(t[i..]) > 0;
    if i == 0 {
      assert t[i..] == t;
      assert |t| >= 2 && t[0] == '/' && IsDigit(t[1]);
    } else {
      var j := i - 1;
      assert t[i..][0] == t[j + 1] && t[i..][1] == t[j + 2];
      assert BracketThenSlot(t, j);
    }
  }

  lemma {:induction false} IndexLenBracket(t: string, j: nat)
    requires 2 <= j < |t| && t[0] == '[' && AllDigits(t[1..j]) && t[j] == ']'
    ensures IndexLen(t) == j + 1
  {
    assert t[1..] == t[1..j] + t[j..];
    DigitsLenConcat(t[1..j], t[j..]);
  }

  lemma SlotLenStart(u: string)
    requires |u| >= 2 && u[0] == '/' && IsDigit(u[1])
    ensures SlotLen(u) > 0
  {
    assert u[1..][0] == u[1];
  }

  /** The slot test `HostMatch` makes on what follows the name run. */
  predicate SlotAfterIndex(t: string) {
    SlotLen(t[IndexLen(t)..]) > 0
  }

  lemma SlotAfterIndexComplete(t: string)
    requires SlotFollows(t)
    ensures SlotAfterIndex(t)
  {
    if |t| >= 2 && t[0] == '/' && IsDigit(t[1]) {
      assert IndexLen(t) == 0;
      SlotLenStart(t);
      assert t[0..] == t;
    } else {
      var j :| BracketThenSlot(t, j);
      SlotAfterBracket(t, j);
    }
  }

  lemma SlotAfterBracket(t: string, j: nat)
    requires BracketThenSlot(t, j)
    ensures SlotAfterIndex(t)
  {
    IndexLenBracket(t, j);
    var u := t[j + 1..];
    assert u[0] == t[j + 1] && u[1] == t[j + 2];
    SlotLenStart(u);
  }

  /** A name run followed by a slot is a match of `host_pat`. */
  lemma HostMatchComplete(s: string)
    requires NameLen(s) > 0 && SlotFollows(s[NameLen(s)..])
    ensures HostMatch(s).Some?
  {
    SlotAfterIndexComplete(s[NameLen(s)..]);
  }

  /** A non-empty run of `[a-z0-9-]`. */
  predicate HostName(h: string) {
    |h| > 0 && forall c :: c in h ==> IsNameChar(c)
  }

  /** A non-empty name run at the start of `s` is a host name. */
  lemma NameRunIsHost(s: string)
    requires NameLen(s) > 0
    ensures HostName(s[..NameLen(s)])
  {
    var h := s[..NameLen(s)];
    assert forall k :: 0 <= k < |h| ==> IsNameChar(h[k]);
  }

  /** `findall(host_pat, s)`: the host group of every non-overlapping match, left to right. */
  function FindHosts(s: string): seq<string>
    decreases |s|
  {
    if |s| == 0 then []
    else match HostMatch(s)
      case Some((host, len)) => [host] + FindHosts(s[len..])
      case None => FindHosts(s[1..])
  }

  /** Every host `findall` reports is a non-empty run of name characters. */
  lemma {:induction false} FindHostsNames(s: string)
    ensures forall h :: h in FindHosts(s) ==> HostName(h)
    decreases |s|
  {
    if |s| > 0 {
      match HostMatch(s)
      case Some((host, len)) =>
        NameRunIsHost(s);
        FindHostsNames(s[len..]);
      case None =>
        FindHostsNames(s[1..]);
    }
  }

  /** `h` occurs in `s` at position `p` and is followed by what `host_pat` asks after its name. */
  ghost predicate HostAt(s: string, p: nat, h: string) {
    p + |h| <= |s| && s[p..p + |h|] == h && SlotFollows(s[p + |h|..])
  }

  /** `h` occurs somewhere in `s` right before a slot. */
  ghost predicate OccursAsHost(s: string, h: string) {
    exists p :: HostAt(s, p, h)
  }

  /** An occurrence in a suffix is an occurrence in the whole text. */
  lemma OccursInSuffix(s: string, d: nat, h: string)
    requires d <= |s| && OccursAsHost(s[d..], h)
    ensures OccursAsHost(s, h)
  {
    var p: nat :| HostAt(s[d..], p, h);
    assert s[d..][p..p + |h|] == s[d + p..d + p + |h|];
    assert s[d..][p + |h|..] == s[d + p + |h|..];
    assert HostAt(s, d + p, h);
  }

  /** Every host `findall` reports sits in the text right before a slot. */
  lemma {:induction false} FindHostsSound(s: string)
    ensures forall h :: h in FindHosts(s) ==> OccursAsHost(s, h)
    decreases |s|
  {
    if |s| > 0 {
      if HostMatch(s).Some? {
        var host := HostMatch(s).value.0;
        var len := HostMatch(s).value.1;
        FindHostsStep(s);
        HostMatchSound(s);
        assert HostAt(s, 0, host);
        FindHostsSound(s[len..]);
        forall h | h in FindHosts(s[len..]) ensures OccursAsHost(s, h) {
          OccursInSuffix(s, len, h);
        }
      } else {
        SkipNoMatch(s);
        FindHostsSound(s[1..]);
        forall h | h in FindHosts(s[1..]) ensures OccursAsHost(s, h) {
          OccursInSuffix(s, 1, h);
        }
      }
    }
  }

  lemma {:induction false} NameLenConcat(a: string, b: string)
    requires forall k :: 0 <= k < |a| ==> IsNameChar(a[k])
    requires |b| == 0 || !IsNameChar(b[0])
    ensures NameLen(a + b) == |a|
  {
    assert forall k :: 0 <= k < |a| ==> (a + b)[k] == a[k];
    assert |b| > 0 ==> (a + b)[|a|] == b[0];
  }

  lemma {:induction false} DigitsLenConcat(a: string, b: string)
    requires AllDigits(a)
    requires |b| == 0 || !IsDigit(b[0])
    ensures DigitsLen(a + b) == |a|
  {
    assert forall k :: 0 <= k < |a| ==> (a + b)[k] == a[k];
    assert |b| > 0 ==> (a + b)[|a|] == b[0];
  }

  /** One `host[index]/slot*count` entry of an `exec_host` value; `index` and `count` may be empty. */
  datatype ExecSlot = ExecSlot(host: string, index: string, slot: string, count: string)

  predicate WellFormedSlot(e: ExecSlot) {
    && |e.host| > 0 && (forall k :: 0 <= k < |e.host| ==> IsNameChar(e.host[k]))
    && AllDigits(e.index) && AllDigits(e.count)
    && |e.slot| > 0 && AllDigits(e.slot)
  }

  function IndexText(index: string): string {
    if index == "" then "" else "[" + index + "]"
  }

  function CountText(count: string): string {
    if count == "" then "" else "*" + count
  }

  function RenderSlot(e: ExecSlot): string {
    e.host + IndexText(e.index) + "/" + e.slot + CountText(e.count)
  }

  /** The scheduler's `exec_host` text: the entries joined by `+`. */
  function RenderExecHost(es: seq<ExecSlot>): string {
    if |es| == 0 then ""
    else if |es| == 1 then RenderSlot(es[0])
    else RenderSlot(es[0]) + "+" + RenderExecHost(es[1..])
  }

  function HostNames(es: seq<ExecSlot>): seq<string> {
    if |es| == 0 then [] else [es[0].host] + HostNames(es[1..])
  }

  lemma IndexLenRender(index: string, u: string)
    requires AllDigits(index)
    requires |u| > 0 && u[0] == '/'
    ensures IndexLen(IndexText(index) + u) == |IndexText(index)|
  {
    if index != "" {
      var t := IndexText(index) + u;
      assert t[1..] == index + ("]" + u);
      DigitsLenConcat(index, "]" + u);
      assert t[|index| + 1] == ']';
    }
  }

  /** In `a/1*2b/3` the slot of `a` takes `/1*2`, so the next scan starts at `b`. */
  lemma CountTailTaken()
    ensures CountLen("*2b/3") == 2 && SlotLen("/1*2b/3") == 4
  {
    assert "*2b/3"[1..] == ['2', 'b', '/', '3'] && ['2', 'b', '/', '3'][1..] == ['b', '/', '3'];
    assert "/1*2b/3"[1..] == ['1', '*', '2', 'b', '/', '3'] && ['1', '*', '2', 'b', '/', '3'][1..] == ['*', '2', 'b', '/', '3'];
    assert "/1*2b/3"[2..] == "*2b/3";
  }

  lemma CountLenRender(count: string, rest: string)
    requires AllDigits(count)
    requires |rest| == 0 || rest[0] == '+'
    ensures CountLen(CountText(count) + rest) == |CountText(count)|
  {
    if count != "" {
      var t := CountText(count) + rest;
      assert t[1..] == count + rest;
      DigitsLenConcat(count, rest);
    }
  }

  lemma SlotLenRender(slot: string, count: string, rest: string)
    requires |slot| > 0 && AllDigits(slot) && AllDigits(count)
    requires |rest| == 0 || rest[0] == '+'
    ensures SlotLen("/" + slot + CountText(count) + rest) == 1 + |slot| + |CountText(count)|
  {
    var tail := CountText(count) + rest;
    assert "/" + slot + CountText(count) + rest == "/" + (slot + tail);
    assert |tail| == 0 || !IsDigit(tail[0]) by {
      if count != "" {
        assert tail[0] == '*';
      }
    }
    SlotHead(slot, tail);
    CountLenRender(count, rest);
  }

  /** A slot's digits, then a non-digit or the end: the slot number is all of the digits. */
  lemma SlotHead(slot: string, tail: string)
    requires |slot| > 0 && AllDigits(slot)
    requires |tail| == 0 || !IsDigit(tail[0])
    ensures SlotLen("/" + (slot + tail)) == 1 + |slot| + CountLen(tail)
  {
    var t := "/" + (slot + tail);
    DigitsLenConcat(slot, tail);
    assert t[0] == '/' && t[1..] == slot + tail;
    assert t[1 + |slot|..] == tail;
  }

  /** The three measurements `HostMatch` makes, assembled on a text cut into its pieces. */
  lemma HostMatchOf(s: string, host: string, idx: string, slotText: string)
    requires s == host + (idx + slotText)
    requires |host| > 0 && NameLen(host + (idx + slotText)) == |host|
    requires IndexLen(idx + slotText) == |idx| && SlotLen(slotText) > 0
    ensures HostMatch(s).Some? && HostMatch(s).value.0 == host && HostMatch(s).value.1 == |host| + |idx| + SlotLen(slotText)
  {
    DropConcat(host, idx + slotText);
    DropConcat(idx, slotText);
  }

  lemma DropConcat(a: string, b: string)
    ensures (a + b)[|a|..] == b && (a + b)[..|a|] == a
  {
  }

  lemma RenderSlotSplit(e: ExecSlot, rest: string)
    ensures RenderSlot(e) + rest == e.host + (IndexText(e.index) + ("/" + e.slot + CountText(e.count) + rest))
    ensures |RenderSlot(e)| == |e.host| + |IndexText(e.index)| + (1 + |e.slot| + |CountText(e.count)|)
  {
  }

  /** `host_pat` matches a whole entry when the entry ends the text or a `+` follows it. */
  lemma HostMatchSlot(e: ExecSlot, rest: string)
    requires WellFormedSlot(e)
    requires |rest| == 0 || rest[0] == '+'
    ensures HostMatch(RenderSlot(e) + rest).Some?
    ensures HostMatch(RenderSlot(e) + rest).value.0 == e.host
    ensures HostMatch(RenderSlot(e) + rest).value.1 == |RenderSlot(e)|
  {
    var idx := IndexText(e.index);
    var slotText := "/" + e.slot + CountText(e.count) + rest;
    SlotLenRender(e.slot, e.count, rest);
    IndexLenRender(e.index, slotText);
    NameLenConcat(e.host, idx + slotText);
    RenderSlotSplit(e, rest);
    var s := RenderSlot(e) + rest;
    HostMatchOf(s, e.host, idx, slotText);
  }

  /** Where a match starts, `findall` reports its host and resumes after it. */
  lemma FindHostsStep(s: string)
    requires HostMatch(s).Some?
    ensures FindHosts(s) == [HostMatch(s).value.0] + FindHosts(s[HostMatch(s).value.1..])
  {
  }

  /** A lone entry yields its host. */
  lemma FindHostsOne(e: ExecSlot)
    requires WellFormedSlot(e)
    ensures FindHosts(RenderSlot(e)) == [e.host]
  {
    var s := RenderSlot(e);
    HostMatchSlot(e, "");
    assert s + "" == s;
    FindHostsStep(s);
    assert s[|s|..] == "";
  }

  /** An entry followed by `+` yields its host, then `findall` resumes after the `+`. */
  lemma FindHostsCons(e: ExecSlot, rest: string)
    requires WellFormedSlot(e)
    ensures FindHosts(RenderSlot(e) + ("+" + rest)) == [e.host] + FindHosts(rest)
  {
    var first := RenderSlot(e);
    var t := first + ("+" + rest);
    HostMatchSlot(e, "+" + rest);
    FindHostsStep(t);
    DropConcat(first, "+" + rest);
    NoHostMatch("+" + rest);
    SkipNoMatch("+" + rest);
    assert ("+" + rest)[1..] == rest;
  }

  /** On a well-formed `exec_host` text, `findall` reports the host of every entry, in order. */
  lemma {:induction false} FindHostsRender(es: seq<ExecSlot>)
    requires forall k :: 0 <= k < |es| ==> WellFormedSlot(es[k])
    ensures FindHosts(RenderExecHost(es)) == HostNames(es)
  {
    if |es| == 1 {
      FindHostsOne(es[0]);
    } else if |es| > 1 {
      var rest := RenderExecHost(es[1..]);
      assert RenderExecHost(es) == RenderSlot(es[0]) + ("+" + rest);
      FindHostsCons(es[0], rest);
      FindHostsRender(es[1..]);
      assert HostNames(es) == [es[0].host] + HostNames(es[1..]);
    }
  }

  /** No match can start where the name run is empty or is not followed by `[` or `/`. */
  lemma NoHostMatch(t: string)
    requires NameLen(t) == 0 || NameLen(t) == |t| || (t[NameLen(t)] != '[' && t[NameLen(t)] != '/')
    ensures HostMatch(t).None?
  {
    var n := NameLen(t);
    if n > 0 {
      assert IndexLen(t[n..]) == 0;
      assert n == |t| || t[n..][0] == t[n];
    }
  }

  /** Where no match starts, `findall` moves on by one character. */
  lemma SkipNoMatch(t: string)
    requires |t| > 0 && HostMatch(t).None?
    ensures FindHosts(t) == FindHosts(t[1..])
  {
  }

  /** A text made only of characters outside the name class holds no host. */
  lemma {:induction false} NoNameNoHost(t: string)
    requires forall k :: 0 <= k < |t| ==> !IsNameChar(t[k])
    ensures FindHosts(t) == []
    decreases |t|
  {
    if |t| > 0 {
      NoHostMatch(t);
      NoNameNoHost(t[1..]);
    }
  }

  /**
   * A name run stopped by a character that is neither a name character, `[`
   * nor `/` yields no host: `findall` skips the whole run.
   */
  lemma {:induction false} StoppedRun(u: string, v: string)
    requires forall k :: 0 <= k < |u| ==> IsNameChar(u[k])
    requires |v| > 0 && !IsNameChar(v[0]) && v[0] != '[' && v[0] != '/'
    ensures FindHosts(u + v) == FindHosts(v)
    decreases |u|
  {
    if |u| == 0 {
      assert u + v == v;
    } else {
      StoppedRunStep(u, v);
      StoppedRun(u[1..], v);
    }
  }

  /** At each character of a stopped run no match starts, so `findall` moves on by one. */
  lemma StoppedRunStep(u: string, v: string)
    requires |u| > 0 && forall k :: 0 <= k < |u| ==> IsNameChar(u[k])
    requires |v| > 0 && !IsNameChar(v[0]) && v[0] != '[' && v[0] != '/'
    ensures FindHosts(u + v) == FindHosts(u[1..] + v)
  {
    NameLenConcat(u, v);
    assert (u + v)[|u|] == v[0];
    NoHostMatch(u + v);
    SkipNoMatch(u + v);
    assert (u + v)[1..] == u[1..] + v;
  }

  /** No match starts at a character outside the name class. */
  lemma SkipNonName(t: string)
    requires |t| > 0 && !IsNameChar(t[0])
    ensures FindHosts(t) == FindHosts(t[1..])
  {
    NoHostMatch(t);
  }

  /** A name run that ends the text has no slot after it and yields no host. */
  lemma {:induction false} TrailingRun(u: string)
    requires forall k :: 0 <= k < |u| ==> IsNameChar(u[k])
    ensures FindHosts(u) == []
    decreases |u|
  {
    if |u| > 0 {
      NameLenConcat(u, "");
      assert u + "" == u;
      NoHostMatch(u);
      TrailingRun(u[1..]);
    }
  }

  // The pieces of `nodeA[0]/0` after the upper-case letter, right to left.

  /** `]/0`: a slot with no name run before it. */
  lemma SlotWithoutName()
    ensures FindHosts("]/0") == []
  {
    SkipNonName("]/0");
    assert "]/0"[1..] == "/0";
    SkipNonName("/0");
    assert "/0"[1..] == "0";
    TrailingRun("0");
  }

  /** `0]/0`: the run `0` is stopped by `]`. */
  lemma IndexDigitNotHost()
    ensures FindHosts("0]/0") == []
  {
    assert "0]/0" == "0" + "]/0";
    StoppedRun("0", "]/0");
    SlotWithoutName();
  }

  /** `A[0]/0`: neither `A` nor `[` starts a match. */
  lemma StoppedEntryTail()
    ensures FindHosts("A[0]/0") == []
  {
    SkipNonName("A[0]/0");
    assert "A[0]/0"[1..] == "[0]/0";
    SkipNonName("[0]/0");
    assert "[0]/0"[1..] == "0]/0";
    IndexDigitNotHost();
  }

  /** The upper-case letter stops the name run, so an entry such as `nodeA[0]/0` yields no host. */
  lemma UpperCaseHostIgnored()
    ensures FindHosts("nodeA[0]/0") == []
  {
    assert "nodeA[0]/0" == "node" + "A[0]/0";
    StoppedRun("node", "A[0]/0");
    StoppedEntryTail();
  }

  /** Keeps the first occurrence of every element (Python's `list(set(...))` up to order). */
  function Dedup(xs: seq<string>): (r: seq<string>)
    ensures forall x :: x in r <==> x in xs
    ensures forall i, j :: 0 <= i < j < |r| ==> r[i] != r[j]
  {
    if |xs| == 0 then []
    else
      var d := Dedup(xs[..|xs| - 1]);
      var last := xs[|xs| - 1];
      assert forall x :: x in xs <==> x in xs[..|xs| - 1] || x == last;
      if last in d then d else d + [last]
  }

  // ----------------------------------------------------------------- arg_pat

  const OPEN_TAG: string := "<jsdl-hpcpa:Argument>"
  const CLOSE_TAG: string := "</jsdl-hpcpa:Argument>"

  /**
   * The lazy group `(.+?)` followed by the closing tag, on the text `r` after
   * the opening tag: the smallest length `k` of at least `from` such that the
   * first `k` characters hold no newline (`.` does not match one) and the
   * closing tag starts at `k`.
   */
  function LazyClose(r: string, from: nat): (k: Option<nat>)
    requires from >= 1 && from - 1 <= |r| && '\n' !in r[..from - 1]
    ensures k.Some? ==> from <= k.value <= |r| && '\n' !in r[..k.value] && StartsWith(r[k.value..], CLOSE_TAG)
    ensures k.Some? ==> forall i :: from <= i < k.value ==> !StartsWith(r[i..], CLOSE_TAG)
    ensures k.None? ==> forall i :: from <= i <= |r| && '\n' !in r[..i] ==> !StartsWith(r[i..], CLOSE_TAG)
    decreases |r| - from
  {
    if from > |r| then None
    else if r[from - 1] == '\n' then
      assert forall i :: from <= i <= |r| ==> r[..i][from - 1] == '\n';
      None
    else
      assert r[..from] == r[..from - 1] + [r[from - 1]];
      if StartsWith(r[from..], CLOSE_TAG) then Some(from)
      else LazyClose(r, from + 1)
  }

  /** `arg_pat` matched at the start of `s`: the argument group and the length of the whole match. */
  function ArgMatch(s: string): (r: Option<(string, nat)>)
    ensures r.Some? ==> 0 < |r.value.0| && '\n' !in r.value.0 && r.value.1 <= |s|
  {
    if !StartsWith(s, OPEN_TAG) then None
    else
      var r := s[|OPEN_TAG|..];
      match LazyClose(r, 1)
      case None => None
      case Some(k) => Some((r[..k], |OPEN_TAG| + k + |CLOSE_TAG|))
  }

  /** `findall(arg_pat, s)`. */
  function FindArgs(s: string): (args: seq<string>)
    ensures forall k :: 0 <= k < |args| ==> |args[k]| > 0 && '\n' !in args[k]
    decreases |s|
  {
    if |s| == 0 then []
    else match ArgMatch(s)
      case Some((arg, len)) => [arg] + FindArgs(s[len..])
      case None => FindArgs(s[1..])
  }

  /** The submit arguments as the scheduler writes them: each one wrapped in the two tags. */
  function RenderArgs(args: seq<string>): string {
    if |args| == 0 then "" else OPEN_TAG + args[0] + CLOSE_TAG + RenderArgs(args[1..])
  }

  predicate PlainArg(a: string) {
    |a| > 0 && '\n' !in a && '<' !in a
  }

  lemma {:induction false} LazyCloseArg(a: string, rest: string, from: nat)
    requires PlainArg(a) && 1 <= from <= |a|
    requires '\n' !in (a + CLOSE_TAG + rest)[..from - 1]
    ensures LazyClose(a + CLOSE_TAG + rest, from) == Some(|a|)
    decreases |a| - from
  {
    var r := a + CLOSE_TAG + rest;
    assert r[from - 1] == a[from - 1];
    if from == |a| {
      assert r[from..][..|CLOSE_TAG|] == CLOSE_TAG;
    } else {
      assert r[from..][0] == a[from] && a[from] != '<' && CLOSE_TAG[0] == '<';
      assert !StartsWith(r[from..], CLOSE_TAG);
      assert r[..from] == a[..from];
      assert forall c :: c in a[..from] ==> c in a;
      LazyCloseArg(a, rest, from + 1);
    }
  }

  /** An argument with no newline and no `<` is found again, whole, after wrapping. */
  lemma ArgMatchRender(a: string, rest: string)
    requires PlainArg(a)
    ensures ArgMatch(OPEN_TAG + a + CLOSE_TAG + rest) == Some((a, |OPEN_TAG| + |a| + |CLOSE_TAG|))
  {
    var s := OPEN_TAG + a + CLOSE_TAG + rest;
    assert s[..|OPEN_TAG|] == OPEN_TAG;
    assert s[|OPEN_TAG|..] == a + CLOSE_TAG + rest;
    LazyCloseArg(a, rest, 1);
    assert (a + CLOSE_TAG + rest)[..|a|] == a;
  }

  /** `findall` gives back exactly the wrapped arguments, in order. */
  lemma {:induction false} FindArgsRender(args: seq<string>)
    requires forall k :: 0 <= k < |args| ==> PlainArg(args[k])
    ensures FindArgs(RenderArgs(args)) == args
  {
    if |args| > 0 {
      var rest := RenderArgs(args[1..]);
      var s := RenderArgs(args);
      ArgMatchRender(args[0], rest);
      assert s[|OPEN_TAG| + |args[0]| + |CLOSE_TAG|..] == rest;
      FindArgsRender(args[1..]);
    }
  }
}
