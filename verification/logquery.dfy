/** The synchronous post-filter and aggregation helpers over log entries:
    since, between, last, sortByTime, countBy and countByNested. A log entry
    is a JSON object; its `timestamp` is coerced to a number as JavaScript's
    comparison operators do. */
module LogQuery {
  import opened Wrappers
  import opened Json
  import Path
  import Seqs
  import Decimal

  type LogEntry = map<string, J>

  /** JavaScript's `Number(s)` on a string of plain decimal digits with an
      optional sign; `None` stands for `NaN`. The empty string is 0. */
  function StringToNumber(s: string): (r: Option<int>)
    ensures Decimal.IsCanonical(s) ==> r == Some(Decimal.DigitsValue(s))
  {
    if Decimal.AllDigits(s) then Some(Decimal.DigitsValue(s))
    else if |s| >= 2 && (s[0] == '-' || s[0] == '+') && Decimal.AllDigits(s[1..]) then
      var n: int := Decimal.DigitsValue(s[1..]);
      Some(if s[0] == '-' then -n else n)
    else None
  }

  /** The number a relational comparison or a subtraction turns a value into
      (`ToNumber`); `None` stands for `NaN`. `null` and `false` are 0, `true`
      is 1, and objects and arrays are `NaN`. */
  function ToNumber(v: J): (r: Option<int>)
    ensures v.JNum? ==> r == Some(v.n)
    ensures v == JNull || v == JBool(false) || v == JStr("") ==> r == Some(0)
    ensures v == JBool(true) ==> r == Some(1)
    ensures IsContainer(v) ==> r == None
  {
    match v
    case JNum(n) => Some(n)
    case JNull => Some(0)
    case JBool(b) => Some(if b then 1 else 0)
    case JStr(s) => StringToNumber(s)
    case _ => None
  }

  /** `l.timestamp` as a number; a missing timestamp is `undefined`, which is `NaN`. */
  function Timestamp(l: LogEntry): Option<int> {
    if "timestamp" in l then ToNumber(l["timestamp"]) else None
  }

  /** `l.timestamp >= t`; a timestamp that is `NaN` compares false. */
  predicate AtOrAfter(l: LogEntry, t: int) {
    Timestamp(l).Some? && Timestamp(l).value >= t
  }

  /** `start <= l.timestamp <= end`. */
  predicate Within(l: LogEntry, start: int, end: int) {
    Timestamp(l).Some? && start <= Timestamp(l).value <= end
  }

  /* ---------------- Filters ---------------- */

  /** `since(t, logs)`: exactly the entries at or after `t`, in their order. */
  function Since(t: int, logs: seq<LogEntry>): (r: seq<LogEntry>)
    ensures Seqs.IsSubseq(r, logs)
    ensures forall i :: 0 <= i < |r| ==> AtOrAfter(r[i], t)
    ensures forall l :: multiset(r)[l] == if AtOrAfter(l, t) then multiset(logs)[l] else 0
  {
    Seqs.Filter(logs, l => AtOrAfter(l, t))
  }

  /** `between(start, end, logs)`: exactly the entries in the closed interval,
      in their order; nothing when the interval is empty, and never more than
      `since(start, logs)`. */
  function Between(start: int, end: int, logs: seq<LogEntry>): (r: seq<LogEntry>)
    ensures Seqs.IsSubseq(r, logs)
    ensures forall i :: 0 <= i < |r| ==> Within(r[i], start, end)
    ensures forall l :: multiset(r)[l] == if Within(l, start, end) then multiset(logs)[l] else 0
    ensures start > end ==> r == []
    ensures Seqs.IsSubseq(r, Since(start, logs))
  {
    var r := Seqs.Filter(logs, l => Within(l, start, end));
    Seqs.FilterMonotone(logs, l => Within(l, start, end), l => AtOrAfter(l, start));
    r
  }

  /** `last(ms, logs)` with the clock reading `now` as a parameter: the
      entries of the last `ms` milliseconds. */
  function Last(ms: int, logs: seq<LogEntry>, now: int): (r: seq<LogEntry>)
    ensures r == Since(now - ms, logs)
    ensures Seqs.IsSubseq(r, logs)
    ensures forall i :: 0 <= i < |r| ==> AtOrAfter(r[i], now - ms)
    ensures forall l :: multiset(r)[l] == if AtOrAfter(l, now - ms) then multiset(logs)[l] else 0
  {
    Since(now - ms, logs)
  }

  /* ---------------- Sorting ---------------- */

  /** The timestamp the comparator sees; entries without one sort as 0. */
  function TimeOf(l: LogEntry): int {
    Timestamp(l).GetOr(0)
  }

  /** `a` may come before `b` in the requested direction of `key`. */
  predicate Precedes(key: LogEntry -> int, a: LogEntry, b: LogEntry, asc: bool) {
    if asc then key(a) <= key(b) else key(a) >= key(b)
  }

  predicate SortedBy(key: LogEntry -> int, s: seq<LogEntry>, asc: bool) {
    forall i, j :: 0 <= i < j < |s| ==> Precedes(key, s[i], s[j], asc)
  }

  predicate AllTimed(logs: seq<LogEntry>) {
    forall i :: 0 <= i < |logs| ==> Timestamp(logs[i]).Some?
  }

  /** Insert `x` into a sorted sequence before the first entry it may precede,
      so that it stays ahead of entries with an equal key. */
  function Insert(key: LogEntry -> int, x: LogEntry, s: seq<LogEntry>, asc: bool): (r: seq<LogEntry>)
    requires SortedBy(key, s, asc)
    ensures SortedBy(key, r, asc)
    ensures multiset(r) == multiset(s) + multiset{x}
    ensures |r| == |s| + 1
    decreases |s|
  {
    if |s| == 0 || Precedes(key, x, s[0], asc) then
      assert forall j :: 0 <= j < |s| ==> Precedes(key, x, s[j], asc) by {
        if |s| > 0 {
          assert forall j :: 0 < j < |s| ==> Precedes(key, s[0], s[j], asc);
        }
      }
      [x] + s
    else
      var rest := Insert(key, x, s[1..], asc);
      assert s == [s[0]] + s[1..];
      assert forall j :: 0 <= j < |rest| ==> Precedes(key, s[0], rest[j], asc) by {
        forall j | 0 <= j < |rest|
          ensures Precedes(key, s[0], rest[j], asc)
        {
          assert rest[j] in multiset(rest);
          assert rest[j] in multiset(s[1..]) || rest[j] == x;
          if rest[j] != x {
            var k :| 0 <= k < |s[1..]| && s[1..][k] == rest[j];
            assert Precedes(key, s[0], s[k + 1], asc);
          }
        }
      }
      [s[0]] + rest
  }

  /** A stable insertion sort by `key` in the requested direction. */
  function Sort(key: LogEntry -> int, s: seq<LogEntry>, asc: bool): (r: seq<LogEntry>)
    ensures SortedBy(key, r, asc)
    ensures multiset(r) == multiset(s)
    ensures |r| == |s|
    decreases |s|
  {
    if |s| == 0 then []
    else
      assert s == [s[0]] + s[1..];
      Insert(key, s[0], Sort(key, s[1..], asc), asc)
  }

  /** `sortByTime(logs, direction)`: a sorted copy, ascending for "asc" and
      descending for any other direction; the input sequence is a value and
      is not changed. */
  function SortByTime(logs: seq<LogEntry>, direction: string): (r: seq<LogEntry>)
    ensures multiset(r) == multiset(logs)
    ensures AllTimed(logs) ==> AllTimed(r)
    ensures AllTimed(logs) && direction == "asc" ==>
      forall i, j :: 0 <= i < j < |r| ==> TimeOf(r[i]) <= TimeOf(r[j])
    ensures AllTimed(logs) && direction != "asc" ==>
      forall i, j :: 0 <= i < j < |r| ==> TimeOf(r[i]) >= TimeOf(r[j])
  {
    var r := Sort(TimeOf, logs, direction == "asc");
    assert forall i :: 0 <= i < |r| ==> r[i] in multiset(logs);
    assert forall x :: x in multiset(logs) ==> x in logs;
    r
  }

  /* ---------------- Counting ---------------- */

  /** `String(v)` of a JSON value, as used for an object key. A number's
      string reads back as the same number. */
  function JsString(v: J): (r: string)
    ensures v.JNum? ==> StringToNumber(r) == Some(v.n)
    ensures v.JStr? ==> r == v.s
    ensures v.JBool? ==> r == (if v.b then "true" else "false")
    decreases v
  {
    match v
    case JNum(n) =>
      if n < 0 then
        var d := Decimal.NatToString(-n);
        Decimal.ParseRender(-n);
        assert ("-" + d)[1..] == d;
        "-" + d
      else
        Decimal.ParseRender(n);
        Decimal.NatToString(n)
    case JStr(s) => s
    case JBool(b) => if b then "true" else "false"
    case JNull => "null"
    case JObj(_) => "[object Object]"
    case JArr(elems) => JoinComma(seq(|elems|, i requires 0 <= i < |elems| =>
                          if elems[i] == JNull then "" else JsString(elems[i])))
  }

  function JoinComma(parts: seq<string>): string {
    if |parts| == 0 then ""
    else if |parts| == 1 then parts[0]
    else parts[0] + "," + JoinComma(parts[1..])
  }

  /** The bucket of a value: `v ?? "unknown"`, then the property key. An
      undefined or null value falls in "unknown", a string in its own bucket. */
  function Label(v: Option<J>): (r: string)
    ensures v.None? || v == Some(JNull) ==> r == "unknown"
    ensures v.Some? && v.value.JStr? ==> r == v.value.s
    ensures v.Some? && v.value.JNum? ==> StringToNumber(r) == Some(v.value.n)
  {
    match v
    case None => "unknown"
    case Some(JNull) => "unknown"
    case Some(x) => JsString(x)
  }

  /** The sum of a map's counts. */
  ghost function MapSum(m: map<string, nat>): nat
    decreases |m|
  {
    if |m| == 0 then 0
    else
      var k := PickKey(m);
      m[k] + MapSum(m - {k})
  }

  ghost function PickKey(m: map<string, nat>): (k: string)
    requires |m| > 0
    ensures k in m
  {
    assert |m.Keys| == |m|;
    var k :| k in m; k
  }

  /** Any key can be taken out first when summing. */
  lemma {:induction false} MapSumRemove(m: map<string, nat>, k: string)
    requires k in m
    ensures MapSum(m) == m[k] + MapSum(m - {k})
    decreases |m|
  {
    var k' := PickKey(m);
    if k' != k {
      MapSumRemove(m - {k'}, k);
      MapSumRemove(m - {k}, k');
      assert m - {k'} - {k} == m - {k} - {k'};
    }
  }

  /** `acc[v] = (acc[v] || 0) + 1`. */
  function Bump(acc: map<string, nat>, lbl: string): (r: map<string, nat>)
    ensures MapSum(r) == MapSum(acc) + 1
    ensures r.Keys == acc.Keys + {lbl}
  {
    var r := acc[lbl := (if lbl in acc then acc[lbl] else 0) + 1];
    BumpSum(acc, lbl, r);
    r
  }

  lemma BumpSum(acc: map<string, nat>, lbl: string, r: map<string, nat>)
    requires r == acc[lbl := (if lbl in acc then acc[lbl] else 0) + 1]
    ensures MapSum(r) == MapSum(acc) + 1
  {
    MapSumRemove(r, lbl);
    if lbl in acc {
      BumpPresent(acc, lbl, r);
    } else {
      assert r - {lbl} == acc;
    }
  }

  lemma BumpPresent(acc: map<string, nat>, lbl: string, r: map<string, nat>)
    requires lbl in acc && r == acc[lbl := acc[lbl] + 1]
    ensures MapSum(r) == MapSum(acc) + 1
  {
    MapSumRemove(r, lbl);
    MapSumRemove(acc, lbl);
    assert r - {lbl} == acc - {lbl};
  }

  /** The reduce that counts labels, left to right. */
  function Tally(labels: seq<string>): (r: map<string, nat>)
    ensures forall k :: k in r <==> k in labels
    ensures forall k :: k in r ==> r[k] == multiset(labels)[k]
    ensures MapSum(r) == |labels|
    decreases |labels|
  {
    if |labels| == 0 then map[]
    else
      var init := labels[..|labels| - 1];
      var last := labels[|labels| - 1];
      assert labels == init + [last];
      assert multiset(labels) == multiset(init) + multiset{last};
      var t := Tally(init);
      var r := Bump(t, last);
      assert forall k :: k in labels <==> k in init || k == last;
      r
  }

  /** Every counted bucket holds at least one entry. */
  lemma TallyPositive(labels: seq<string>)
    ensures forall i :: 0 <= i < |labels| ==> labels[i] in Tally(labels) && Tally(labels)[labels[i]] >= 1
  {
    forall i | 0 <= i < |labels|
      ensures labels[i] in Tally(labels) && Tally(labels)[labels[i]] >= 1
    {
      assert labels[i] in multiset(labels);
    }
  }

  /** `countBy(key, logs)`: how many entries fall in each bucket of `l[key]`;
      a missing or null value counts as "unknown". */
  function CountBy(key: string, logs: seq<LogEntry>): (r: map<string, nat>)
    ensures MapSum(r) == |logs|
    ensures forall i :: 0 <= i < |logs| ==> FieldLabel(logs[i], key) in r && r[FieldLabel(logs[i], key)] >= 1
    ensures forall k :: k in r <==> exists i :: 0 <= i < |logs| && FieldLabel(logs[i], key) == k
    ensures forall k :: k in r ==> r[k] == multiset(FieldLabels(logs, key))[k]
  {
    var labels := FieldLabels(logs, key);
    TallyPositive(labels);
    Tally(labels)
  }

  function FieldLabel(l: LogEntry, key: string): string {
    Label(if key in l then Some(l[key]) else None)
  }

  /** A missing or null field lands in the "unknown" bucket, as does a
      nested path that does not resolve. */
  lemma UnknownBucket(l: LogEntry, key: string, path: seq<string>)
    ensures key !in l || l[key] == JNull ==> FieldLabel(l, key) == "unknown"
    ensures Path.GetPath(JObj(l), path).None? ==> NestedLabel(l, path) == "unknown"
  {
  }

  function FieldLabels(logs: seq<LogEntry>, key: string): (r: seq<string>)
    ensures |r| == |logs| && forall i :: 0 <= i < |logs| ==> r[i] == FieldLabel(logs[i], key)
  {
    seq(|logs|, i requires 0 <= i < |logs| => FieldLabel(logs[i], key))
  }

  /** The value at the end of `path` under optional chaining (`o?.[k]`). */
  function NestedLabel(l: LogEntry, path: seq<string>): string {
    Label(Path.GetPath(JObj(l), path))
  }

  function NestedLabels(logs: seq<LogEntry>, path: seq<string>): (r: seq<string>)
    ensures |r| == |logs| && forall i :: 0 <= i < |logs| ==> r[i] == NestedLabel(logs[i], path)
  {
    seq(|logs|, i requires 0 <= i < |logs| => NestedLabel(logs[i], path))
  }

  /** `countByNested(path, logs)`: counts by the value at a nested path; an
      unresolved path counts as "unknown". */
  function CountByNested(path: seq<string>, logs: seq<LogEntry>): (r: map<string, nat>)
    ensures MapSum(r) == |logs|
    ensures forall i :: 0 <= i < |logs| ==> NestedLabel(logs[i], path) in r && r[NestedLabel(logs[i], path)] >= 1
    ensures forall k :: k in r <==> exists i :: 0 <= i < |logs| && NestedLabel(logs[i], path) == k
    ensures forall k :: k in r ==> r[k] == multiset(NestedLabels(logs, path))[k]
  {
    var labels := NestedLabels(logs, path);
    TallyPositive(labels);
    Tally(labels)
  }

  /** Counting by a key is counting by the one-segment path of that key. */
  lemma CountByIsNestedSingleton(key: string, logs: seq<LogEntry>)
    ensures CountBy(key, logs) == CountByNested([key], logs)
  {
    forall i | 0 <= i < |logs|
      ensures FieldLabel(logs[i], key) == NestedLabel(logs[i], [key])
    {
      assert Path.GetPath(JObj(logs[i]), [key]) == Child(JObj(logs[i]), key);
    }
    assert FieldLabels(logs, key) == NestedLabels(logs, [key]);
  }
}
