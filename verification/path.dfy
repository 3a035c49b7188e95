/** Dot-delimited path access on a document (getByPath, setByPath and
    deleteByPath). A path string is split on "." into its segments; the
    operations below work on the segment sequence. */
module Path {
  import opened Wrappers
  import opened Json
  import Decimal
  import Seqs

  /* ---------------- Splitting and joining ---------------- */

  predicate NoDot(s: string) {
    forall i :: 0 <= i < |s| ==> s[i] != '.'
  }

  /** Index of the first "." of a string that contains one. */
  function FirstDot(s: string): (r: nat)
    requires !NoDot(s)
    ensures r < |s| && s[r] == '.' && NoDot(s[..r])
    decreases |s|
  {
    if s[0] == '.' then 0
    else
      assert !NoDot(s[1..]) by {
        var i :| 0 <= i < |s| && s[i] == '.';
        assert s[1..][i - 1] == '.';
      }
      var r := 1 + FirstDot(s[1..]);
      assert s[..r] == [s[0]] + s[1..][..r - 1];
      r
  }

  /** `s.split(".")`: always at least one segment, none containing a dot. */
  function Split(s: string): (r: seq<string>)
    ensures |r| >= 1
    ensures forall i :: 0 <= i < |r| ==> NoDot(r[i])
    decreases |s|
  {
    if NoDot(s) then [s]
    else
      var d := FirstDot(s);
      [s[..d]] + Split(s[d + 1..])
  }

  /** `segs.join(".")`. */
  function Join(segs: seq<string>): string
    requires |segs| >= 1
    decreases |segs|
  {
    if |segs| == 1 then segs[0] else segs[0] + "." + Join(segs[1..])
  }

  /** Joining the segments of a split gives back the path. */
  lemma {:induction false} JoinSplit(s: string)
    ensures Join(Split(s)) == s
    decreases |s|
  {
    if !NoDot(s) {
      var d := FirstDot(s);
      JoinSplit(s[d + 1..]);
      assert Split(s)[1..] == Split(s[d + 1..]);
      assert s == s[..d] + "." + s[d + 1..];
    }
  }

  /** Splitting a join of dot-free segments gives back the segments. */
  lemma {:induction false} SplitJoin(segs: seq<string>)
    requires |segs| >= 1
    requires forall i :: 0 <= i < |segs| ==> NoDot(segs[i])
    ensures Split(Join(segs)) == segs
    decreases |segs|
  {
    if |segs| > 1 {
      SplitJoin(segs[1..]);
      var s := Join(segs);
      var h := segs[0];
      assert s[|h|] == '.';
      assert !NoDot(s);
      var d := FirstDot(s);
      assert s[..d] == h;
      assert s[d + 1..] == Join(segs[1..]);
      assert segs == [h] + segs[1..];
    }
  }

  /* ---------------- Reading ---------------- */

  /** `getByPath`: follow the segments, undefined as soon as one is missing. */
  function GetPath(v: J, p: seq<string>): (r: Option<J>)
    ensures |p| >= 1 && !IsContainer(v) ==> r == None
    ensures |p| >= 1 && Child(v, p[0]).None? ==> r == None
    decreases |p|
  {
    if |p| == 0 then Some(v)
    else
      match Child(v, p[0])
      case None => None
      case Some(c) => GetPath(c, p[1..])
  }

  /** A one-segment path reads the child under that segment. */
  lemma GetPathOne(v: J, k: string)
    ensures GetPath(v, [k]) == Child(v, k)
  {
    if Child(v, k).Some? {
      assert GetPath(Child(v, k).value, []) == Child(v, k);
    }
  }

  /** Reading a prefix and then the rest is reading the whole path. */
  lemma {:induction false} GetPathAppend(v: J, p: seq<string>, q: seq<string>)
    ensures GetPath(v, p + q) ==
      match GetPath(v, p)
      case None => None
      case Some(c) => GetPath(c, q)
    decreases |p|
  {
    if |p| > 0 {
      assert (p + q)[0] == p[0];
      assert (p + q)[1..] == p[1..] + q;
      if Child(v, p[0]).Some? {
        GetPathAppend(Child(v, p[0]).value, p[1..], q);
      }
    } else {
      assert p + q == q;
    }
  }

  /** Once a prefix of the path reaches nothing, or a value that is not an
      object or array, the whole (longer) path reads as undefined. */
  lemma GetStopsEarly(v: J, p: seq<string>, i: nat)
    requires i < |p|
    requires GetPath(v, p[..i]).None? || !IsContainer(GetPath(v, p[..i]).value)
    ensures GetPath(v, p) == None
  {
    assert p == p[..i] + p[i..];
    GetPathAppend(v, p[..i], p[i..]);
  }

  /* ---------------- Writing ---------------- */

  /** The container a write descends into under `k`: the existing object or
      array, or a fresh `{}` in place of anything else. */
  function Descend(v: J, k: string): (r: J)
    ensures IsContainer(r)
  {
    match Child(v, k)
    case Some(c) => if IsContainer(c) then c else JObj(map[])
    case None => JObj(map[])
  }

  /** `setByPath`: create or overwrite the intermediates, then assign. */
  function SetPath(v: J, p: seq<string>, x: J): (r: J)
    requires IsContainer(v) && |p| >= 1
    ensures r.JObj? == v.JObj? && r.JArr? == v.JArr?
    decreases |p|
  {
    if |p| == 1 then Put(v, p[0], x)
    else Put(v, p[0], SetPath(Descend(v, p[0]), p[1..], x))
  }

  /** The write lands in the JSON form of the document: no step of the path
      writes into an array under a key that is not a canonical index. */
  predicate Writable(v: J, p: seq<string>)
    decreases |p|
  {
    && |p| >= 1
    && CanPut(v, p[0])
    && (|p| == 1 || Writable(Descend(v, p[0]), p[1..]))
  }

  /** No step of the write extends an array by more than the element written,
      so it leaves no holes. */
  predicate NoPadding(v: J, p: seq<string>)
    decreases |p|
  {
    && |p| >= 1
    && InPlace(v, p[0])
    && (|p| == 1 || NoPadding(Descend(v, p[0]), p[1..]))
  }

  /** Two paths part ways at a segment both of them have. */
  predicate Diverge(p: seq<string>, q: seq<string>) {
    exists i :: 0 <= i < |p| && i < |q| && p[i] != q[i]
  }

  /** Get after set: the value written is the value read back. */
  lemma {:induction false} GetAfterSet(v: J, p: seq<string>, x: J)
    requires IsContainer(v) && Writable(v, p)
    ensures GetPath(SetPath(v, p, x), p) == Some(x)
    decreases |p|
  {
    if |p| > 1 {
      GetAfterSet(Descend(v, p[0]), p[1..], x);
    }
  }

  /** A write changes nothing reachable by a path that parts from it, except
      that a path which was undefined may now end in a `null` hole left by a
      write past an array's end; when the write pads no array, nothing at all. */
  lemma {:induction false} SetLeavesOthers(v: J, p: seq<string>, x: J, q: seq<string>)
    requires IsContainer(v) && |p| >= 1 && Diverge(p, q)
    ensures GetPath(SetPath(v, p, x), q) == GetPath(v, q) ||
      (GetPath(v, q) == None && GetPath(SetPath(v, p, x), q) == Some(JNull))
    ensures NoPadding(v, p) ==> GetPath(SetPath(v, p, x), q) == GetPath(v, q)
    decreases |p|
  {
    var r := SetPath(v, p, x);
    var i :| 0 <= i < |p| && i < |q| && p[i] != q[i];
    var y := if |p| == 1 then x else SetPath(Descend(v, p[0]), p[1..], x);
    if p[0] != q[0] {
      if Pads(v, p[0], q[0]) {
        ChildPutPad(v, p[0], y, q[0]);
      } else {
        ChildPutOther(v, p[0], y, q[0]);
      }
    } else if CanPut(v, p[0]) {
      assert i >= 1 && |p| >= 2;
      assert Diverge(p[1..], q[1..]) by {
        assert p[1..][i - 1] != q[1..][i - 1];
      }
      var d := Descend(v, p[0]);
      SetLeavesOthers(d, p[1..], x, q[1..]);
      assert Child(r, q[0]) == Some(SetPath(d, p[1..], x));
      match Child(v, q[0])
      case None =>
        assert GetPath(d, q[1..]) == None;
      case Some(c) =>
        if !IsContainer(c) {
          assert GetPath(d, q[1..]) == None;
          assert GetPath(c, q[1..]) == None;
        }
    }
  }

  /** Writing index 3 of an empty array fills indices 0 to 2 with `null`. */
  lemma SetPastEnd()
    ensures SetPath(JObj(map["a" := JArr([])]), ["a", "3"], JNum(1)) ==
      JObj(map["a" := JArr([JNull, JNull, JNull, JNum(1)])])
  {
    var v := JObj(map["a" := JArr([])]);
    assert Decimal.DigitsValue("3") == Decimal.DigitsValue("") * 10 + 3;
    assert Decimal.ParseIndex("3") == Some(3);
    assert Seqs.Repeat(3, JNull) == [JNull, JNull, JNull];
    assert Descend(v, "a") == JArr([]);
    var inner := SetPath(JArr([]), ["3"], JNum(1));
    assert inner == Put(JArr([]), "3", JNum(1));
    assert inner == JArr([JNull, JNull, JNull, JNum(1)]);
    assert ["a", "3"][1..] == ["3"];
    assert SetPath(v, ["a", "3"], JNum(1)) == Put(v, "a", inner);
  }

  /** Key 4294967295 (2^32 - 1) is past the largest array index: writing it
      sets an ordinary property of the array, which its JSON form drops. */
  lemma SetPastMaxIndex()
    ensures SetPath(JObj(map["a" := JArr([])]), ["a", "4294967295"], JNum(1)) == JObj(map["a" := JArr([])])
  {
    var k := "4294967295";
    // The value of the key, one digit at a time.
    assert Decimal.DigitsValue("4") == 4;
    assert "42"[..1] == "4";
    assert Decimal.DigitsValue("42") == 42;
    assert "429"[..2] == "42";
    assert Decimal.DigitsValue("429") == 429;
    assert "4294"[..3] == "429";
    assert Decimal.DigitsValue("4294") == 4294;
    assert "42949"[..4] == "4294";
    assert Decimal.DigitsValue("42949") == 42949;
    assert "429496"[..5] == "42949";
    assert Decimal.DigitsValue("429496") == 429496;
    assert "4294967"[..6] == "429496";
    assert Decimal.DigitsValue("4294967") == 4294967;
    assert "42949672"[..7] == "4294967";
    assert Decimal.DigitsValue("42949672") == 42949672;
    assert "429496729"[..8] == "42949672";
    assert Decimal.DigitsValue("429496729") == 429496729;
    assert "4294967295"[..9] == "429496729";
    assert Decimal.DigitsValue("4294967295") == 4294967295;
    assert Decimal.ParseIndex(k) == None;
    var v := JObj(map["a" := JArr([])]);
    assert Descend(v, "a") == JArr([]);
    assert SetPath(JArr([]), [k], JNum(1)) == Put(JArr([]), k, JNum(1)) == JArr([]);
    assert ["a", k][1..] == [k];
    assert SetPath(v, ["a", k], JNum(1)) == Put(v, "a", JArr([]));
    assert v.fields["a" := JArr([])] == v.fields;
  }

  /** Every intermediate on a written path ends up an object or array, and one
      that was missing or a primitive becomes an object holding only the next
      segment. */
  lemma {:induction false} SetCreatesIntermediates(v: J, p: seq<string>, x: J, i: nat)
    requires IsContainer(v) && Writable(v, p) && 1 <= i < |p|
    ensures GetPath(SetPath(v, p, x), p[..i]).Some?
    ensures IsContainer(GetPath(SetPath(v, p, x), p[..i]).value)
    ensures GetPath(v, p[..i]).None? || !IsContainer(GetPath(v, p[..i]).value) ==>
      GetPath(SetPath(v, p, x), p[..i]).value.JObj? &&
      GetPath(SetPath(v, p, x), p[..i]).value.fields.Keys == {p[i]}
    decreases |p|
  {
    var d := Descend(v, p[0]);
    var inner := SetPath(d, p[1..], x);
    var r := SetPath(v, p, x);
    assert Child(r, p[0]) == Some(inner);
    assert p[..i][0] == p[0] && p[..i][1..] == p[1..][..i - 1];
    assert GetPath(r, p[..i]) == GetPath(inner, p[1..][..i - 1]);
    assert GetPath(v, p[..i]) == match Child(v, p[0]) case None => None case Some(c) => GetPath(c, p[1..][..i - 1]);
    if i == 1 {
      if Child(v, p[0]).None? || !IsContainer(Child(v, p[0]).value) {
        assert d == JObj(map[]);
        if |p| == 2 {
          assert inner == JObj(map[p[1] := x]);
        } else {
          assert inner == JObj(map[p[1] := SetPath(Descend(d, p[1]), p[2..], x)]);
        }
      }
    } else {
      SetCreatesIntermediates(d, p[1..], x, i - 1);
      if Child(v, p[0]).Some? && !IsContainer(Child(v, p[0]).value) {
        GetStopsEarly(Child(v, p[0]).value, p[1..][..i - 1], 0);
        assert GetPath(d, p[1..][..i - 1]).None? by {
          assert d == JObj(map[]);
        }
      } else if Child(v, p[0]).None? {
        assert GetPath(d, p[1..][..i - 1]).None? by {
          assert d == JObj(map[]);
        }
      }
    }
  }

  /* ---------------- Deleting ---------------- */

  /** `deleteByPath`: false, changing nothing, when an intermediate is missing
      or falsy; otherwise `delete` on the last container, which reports true. */
  function DeletePath(v: J, p: seq<string>): (r: (J, bool))
    requires |p| >= 1
    ensures !r.1 ==> r.0 == v
    ensures r.0.JObj? == v.JObj? && r.0.JArr? == v.JArr?
    ensures Truthy(v) ==> Truthy(r.0)
    decreases |p|
  {
    if |p| == 1 then (Remove(v, p[0]), true)
    else
      match Child(v, p[0])
      case None => (v, false)
      case Some(c) =>
        if !Truthy(c) then (v, false)
        else
          var (c', ok) := DeletePath(c, p[1..]);
          if ok then (Put(v, p[0], c'), true) else (v, false)
  }

  /** Some intermediate of `p` (a proper, non-empty prefix) is missing or falsy. */
  predicate Blocked(v: J, p: seq<string>) {
    exists i :: 1 <= i < |p| && !Present(GetPath(v, p[..i]))
  }

  predicate Present(o: Option<J>) {
    o.Some? && Truthy(o.value)
  }

  /** deleteByPath reports false exactly when an intermediate is missing or falsy. */
  lemma {:induction false} DeleteFalseIffBlocked(v: J, p: seq<string>)
    requires |p| >= 1
    ensures !DeletePath(v, p).1 <==> Blocked(v, p)
    decreases |p|
  {
    if |p| > 1 {
      assert p[..1] == [p[0]];
      assert GetPath(v, [p[0]]) == Child(v, p[0]);
      match Child(v, p[0])
      case None =>
        assert !Present(GetPath(v, p[..1]));
      case Some(c) =>
        if !Truthy(c) {
          assert !Present(GetPath(v, p[..1]));
        } else {
          DeleteFalseIffBlocked(c, p[1..]);
          forall i | 1 <= i < |p|
            ensures GetPath(v, p[..i]) == GetPath(c, p[1..][..i - 1])
          {
            assert p[..i][0] == p[0] && p[..i][1..] == p[1..][..i - 1];
          }
          if Blocked(c, p[1..]) {
            var j :| 1 <= j < |p[1..]| && !Present(GetPath(c, p[1..][..j]));
            assert !Present(GetPath(v, p[..j + 1]));
          }
          if Blocked(v, p) {
            var j :| 1 <= j < |p| && !Present(GetPath(v, p[..j]));
            assert j != 1;
            assert !Present(GetPath(c, p[1..][..j - 1]));
          }
        }
    }
  }

  /** After a successful delete from an object (or through a primitive),
      the path reads as undefined. */
  lemma {:induction false} GetAfterDelete(v: J, p: seq<string>)
    requires |p| >= 1 && DeletePath(v, p).1
    requires GetPath(v, p[..|p| - 1]).None? || !GetPath(v, p[..|p| - 1]).value.JArr?
    ensures GetPath(DeletePath(v, p).0, p) == None
    decreases |p|
  {
    if |p| == 1 {
      assert p[..0] == [];
    } else {
      var c := Child(v, p[0]).value;
      assert p[..|p| - 1][0] == p[0];
      assert p[..|p| - 1][1..] == p[1..][..|p[1..]| - 1];
      GetAfterDelete(c, p[1..]);
      ChildPutSame(v, p[0], DeletePath(c, p[1..]).0);
    }
  }

  lemma ChildPutSame(v: J, k: string, x: J)
    requires Child(v, k).Some?
    ensures Child(Put(v, k, x), k) == Some(x)
  {
  }

  /** A repeated delete of the same path still reports true. */
  lemma {:induction false} DeleteTwiceTrue(v: J, p: seq<string>)
    requires |p| >= 1 && DeletePath(v, p).1
    ensures DeletePath(DeletePath(v, p).0, p).1
    decreases |p|
  {
    if |p| > 1 {
      var c := Child(v, p[0]).value;
      var c' := DeletePath(c, p[1..]).0;
      DeleteTwiceTrue(c, p[1..]);
      ChildPutSame(v, p[0], c');
    }
  }

  /** A delete changes nothing reachable by a path that parts from it. */
  lemma {:induction false} DeleteLeavesOthers(v: J, p: seq<string>, q: seq<string>)
    requires |p| >= 1 && Diverge(p, q)
    ensures GetPath(DeletePath(v, p).0, q) == GetPath(v, q)
    decreases |p|
  {
    var (r, ok) := DeletePath(v, p);
    var i :| 0 <= i < |p| && i < |q| && p[i] != q[i];
    if ok {
      if |p| == 1 {
        ChildRemoveOther(v, p[0], q[0]);
      } else {
        var c := Child(v, p[0]).value;
        var c' := DeletePath(c, p[1..]).0;
        if p[0] != q[0] {
          ChildPutOther(v, p[0], c', q[0]);
        } else {
          assert Diverge(p[1..], q[1..]) by {
            assert p[1..][i - 1] != q[1..][i - 1];
          }
          DeleteLeavesOthers(c, p[1..], q[1..]);
          ChildPutSame(v, p[0], c');
        }
      }
    }
  }
}
