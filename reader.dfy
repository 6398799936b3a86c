/** The older reader `get_pv_metadata`: its channel and plane counts, and its Z rule for
    several Z controllers, which drops every occurrence of the first repeated Z value and then
    requires one Z value per plane. */
module Reader {
  import opened Common
  import opened Ordering
  import opened ScanDescriptor
  import Extraction

  // ---------------------------------------------------------------- positions and groups

  /** The positions at which `v` occurs in `zs`, ascending. */
  function PositionsOf(zs: seq<ZToken>, v: ZToken): (r: seq<nat>)
    ensures forall j :: 0 <= j < |r| ==> r[j] < |zs| && zs[r[j]] == v
    ensures forall j, l :: 0 <= j < l < |r| ==> r[j] < r[l]
    ensures v !in zs ==> r == []
  {
    if zs == [] then []
    else
      var n := |zs| - 1;
      var pre := PositionsOf(zs[..n], v);
      pre + (if zs[n] == v then [n] else [])
  }

  /** Every position of `v` is listed. */
  lemma {:induction false} PositionsComplete(zs: seq<ZToken>, v: ZToken)
    ensures forall i :: 0 <= i < |zs| && zs[i] == v ==> i in PositionsOf(zs, v)
  {
    if zs != [] {
      var n := |zs| - 1;
      var pre := PositionsOf(zs[..n], v);
      PositionsComplete(zs[..n], v);
      assert PositionsOf(zs, v) == pre + (if zs[n] == v then [n] else []);
      forall i | 0 <= i < |zs| && zs[i] == v ensures i in PositionsOf(zs, v) {
        if i < n {
          assert zs[..n][i] == v;
          assert i in pre;
        }
      }
    }
  }

  /** The distinct values of `zs` in order of first occurrence. */
  function Keys(zs: seq<ZToken>): (r: seq<ZToken>)
    ensures forall v :: v in r <==> v in zs
    ensures NoDuplicates(r)
  {
    if zs == [] then []
    else
      var pre := Keys(zs[..|zs| - 1]);
      if zs[|zs| - 1] in pre then pre else pre + [zs[|zs| - 1]]
  }

  /** An entry of `zdata_dictionary`: a Z value and the positions where it occurs. */
  datatype Group = Group(value: ZToken, positions: seq<nat>)

  /** `zdata_dictionary[v].append(idx)`: extend the group of `v`, or add one at the end. */
  function AddPosition(groups: seq<Group>, v: ZToken, idx: nat): seq<Group> {
    if groups == [] then [Group(v, [idx])]
    else if groups[0].value == v then [Group(v, groups[0].positions + [idx])] + groups[1..]
    else [groups[0]] + AddPosition(groups[1..], v, idx)
  }

  /** `groups` is the dictionary of `zs`: one group per distinct value, in order of first
      occurrence, holding every position of that value in ascending order. */
  ghost predicate Indexes(groups: seq<Group>, zs: seq<ZToken>) {
    && |groups| == |Keys(zs)|
    && forall k :: 0 <= k < |groups| ==> groups[k] == Group(Keys(zs)[k], PositionsOf(zs, Keys(zs)[k]))
  }

  lemma {:induction false} AddPositionNew(groups: seq<Group>, v: ZToken, idx: nat)
    requires forall k :: 0 <= k < |groups| ==> groups[k].value != v
    ensures AddPosition(groups, v, idx) == groups + [Group(v, [idx])]
  {
    if groups != [] {
      AddPositionNew(groups[1..], v, idx);
      assert groups == [groups[0]] + groups[1..];
    }
  }

  lemma {:induction false} AddPositionExisting(groups: seq<Group>, v: ZToken, idx: nat, k: nat)
    requires k < |groups| && groups[k].value == v
    requires forall j :: 0 <= j < k ==> groups[j].value != v
    ensures AddPosition(groups, v, idx) == groups[k := Group(v, groups[k].positions + [idx])]
  {
    if k > 0 {
      AddPositionExisting(groups[1..], v, idx, k - 1);
      assert groups[1..][k - 1 := Group(v, groups[k].positions + [idx])]
          == groups[k := Group(v, groups[k].positions + [idx])][1..];
    }
  }

  lemma PositionsAppend(pre: seq<ZToken>, v: ZToken, w: ZToken)
    ensures PositionsOf(pre + [v], w) == PositionsOf(pre, w) + (if v == w then [|pre|] else [])
  {
    assert (pre + [v])[..|pre|] == pre;
  }

  /** Entering the next position keeps the dictionary faithful. */
  lemma AddPreserves(groups: seq<Group>, pre: seq<ZToken>, v: ZToken)
    requires Indexes(groups, pre)
    ensures Indexes(AddPosition(groups, v, |pre|), pre + [v])
  {
    if v in Keys(pre) {
      AddPreservesSeen(groups, pre, v);
    } else {
      AddPreservesNew(groups, pre, v);
    }
  }

  lemma AddPreservesSeen(groups: seq<Group>, pre: seq<ZToken>, v: ZToken)
    requires Indexes(groups, pre) && v in Keys(pre)
    ensures Indexes(AddPosition(groups, v, |pre|), pre + [v])
  {
    var zs := pre + [v];
    assert zs[..|zs| - 1] == pre;
    var keys := Keys(pre);
    var k :| 0 <= k < |keys| && keys[k] == v;
    assert forall j :: 0 <= j < k ==> groups[j].value != v by {
      assert NoDuplicates(keys);
    }
    AddPositionExisting(groups, v, |pre|, k);
    var after := AddPosition(groups, v, |pre|);
    assert Keys(zs) == keys;
    forall j | 0 <= j < |after| ensures after[j] == Group(keys[j], PositionsOf(zs, keys[j])) {
      PositionsAppend(pre, v, keys[j]);
    }
  }

  lemma AddPreservesNew(groups: seq<Group>, pre: seq<ZToken>, v: ZToken)
    requires Indexes(groups, pre) && v !in Keys(pre)
    ensures Indexes(AddPosition(groups, v, |pre|), pre + [v])
  {
    var zs := pre + [v];
    assert zs[..|zs| - 1] == pre;
    AddPositionNew(groups, v, |pre|);
    var after := AddPosition(groups, v, |pre|);
    var keys := Keys(zs);
    assert keys == Keys(pre) + [v];
    forall j | 0 <= j < |after| ensures after[j] == Group(keys[j], PositionsOf(zs, keys[j])) {
      PositionsAppend(pre, v, keys[j]);
    }
  }

  /** Building `zdata_dictionary`: enter each value's position in turn. */
  method IndexByValue(zs: seq<ZToken>) returns (groups: seq<Group>)
    ensures Indexes(groups, zs)
  {
    groups := [];
    for idx := 0 to |zs|
      invariant Indexes(groups, zs[..idx])
    {
      assert zs[..idx + 1] == zs[..idx] + [zs[idx]];
      AddPreserves(groups, zs[..idx], zs[idx]);
      groups := AddPosition(groups, zs[idx], idx);
    }
    assert zs[..|zs|] == zs;
  }

  // ---------------------------------------------------------------- the first repeated value

  /** `repeating_values`: the groups with more than one position, in dictionary order. */
  function Repeating(groups: seq<Group>): seq<Group> {
    if groups == [] then []
    else (if |groups[0].positions| > 1 then [groups[0]] else []) + Repeating(groups[1..])
  }

  /** The value at position `i` occurs at some other position too. */
  predicate RepeatsAt(zs: seq<ZToken>, i: nat) {
    i < |zs| && exists j :: 0 <= j < |zs| && j != i && zs[j] == zs[i]
  }

  /** The first position, from `lo` on, whose value occurs elsewhere; |zs| when there is none. */
  function FirstRepeatFrom(zs: seq<ZToken>, lo: nat): (i: nat)
    requires lo <= |zs|
    ensures lo <= i <= |zs|
    ensures i < |zs| ==> RepeatsAt(zs, i)
    ensures forall j :: lo <= j < i ==> !RepeatsAt(zs, j)
    decreases |zs| - lo
  {
    if lo == |zs| then lo
    else if RepeatsAt(zs, lo) then lo
    else FirstRepeatFrom(zs, lo + 1)
  }

  /** The first position whose value occurs more than once; |zs| when no value repeats. */
  function FirstRepeat(zs: seq<ZToken>): nat {
    FirstRepeatFrom(zs, 0)
  }

  /** `zs` with every occurrence of `v` removed, the rest in order. */
  function RemoveAll(zs: seq<ZToken>, v: ZToken): seq<ZToken> {
    if zs == [] then []
    else RemoveAll(zs[..|zs| - 1], v) + (if zs[|zs| - 1] == v then [] else [zs[|zs| - 1]])
  }

  /** The reader's rule: drop every occurrence of the value that repeats and comes first. */
  function WithoutFirstRepeat(zs: seq<ZToken>): seq<ZToken> {
    var i := FirstRepeat(zs);
    if i < |zs| then RemoveAll(zs, zs[i]) else zs
  }

  /** Every occurrence of `b` is preceded by an occurrence of `a`. */
  ghost predicate SeenBefore(zs: seq<ZToken>, a: ZToken, b: ZToken) {
    forall q :: 0 <= q < |zs| && zs[q] == b ==> exists p :: 0 <= p < q && zs[p] == a
  }

  /** The keys come in order of first occurrence. */
  lemma {:induction false} KeysInOrder(zs: seq<ZToken>)
    ensures forall j, l :: 0 <= j < l < |Keys(zs)| ==> SeenBefore(zs, Keys(zs)[j], Keys(zs)[l])
  {
    if zs != [] {
      var n := |zs| - 1;
      var pre, v := zs[..n], zs[n];
      KeysInOrder(pre);
      var keys := Keys(zs);
      forall j, l | 0 <= j < l < |keys| ensures SeenBefore(zs, keys[j], keys[l]) {
        forall q | 0 <= q < |zs| && zs[q] == keys[l] ensures exists p :: 0 <= p < q && zs[p] == keys[j] {
          if l < |Keys(pre)| {
            assert keys[j] == Keys(pre)[j] && keys[l] == Keys(pre)[l];
            assert SeenBefore(pre, keys[j], keys[l]);
            if q < n {
              assert pre[q] == keys[l];
              var p :| 0 <= p < q && pre[p] == keys[j];
              assert zs[p] == keys[j];
            } else {
              assert keys[l] in pre;
              var q' :| 0 <= q' < n && pre[q'] == keys[l];
              var p :| 0 <= p < q' && pre[p] == keys[j];
              assert zs[p] == keys[j];
            }
          } else {
            assert keys[j] == Keys(pre)[j] && keys[j] in pre;
            var p :| 0 <= p < n && pre[p] == keys[j];
            assert keys[l] == v && v !in pre;
            assert q == n;
            assert zs[p] == keys[j];
          }
        }
      }
    }
  }

  /** A value occurs at more than one position exactly when it repeats at each of them. */
  lemma RepeatedValue(zs: seq<ZToken>, i: nat)
    requires i < |zs|
    ensures |PositionsOf(zs, zs[i])| > 1 <==> RepeatsAt(zs, i)
  {
    var ps := PositionsOf(zs, zs[i]);
    PositionsComplete(zs, zs[i]);
    assert i in ps;
    if |ps| > 1 {
      var j := if ps[0] == i then ps[1] else ps[0];
      assert j != i && zs[j] == zs[i];
    }
    if RepeatsAt(zs, i) {
      var j :| 0 <= j < |zs| && j != i && zs[j] == zs[i];
      assert j in ps;
    }
  }

  lemma {:induction false} RepeatingFirst(groups: seq<Group>, k: nat)
    requires k <= |groups|
    requires forall j :: 0 <= j < k ==> |groups[j].positions| <= 1
    ensures k < |groups| && |groups[k].positions| > 1 ==> |Repeating(groups)| > 0 && Repeating(groups)[0] == groups[k]
    ensures k == |groups| ==> Repeating(groups) == []
  {
    if k > 0 {
      RepeatingFirst(groups[1..], k - 1);
    }
  }

  /** The dictionary's first repeating group is the value at the first repeating position,
      with all its positions; there is none exactly when no value repeats. */
  lemma FirstRepeatedGroup(groups: seq<Group>, zs: seq<ZToken>)
    requires Indexes(groups, zs)
    ensures var rep := Repeating(groups);
      var i := FirstRepeat(zs);
      && (|rep| > 0 <==> i < |zs|)
      && (|rep| > 0 ==> rep[0] == Group(zs[i], PositionsOf(zs, zs[i])))
  {
    var keys := Keys(zs);
    var i := FirstRepeat(zs);
    if i < |zs| {
      var v := zs[i];
      assert v in keys;
      var k :| 0 <= k < |keys| && keys[k] == v;
      KeysInOrder(zs);
      forall j | 0 <= j < k ensures |groups[j].positions| <= 1 {
        assert SeenBefore(zs, keys[j], keys[k]);
        var p :| 0 <= p < i && zs[p] == keys[j];
        RepeatedValue(zs, p);
        assert !RepeatsAt(zs, p);
      }
      RepeatedValue(zs, i);
      RepeatingFirst(groups, k);
    } else {
      forall j | 0 <= j < |groups| ensures |groups[j].positions| <= 1 {
        assert keys[j] in zs;
        var p :| 0 <= p < |zs| && zs[p] == keys[j];
        RepeatedValue(zs, p);
      }
      RepeatingFirst(groups, |groups|);
    }
  }

  // ---------------------------------------------------------------- deletion

  /** The elements of `zs` at positions outside `drop`, in order. */
  function Keep(zs: seq<ZToken>, drop: set<nat>): seq<ZToken> {
    if zs == [] then []
    else Keep(zs[..|zs| - 1], drop) + (if |zs| - 1 in drop then [] else [zs[|zs| - 1]])
  }

  lemma {:induction false} KeepAgree(zs: seq<ZToken>, a: set<nat>, b: set<nat>)
    requires forall i: nat :: i < |zs| ==> (i in a <==> i in b)
    ensures Keep(zs, a) == Keep(zs, b)
  {
    if zs != [] {
      KeepAgree(zs[..|zs| - 1], a, b);
    }
  }

  lemma {:induction false} KeepNothing(zs: seq<ZToken>)
    ensures Keep(zs, {}) == zs
  {
    if zs != [] {
      KeepNothing(zs[..|zs| - 1]);
    }
  }

  /** Deleting position `d` from what is left after deleting positions above `d`. */
  lemma {:induction false} KeepDelete(zs: seq<ZToken>, done: set<nat>, d: nat)
    requires d < |zs| && forall x :: x in done ==> x > d
    ensures |Keep(zs, done)| > d
    ensures Keep(zs, done + {d}) == Keep(zs, done)[..d] + Keep(zs, done)[d + 1..]
  {
    var n := |zs| - 1;
    if d == n {
      KeepDeleteLast(zs, done);
    } else {
      KeepDelete(zs[..n], done, d);
      KeepDeleteBelow(zs, done, d);
    }
  }

  lemma KeepDeleteLast(zs: seq<ZToken>, done: set<nat>)
    requires zs != [] && forall x :: x in done ==> x > |zs| - 1
    ensures |Keep(zs, done)| == |zs|
    ensures Keep(zs, done + {|zs| - 1}) == Keep(zs, done)[..|zs| - 1]
  {
    var pre := zs[..|zs| - 1];
    KeepAgree(pre, done + {|zs| - 1}, {});
    KeepAgree(pre, done, {});
    KeepNothing(pre);
  }

  lemma KeepDeleteBelow(zs: seq<ZToken>, done: set<nat>, d: nat)
    requires d < |zs| - 1 && forall x :: x in done ==> x > d
    requires |Keep(zs[..|zs| - 1], done)| > d
    requires Keep(zs[..|zs| - 1], done + {d}) ==
      Keep(zs[..|zs| - 1], done)[..d] + Keep(zs[..|zs| - 1], done)[d + 1..]
    ensures |Keep(zs, done)| > d
    ensures Keep(zs, done + {d}) == Keep(zs, done)[..d] + Keep(zs, done)[d + 1..]
  {
    var n := |zs| - 1;
    var a := Keep(zs[..n], done);
    var tail := if n in done then [] else [zs[n]];
    assert Keep(zs, done) == a + tail;
    assert (n in done + {d}) == (n in done);
    assert Keep(zs, done + {d}) == Keep(zs[..n], done + {d}) + tail;
    assert (a + tail)[..d] == a[..d];
    assert (a + tail)[d + 1..] == a[d + 1..] + tail;
  }

  /** `sort(reverse=True)` on an ascending list: its reverse. */
  function Reverse(s: seq<nat>): (r: seq<nat>)
    ensures |r| == |s| && forall j :: 0 <= j < |s| ==> r[j] == s[|s| - 1 - j]
  {
    if s == [] then [] else [s[|s| - 1]] + Reverse(s[..|s| - 1])
  }

  /** `for idx in drop: del z_values[idx]`, the positions coming in descending order. */
  method DeleteDescending(zs: seq<ZToken>, drop: seq<nat>) returns (r: seq<ZToken>)
    requires forall j :: 0 <= j < |drop| ==> drop[j] < |zs|
    requires forall j, l :: 0 <= j < l < |drop| ==> drop[j] > drop[l]
    ensures r == Keep(zs, Elems(drop))
  {
    r := zs;
    KeepNothing(zs);
    assert Elems(drop[..0]) == {};
    for j := 0 to |drop|
      invariant r == Keep(zs, Elems(drop[..j]))
    {
      KeepDelete(zs, Elems(drop[..j]), drop[j]);
      assert Elems(drop[..j + 1]) == Elems(drop[..j]) + {drop[j]} by {
        assert drop[..j + 1] == drop[..j] + [drop[j]];
      }
      r := r[..drop[j]] + r[drop[j] + 1..];
    }
    assert drop[..|drop|] == drop;
  }

  /** Filtering out the positions of `v` removes exactly the occurrences of `v`. */
  lemma {:induction false} KeepPositions(zs: seq<ZToken>, v: ZToken)
    ensures Keep(zs, Elems(PositionsOf(zs, v))) == RemoveAll(zs, v)
  {
    if zs != [] {
      var n := |zs| - 1;
      var pre := zs[..n];
      KeepPositions(pre, v);
      KeepAgree(pre, Elems(PositionsOf(zs, v)), Elems(PositionsOf(pre, v)));
    }
  }

  /** The positions of the first repeating group, highest first, are valid positions in
      descending order, and deleting them leaves the reader's result. */
  lemma DropPlan(groups: seq<Group>, zs: seq<ZToken>)
    requires Indexes(groups, zs) && |Repeating(groups)| > 0
    ensures var drop := Reverse(Repeating(groups)[0].positions);
      && (forall j :: 0 <= j < |drop| ==> drop[j] < |zs|)
      && (forall j, l :: 0 <= j < l < |drop| ==> drop[j] > drop[l])
      && Keep(zs, Elems(drop)) == WithoutFirstRepeat(zs)
  {
    FirstRepeatedGroup(groups, zs);
    var v := zs[FirstRepeat(zs)];
    assert Repeating(groups)[0].positions == PositionsOf(zs, v);
    ReverseAscending(PositionsOf(zs, v), |zs|);
    KeepPositions(zs, v);
  }

  /** An ascending list of positions below `bound`, reversed, is descending, below `bound`, and
      holds the same positions. */
  lemma ReverseAscending(s: seq<nat>, bound: nat)
    requires forall j :: 0 <= j < |s| ==> s[j] < bound
    requires forall j, l :: 0 <= j < l < |s| ==> s[j] < s[l]
    ensures var r := Reverse(s);
      && (forall j :: 0 <= j < |r| ==> r[j] < bound)
      && (forall j, l :: 0 <= j < l < |r| ==> r[j] > r[l])
      && Elems(r) == Elems(s)
  {
    var r := Reverse(s);
    forall x ensures x in r <==> x in s {
      if x in s {
        var j :| 0 <= j < |s| && s[j] == x;
        assert r[|s| - 1 - j] == x;
      }
    }
  }

  /** The reader's removal as written: index the values, take the first repeating group, and
      delete its positions from the highest down. */
  method DropFirstRepeated(zValues: seq<ZToken>) returns (r: seq<ZToken>)
    ensures r == WithoutFirstRepeat(zValues)
  {
    var groups := IndexByValue(zValues);
    var repeating := Repeating(groups);
    r := zValues;
    if |repeating| > 0 {
      var drop := Reverse(repeating[0].positions);
      DropPlan(groups, zValues);
      r := DeleteDescending(r, drop);
    } else {
      FirstRepeatedGroup(groups, zValues);
    }
  }

  /** Without a repeated value the list is unchanged. Otherwise the value dropped is the one at
      the first position whose value occurs elsewhere, so no value before its first occurrence
      repeats; it occurs at least twice; and the result is the list filtered to the positions
      outside its occurrences, which keeps every other value in order and no copy of it. */
  lemma WithoutFirstRepeatSpec(zs: seq<ZToken>)
    ensures (forall i :: 0 <= i < |zs| ==> !RepeatsAt(zs, i)) ==> WithoutFirstRepeat(zs) == zs
    ensures var i := FirstRepeat(zs);
      i < |zs| ==>
        && (forall j :: 0 <= j < i ==> !RepeatsAt(zs, j))
        && |PositionsOf(zs, zs[i])| >= 2
        && WithoutFirstRepeat(zs) == Keep(zs, Elems(PositionsOf(zs, zs[i])))
        && (forall x :: x in WithoutFirstRepeat(zs) <==> x in zs && x != zs[i])
  {
    var i := FirstRepeat(zs);
    if i < |zs| {
      RepeatedValue(zs, i);
      KeepPositions(zs, zs[i]);
      RemoveAllMembers(zs, zs[i]);
    }
  }

  /** Two controllers, one fixed at 0 and one stepping through the planes: the fixed value is
      the first repeated one, and removing it leaves the stepping controller's values. */
  lemma WithoutFirstRepeatExample()
    ensures WithoutFirstRepeat(["0", "10", "0", "20", "0", "30"]) == ["10", "20", "30"]
  {
    var zs := ["0", "10", "0", "20", "0", "30"];
    assert zs[2] == zs[0];
    assert FirstRepeat(zs) == 0;
    var p1, p2, p3, p4, p5 := zs[..1], zs[..2], zs[..3], zs[..4], zs[..5];
    assert p1[..0] == [] && p2[..1] == p1 && p3[..2] == p2 && p4[..3] == p3 && p5[..4] == p4;
    assert zs[..5] == p5;
    assert RemoveAll(p1, "0") == [];
    assert RemoveAll(p2, "0") == ["10"];
    assert RemoveAll(p3, "0") == ["10"];
    assert RemoveAll(p4, "0") == ["10", "20"];
    assert RemoveAll(p5, "0") == ["10", "20"];
  }

  lemma {:induction false} RemoveAllMembers(zs: seq<ZToken>, v: ZToken)
    ensures forall x :: x in RemoveAll(zs, v) <==> x in zs && x != v
  {
    if zs != [] {
      var pre := zs[..|zs| - 1];
      RemoveAllMembers(pre, v);
      assert zs == pre + [zs[|zs| - 1]];
    }
  }

  // ---------------------------------------------------------------- the reader's metadata

  /** The reader's Z positions: one scalar, a list with one value per plane, or a range of
      evenly spaced values of which only the size is modelled. */
  datatype ReaderZ = SingleZ(z: ZToken) | ZList(zs: seq<ZToken>) | ZRange(size: nat)

  /** The counts and Z data of the reader's metadata dictionary. */
  datatype PvMeta = PvMeta(
    numChannels: nat,
    numPlanes: nat,
    numFrames: nat,
    bidirectionalZ: bool,
    zFields: ReaderZ)

  /** The Z values of all cycle-1 Z sub-values with the first repeated value removed. */
  function ReaderZValues(d: Descriptor): seq<ZToken> {
    WithoutFirstRepeat(AllValues(ZEntries(CycleFrames(d, 1))))
  }

  /** The reader's Z rule once cycle 1 is known to carry Z data. `rangeSize` is the size of the
      floating-point range from the first to the last subindex-0 value, or None when the Z step
      setting is missing. */
  function ReaderZLayout(d: Descriptor, rangeSize: Option<nat>): (r: Result<(nat, ReaderZ)>)
    ensures r.Success? ==>
      && r.value.0 == |Elems(FrameIndices(CycleFrames(d, 1)))|
      && (r.value.1.ZList? ==> |r.value.1.zs| == r.value.0)
      && (r.value.1.ZRange? ==> r.value.1.size == r.value.0)
  {
    var cycle1 := CycleFrames(d, 1);
    var nDepths := |Elems(FrameIndices(cycle1))|;
    if |ZEntries(WithIndex(cycle1, 1))| > 1 then
      var zs := ReaderZValues(d);
      if zs == [] then Failure(EmptyZList)
      else if |zs| != nDepths then Failure(DepthMismatch)
      else Success((nDepths, ZList(zs)))
    else if ValuesAt(ZEntries(cycle1), 0) == [] || rangeSize.None? then Failure(MissingElement)
    else if rangeSize.value != nDepths then Failure(DepthMismatch)
    else Success((nDepths, ZRange(rangeSize.value)))
  }

  /** `get_pv_metadata` on a descriptor. */
  function PvMetadata(d: Descriptor, rangeSize: Option<nat>): Result<PvMeta> {
    if !HasCycle(d, 1) || !d.settingsPresent || |AllFrames(d)| == 0 then Failure(MissingElement)
    else
      var numChannels := |Elems(ChannelList(AllFiles(d)))|;
      var cycle1 := CycleFrames(d, 1);
      if !HasZAxis(cycle1) then
        if d.firstZ.None? then Failure(MissingElement)
        else Success(PvMeta(numChannels, 1, |AllFrames(d)|, false, SingleZ(d.firstZ.value)))
      else
        var bidirectional := |d.sequences| > 0 && d.sequences[0].bidirectionalZ;
        var layout :- ReaderZLayout(d, rangeSize);
        Success(PvMeta(numChannels, layout.0, |AllFrames(d)|, bidirectional, layout.1))
  }

  /** The reader's metadata as written: the Z list is cleaned by the dictionary loop and the
      deletions in descending order. */
  method GetPvMetadata(d: Descriptor, rangeSize: Option<nat>) returns (r: Result<PvMeta>)
    ensures r == PvMetadata(d, rangeSize)
  {
    if !HasCycle(d, 1) || !d.settingsPresent || |AllFrames(d)| == 0 {
      return Failure(MissingElement);
    }
    var numChannels := |Elems(ChannelList(AllFiles(d)))|;
    var cycle1 := CycleFrames(d, 1);
    if !HasZAxis(cycle1) {
      if d.firstZ.None? {
        return Failure(MissingElement);
      }
      return Success(PvMeta(numChannels, 1, |AllFrames(d)|, false, SingleZ(d.firstZ.value)));
    }
    var bidirectional := |d.sequences| > 0 && d.sequences[0].bidirectionalZ;
    var nDepths := |Elems(FrameIndices(cycle1))|;
    var zFields: ReaderZ;
    if |ZEntries(WithIndex(cycle1, 1))| > 1 {
      var zs := DropFirstRepeated(AllValues(ZEntries(cycle1)));
      if zs == [] {
        return Failure(EmptyZList);
      }
      if |zs| != nDepths {
        return Failure(DepthMismatch);
      }
      zFields := ZList(zs);
    } else {
      if ValuesAt(ZEntries(cycle1), 0) == [] || rangeSize.None? {
        return Failure(MissingElement);
      }
      if rangeSize.value != nDepths {
        return Failure(DepthMismatch);
      }
      zFields := ZRange(rangeSize.value);
    }
    r := Success(PvMeta(numChannels, nDepths, |AllFrames(d)|, bidirectional, zFields));
  }

  /** The reader fails exactly when cycle 1, a dereferenced setting or every frame is missing,
      or when the Z data it needs is missing or inconsistent; the frame count is the number of
      `Sequence/Frame` elements and the channel count the number of distinct channel ids. */
  lemma PvCounts(d: Descriptor, rangeSize: Option<nat>)
    ensures (!HasCycle(d, 1) || !d.settingsPresent || |AllFrames(d)| == 0) ==>
      PvMetadata(d, rangeSize) == Failure(MissingElement)
    ensures PvMetadata(d, rangeSize).Success? ==>
      var m := PvMetadata(d, rangeSize).value;
      && m.numFrames == |AllFrames(d)| > 0
      && m.numChannels == |set i | 0 <= i < |AllFiles(d)| && AllFiles(d)[i].channel.Some? :: AllFiles(d)[i].channel.value|
  {
    if PvMetadata(d, rangeSize).Success? {
      var files := AllFiles(d);
      var want := set i | 0 <= i < |files| && files[i].channel.Some? :: files[i].channel.value;
      assert Elems(ChannelList(files)) == want by {
        forall c ensures c in Elems(ChannelList(files)) <==> c in want {
          if c in want {
            var i :| 0 <= i < |files| && files[i].channel.Some? && files[i].channel.value == c;
            assert files[i].channel == Some(c);
          }
        }
      }
    }
  }

  /** Without cycle-1 Z data the reader reports one plane and the first Z value; with it, the
      distinct cycle-1 frame indices are the planes and the Z data has one entry per plane. */
  lemma PvDepths(d: Descriptor, rangeSize: Option<nat>)
    requires PvMetadata(d, rangeSize).Success?
    ensures var m := PvMetadata(d, rangeSize).value;
      var cycle1 := CycleFrames(d, 1);
      && (!HasZAxis(cycle1) ==> m.numPlanes == 1 && m.zFields == SingleZ(d.firstZ.value) && !m.bidirectionalZ)
      && (HasZAxis(cycle1) ==>
            && m.numPlanes == |Elems(FrameIndices(cycle1))| >= 1
            && (m.zFields.ZList? ==> |m.zFields.zs| == m.numPlanes)
            && (m.zFields.ZRange? ==> m.zFields.size == m.numPlanes))
  {
    var cycle1 := CycleFrames(d, 1);
    if HasZAxis(cycle1) {
      var layout := ReaderZLayout(d, rangeSize);
      assert layout.Success?;
      assert PvMetadata(d, rangeSize).value.numPlanes == layout.value.0;
      assert PvMetadata(d, rangeSize).value.zFields == layout.value.1;
      var i :| 0 <= i < |cycle1| && cycle1[i].zAxis.Some?;
      assert FrameIndices(cycle1)[i] in Elems(FrameIndices(cycle1));
    }
  }

  /** With several Z sub-values in the first frame of cycle 1, the reader's Z list is every
      cycle-1 Z value with the first repeated value removed; it fails when that leaves nothing
      or leaves a count other than the number of planes. */
  lemma PvZList(d: Descriptor, rangeSize: Option<nat>)
    requires HasCycle(d, 1) && d.settingsPresent && |AllFrames(d)| > 0
    requires HasZAxis(CycleFrames(d, 1)) && |ZEntries(WithIndex(CycleFrames(d, 1), 1))| > 1
    ensures var zs := ReaderZValues(d);
      var nDepths := |Elems(FrameIndices(CycleFrames(d, 1)))|;
      && (zs == [] <==> PvMetadata(d, rangeSize) == Failure(EmptyZList))
      && (zs != [] && |zs| != nDepths <==> PvMetadata(d, rangeSize) == Failure(DepthMismatch))
      && (PvMetadata(d, rangeSize).Success? <==> zs != [] && |zs| == nDepths)
      && (PvMetadata(d, rangeSize).Success? ==> PvMetadata(d, rangeSize).value.zFields == ZList(zs))
  {
  }

  /** Where both the reader and the loader's extractor succeed, they count the same frames and
      the same channels. */
  lemma ReaderAgreesWithExtractor(d: Descriptor, rangeSize: Option<nat>)
    requires PvMetadata(d, rangeSize).Success? && Extraction.Extract(d).Success?
    ensures PvMetadata(d, rangeSize).value.numChannels == Extraction.Extract(d).value.numChannels
    ensures Extraction.Extract(d).value.numFrames == Some(PvMetadata(d, rangeSize).value.numFrames)
  {
    SetListingCorrect(ChannelList(AllFiles(d)));
  }
}
