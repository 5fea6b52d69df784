/** `union_edges` of day 12: within one region's edge list, each segment in
    turn is extended by every segment that starts where it ends and faces
    the same way; absorbed segments become the empty sentinel, and the
    sentinels are dropped at the end. */
module GardenSides {
  import opened Wrappers
  import opened GardenFences

  /** Straight segments and removed sentinels only. */
  predicate Tidy(v: seq<Edge>) {
    forall i :: 0 <= i < |v| ==> Straight(v[i]) || v[i] == EmptyEdge
  }

  /** The number of entries that are not removed. */
  function Live(v: seq<Edge>): nat {
    if |v| == 0 then 0 else Live(v[..|v| - 1]) + (if IsEmpty(v[|v| - 1]) then 0 else 1)
  }

  lemma {:induction false} LiveClear(v: seq<Edge>, i: nat)
    requires i < |v| && !IsEmpty(v[i])
    ensures Live(v[i := EmptyEdge]) + 1 == Live(v)
    decreases |v|
  {
    var n := |v| - 1;
    var t := v[i := EmptyEdge];
    if i == n {
      assert t[..n] == v[..n];
    } else {
      assert t[..n] == v[..n][i := EmptyEdge];
      LiveClear(v[..n], i);
    }
  }

  lemma {:induction false} TotalLenUpdate(v: seq<Edge>, i: nat, e: Edge)
    requires i < |v|
    ensures TotalLen(v[i := e]) + Len(v[i]) == TotalLen(v) + Len(e)
    decreases |v|
  {
    var n := |v| - 1;
    var t := v[i := e];
    if i == n {
      assert t[..n] == v[..n];
    } else {
      assert t[..n] == v[..n][i := e];
      TotalLenUpdate(v[..n], i, e);
    }
  }

  /** `v.iter().position(|e| e.start == end && e.typ == typ)`: the first
      segment that starts at `end` facing `typ`. */
  function Position(v: seq<Edge>, end: Point, typ: EdgeType): (r: Option<nat>)
    ensures r.None? <==> forall j :: 0 <= j < |v| ==> !(v[j].start == end && v[j].typ == typ)
    ensures r.Some? ==> r.value < |v| && v[r.value].start == end && v[r.value].typ == typ
    ensures r.Some? ==> forall j :: 0 <= j < r.value ==> !(v[j].start == end && v[j].typ == typ)
  {
    if |v| == 0 then None
    else if v[0].start == end && v[0].typ == typ then Some(0)
    else
      match Position(v[1..], end, typ)
      case None => None
      case Some(i) => Some(i + 1)
  }

  /** A segment that follows a straight one on the same line and facing the
      same way prolongs it. */
  lemma {:induction false} FollowIsStraight(first: Edge, e: Edge)
    requires Straight(first) && (Straight(e) || e == EmptyEdge)
    requires e.start == first.end && e.typ == first.typ
    ensures Straight(e) && Straight(first.(end := e.end))
    ensures Len(first.(end := e.end)) == Len(first) + Len(e)
  {
  }

  /** The inner `while let` loop: swallow followers of `first` until none is
      left. Every swallowed entry becomes the sentinel; nothing else in `v`
      changes. */
  function Extend(v: seq<Edge>, first: Edge): (res: (seq<Edge>, Edge))
    requires Tidy(v) && Straight(first)
    ensures |res.0| == |v| && Tidy(res.0) && Straight(res.1)
    ensures res.1.start == first.start && res.1.typ == first.typ
    ensures forall j :: 0 <= j < |v| ==> !(res.0[j].start == res.1.end && res.0[j].typ == res.1.typ)
    ensures forall m :: 0 <= m < |v| ==> res.0[m] == v[m] || (res.0[m] == EmptyEdge && v[m].start != first.start)
    ensures TotalLen(res.0) + Len(res.1) == TotalLen(v) + Len(first)
    decreases Live(v)
  {
    match Position(v, first.end, first.typ)
    case None => (v, first)
    case Some(i) =>
      var e := v[i];
      FollowIsStraight(first, e);
      LiveClear(v, i);
      TotalLenUpdate(v, i, EmptyEdge);
      Extend(v[i := EmptyEdge], first.(end := e.end))
  }

  /** The outer loop from index `idx` on; the length is fixed when the loop
      starts. */
  function MergeFrom(v: seq<Edge>, idx: nat): (w: seq<Edge>)
    requires Tidy(v) && idx <= |v|
    ensures |w| == |v| && Tidy(w) && TotalLen(w) == TotalLen(v)
    decreases |v| - idx
  {
    if idx == |v| then v
    else if IsEmpty(v[idx]) then MergeFrom(v, idx + 1)
    else
      var (u, first) := Extend(v, v[idx]);
      TotalLenUpdate(u, idx, first);
      MergeFrom(u[idx := first], idx + 1)
  }

  /** `v.retain(|e| !e.is_empty())`. */
  function Retain(v: seq<Edge>): (r: seq<Edge>)
    ensures |r| <= |v|
    ensures forall e :: e in r <==> e in v && !IsEmpty(e)
  {
    if |v| == 0 then []
    else Retain(v[..|v| - 1]) + (if IsEmpty(v[|v| - 1]) then [] else [v[|v| - 1]])
  }

  lemma {:induction false} RetainLen(v: seq<Edge>)
    requires Tidy(v)
    ensures TotalLen(Retain(v)) == TotalLen(v)
    decreases |v|
  {
    if |v| > 0 {
      var n := |v| - 1;
      assert Tidy(v[..n]);
      RetainLen(v[..n]);
      var r := Retain(v[..n]);
      if IsEmpty(v[n]) {
        assert Retain(v) == r;
        assert Len(v[n]) == 0;
      } else {
        assert Retain(v) == r + [v[n]];
        assert (r + [v[n]])[..|r|] == r;
      }
    }
  }

  /** Every straight segment has positive length, so a list of them has a
      positive total. */
  lemma {:induction false} TotalLenPositive(v: seq<Edge>)
    requires WellFormedList(v)
    ensures TotalLen(v) >= |v| > 0
    decreases |v|
  {
    var n := |v| - 1;
    assert v[n] in v;
    StraightNotEmpty(v[n]);
    if n > 0 {
      assert forall e :: e in v[..n] ==> e in v;
      TotalLenPositive(v[..n]);
    }
  }

  /** `union_edges` on one list. */
  function UnionEdges(v: seq<Edge>): (r: seq<Edge>)
    requires WellFormedList(v)
    ensures WellFormedList(r) && |r| <= |v|
    ensures TotalLen(r) == TotalLen(v)
  {
    var w := MergeFrom(v, 0);
    RetainLen(w);
    TotalLenPositive(v);
    assert forall e :: e in Retain(w) ==> Straight(e);
    Retain(w)
  }

  // ---------------------------------------------------------------------------
  // Maximality
  // ---------------------------------------------------------------------------

  /** No entry starts where entry `j` ends facing the same way. */
  predicate Closed(v: seq<Edge>, j: nat)
    requires j < |v|
  {
    IsEmpty(v[j]) || forall m :: 0 <= m < |v| ==> !(v[m].start == v[j].end && v[m].typ == v[j].typ)
  }

  predicate ClosedBelow(v: seq<Edge>, idx: nat)
    requires idx <= |v|
  {
    forall j :: 0 <= j < idx ==> Closed(v, j)
  }

  /** A straight segment never ends at the corner the sentinel starts at. */
  lemma {:induction false} EndNotOrigin(e: Edge)
    requires Straight(e)
    ensures e.end != EmptyEdge.start
  {
  }

  /** One round of the outer loop closes entry `idx` and keeps the entries
      before it closed. */
  lemma {:induction false} MergeStepCloses(v: seq<Edge>, idx: nat)
    requires Tidy(v) && idx < |v| && !IsEmpty(v[idx]) && ClosedBelow(v, idx)
    ensures var (u, first) := Extend(v, v[idx]);
      ClosedBelow(u[idx := first], idx + 1)
  {
    var (u, first) := Extend(v, v[idx]);
    var w := u[idx := first];
    assert Straight(v[idx]);
    assert u[idx] == v[idx] by {
      assert v[idx].start != v[idx].end;
    }
    forall j | 0 <= j < idx + 1 ensures Closed(w, j) {
      if j < idx && !IsEmpty(w[j]) {
        assert w[j] == v[j];
        assert Straight(v[j]);
        EndNotOrigin(v[j]);
        assert Closed(v, j);
        forall m | 0 <= m < |w| ensures !(w[m].start == w[j].end && w[m].typ == w[j].typ) {
          if m == idx {
            assert w[m].start == v[idx].start && w[m].typ == v[idx].typ;
          } else if u[m] == v[m] {
            assert !(v[m].start == v[j].end && v[m].typ == v[j].typ);
          } else {
            assert w[m] == EmptyEdge;
          }
        }
      } else if j == idx {
        forall m | 0 <= m < |w| ensures !(w[m].start == w[j].end && w[m].typ == w[j].typ) {
          if m == idx {
            StraightNotEmpty(first);
          }
        }
      }
    }
  }

  lemma {:induction false} MergeFromCloses(v: seq<Edge>, idx: nat)
    requires Tidy(v) && idx <= |v| && ClosedBelow(v, idx)
    ensures ClosedBelow(MergeFrom(v, idx), |v|)
    decreases |v| - idx
  {
    if idx < |v| {
      if IsEmpty(v[idx]) {
        MergeFromCloses(v, idx + 1);
      } else {
        var (u, first) := Extend(v, v[idx]);
        MergeStepCloses(v, idx);
        MergeFromCloses(u[idx := first], idx + 1);
      }
    }
  }

  /** After `union_edges` no segment can be prolonged by another: the
      segments are maximal. */
  lemma {:induction false} UnionEdgesMaximal(v: seq<Edge>)
    requires WellFormedList(v)
    ensures forall a, b :: a in UnionEdges(v) && b in UnionEdges(v) ==> !(b.start == a.end && b.typ == a.typ)
  {
    var w := MergeFrom(v, 0);
    MergeFromCloses(v, 0);
    forall a, b | a in Retain(w) && b in Retain(w) ensures !(b.start == a.end && b.typ == a.typ) {
      var j :| 0 <= j < |w| && w[j] == a;
      var m :| 0 <= m < |w| && w[m] == b;
      assert Closed(w, j);
    }
  }
}
