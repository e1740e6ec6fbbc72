/** Moving the chroutines of a blocked kernel thread to another one. */
module Migration {
  import opened Schedule

  /** The chroutines that can be moved, in scheduling order: all but the running one. */
  function Movable(list: seq<Id>, running: Id): (r: seq<Id>)
    ensures forall x :: x in r <==> x in list && x != running
  {
    if list == [] then [] else
    var front, last := list[..|list| - 1], list[|list| - 1];
    assert list == front + [last];
    Movable(front, running) + (if last != running then [last] else [])
  }

  /** resettle: a copy of the chroutine is appended to the schedule. */
  function Resettle(s: Sched, id: Id, co: Co): Sched {
    s.(cos := s.cos[id := co.(moved := false)], list := s.list + [id])
  }

  function ResettleAll(s: Sched, cos: map<Id, Co>, ids: seq<Id>): Sched {
    if ids == [] then s else
    var r, id := ResettleAll(s, cos, ids[..|ids| - 1]), ids[|ids| - 1];
    if id in cos then Resettle(r, id, cos[id]) else r
  }

  function RemoveAll(s: Sched, ids: seq<Id>): Sched {
    if ids == [] then s else Remove(RemoveAll(s, ids[..|ids| - 1]), ids[|ids| - 1])
  }

  /** The originals are flagged until they are removed. */
  function Flagged(s: Sched, ids: seq<Id>): Sched {
    s.(cos := map id | id in s.cos :: if id in ids then s.cos[id].(moved := true) else s.cos[id])
  }

  /** What is left of the thread that chroutines are moved from. */
  function Source(s: Sched): Sched {
    var ids := Movable(s.list, s.running);
    RemoveAll(Flagged(s, ids), ids)
  }

  /** The thread they are moved to. */
  function Target(s: Sched, t: Sched): Sched {
    ResettleAll(t, s.cos, Movable(s.list, s.running))
  }

  /** `r` is `t` with the chroutines `ids` of `cos` appended. */
  ghost predicate Appended(t: Sched, cos: map<Id, Co>, ids: seq<Id>, r: Sched) {
    && r == t.(cos := r.cos, list := t.list + ids)
    && (forall id :: id in r.cos <==> id in t.cos || id in ids)
    && (forall id :: id in ids ==> id in cos && r.cos[id] == cos[id].(moved := false))
    && (forall id :: id in t.cos && id !in ids ==> r.cos[id] == t.cos[id])
  }

  lemma {:induction false} ResettleAllIs(t: Sched, cos: map<Id, Co>, ids: seq<Id>)
    requires NoDup(ids) && forall id :: id in ids ==> id in cos
    ensures Appended(t, cos, ids, ResettleAll(t, cos, ids))
  {
    if ids == [] {
      assert t.list + ids == t.list;
    } else {
      var front, last := ids[..|ids| - 1], ids[|ids| - 1];
      assert ids == front + [last] && last !in front;
      ResettleAllIs(t, cos, front);
      AppendOne(t, cos, front, ResettleAll(t, cos, front), last);
    }
  }

  lemma AppendOne(t: Sched, cos: map<Id, Co>, ids: seq<Id>, r: Sched, id: Id)
    requires Appended(t, cos, ids, r) && id in cos && id !in ids
    ensures Appended(t, cos, ids + [id], Resettle(r, id, cos[id]))
  {
    assert t.list + ids + [id] == t.list + (ids + [id]);
  }

  lemma {:induction false} MovableNoDup(list: seq<Id>, running: Id)
    requires NoDup(list)
    ensures NoDup(Movable(list, running))
    ensures running in list ==> |Movable(list, running)| == |list| - 1
    ensures running !in list ==> Movable(list, running) == list
  {
    if list != [] {
      var front, last := list[..|list| - 1], list[|list| - 1];
      assert list == front + [last] && last !in front;
      MovableNoDup(front, running);
      assert running in list <==> running in front || running == last;
    }
  }

  /** One more node of the list: it is new, and it is movable unless it runs. */
  lemma MovableStep(list: seq<Id>, i: nat, running: Id)
    requires NoDup(list) && i < |list|
    ensures Movable(list[..i + 1], running) ==
            Movable(list[..i], running) + (if list[i] != running then [list[i]] else [])
    ensures list[i] !in Movable(list[..i], running) && NoDup(Movable(list[..i], running))
    ensures forall id :: id in Movable(list[..i], running) ==> id in list
  {
    assert list[..i + 1][..i] == list[..i];
    MovableNoDup(list[..i], running);
  }

  /** `r` is `s` without the chroutines `ids`. */
  ghost predicate Lacks(s: Sched, ids: seq<Id>, r: Sched) {
    && NoDup(r.list) && (forall id :: id in r.list <==> id in s.list && id !in ids)
    && (forall id :: id in r.cos <==> id in s.cos && id !in ids)
    && (forall id :: id in r.cos ==> r.cos[id] == s.cos[id])
    && (r.iter.Some? ==> r.iter.value in r.list)
    && r == s.(cos := r.cos, list := r.list, iter := r.iter, toFree := s.toFree + ids)
  }

  lemma {:induction false} RemoveAllIs(s: Sched, ids: seq<Id>)
    requires NoDup(s.list) && NoDup(ids) && (forall id :: id in s.cos <==> id in s.list)
             && (forall id :: id in ids ==> id in s.cos)
    requires s.iter.Some? ==> s.iter.value in s.list
    ensures Lacks(s, ids, RemoveAll(s, ids))
  {
    if ids == [] {
      assert s.toFree + ids == s.toFree;
    } else {
      var front, last := ids[..|ids| - 1], ids[|ids| - 1];
      assert ids == front + [last] && last !in front;
      RemoveAllIs(s, front);
      LacksOneMore(s, front, last, RemoveAll(s, front));
    }
  }

  lemma LacksOneMore(s: Sched, front: seq<Id>, last: Id, q: Sched)
    requires Lacks(s, front, q) && last in s.cos && last in s.list && last !in front
    ensures Lacks(s, front + [last], Remove(q, last))
  {
    WithoutFacts(q.list, last);
    assert s.toFree + front + [last] == s.toFree + (front + [last]);
    assert forall id :: id in front + [last] <==> id in front || id == last;
  }

  ghost predicate Disjoint(s: Sched, t: Sched) {
    s.cos.Keys !! t.cos.Keys
  }

  /** A blocked thread keeps its running chroutine and nothing else. */
  lemma SourceKeepsRunning(s: Sched)
    requires Inv(s)
    ensures Inv(Source(s))
    ensures Source(s).list == if s.running == INVALID then [] else [s.running]
    ensures s.running != INVALID ==> Source(s).cos == map[s.running := s.cos[s.running]]
  {
    var ids := Movable(s.list, s.running);
    MovableNoDup(s.list, s.running);
    RemoveAllIs(Flagged(s, ids), ids);
    RestOf(s, ids, Source(s));
  }

  lemma RestOf(s: Sched, ids: seq<Id>, r: Sched)
    requires Inv(s) && (forall x :: x in ids <==> x in s.list && x != s.running)
    requires Lacks(Flagged(s, ids), ids, r)
    ensures Inv(r) && r.list == if s.running == INVALID then [] else [s.running]
    ensures s.running != INVALID ==> r.cos == map[s.running := s.cos[s.running]]
  {
    assert forall i :: 0 <= i < |r.list| ==> r.list[i] in r.list;
    OnlyOne(r.list, s.running);
    if s.running != INVALID {
      assert s.running in s.list && s.running in r.list;
      forall id
        ensures id in r.cos <==> id == s.running
      {
        assert id in r.cos <==> id in s.cos && id !in ids;
      }
      assert r.cos.Keys == {s.running};
    }
  }

  lemma OnlyOne(list: seq<Id>, id: Id)
    requires NoDup(list) && forall i :: 0 <= i < |list| ==> list[i] == id
    ensures list == if id in list then [id] else []
  {
    assert list != [] ==> list[0] in list;
    if |list| > 1 {
      DistinctPair(list, 0, 1);
    }
  }

  lemma DistinctPair(list: seq<Id>, i: nat, j: nat)
    requires NoDup(list) && i < j < |list|
    ensures list[i] != list[j]
  {
  }

  lemma TargetIs(s: Sched, t: Sched)
    requires Inv(s)
    ensures NoDup(Movable(s.list, s.running))
    ensures Appended(t, s.cos, Movable(s.list, s.running), Target(s, t))
  {
    MovableNoDup(s.list, s.running);
    ResettleAllIs(t, s.cos, Movable(s.list, s.running));
  }

  /** The chroutines arrive behind those already there, in their order and with their records; the
      iterator of the receiving thread, and what it runs, stay. */
  lemma TargetAppends(s: Sched, t: Sched)
    requires Inv(s) && Inv(t) && Disjoint(s, t)
    ensures Target(s, t) == t.(cos := Target(s, t).cos, list := t.list + Movable(s.list, s.running))
    ensures forall id :: id in t.cos ==> id in Target(s, t).cos && Target(s, t).cos[id] == t.cos[id]
    ensures forall id :: id in s.cos && id != s.running ==> id in Target(s, t).cos && Target(s, t).cos[id] == s.cos[id]
  {
    TargetIs(s, t);
  }

  lemma TargetInv(s: Sched, t: Sched)
    requires Inv(s) && Inv(t) && Disjoint(s, t)
    ensures Inv(Target(s, t))
  {
    TargetIs(s, t);
    AppendedInv(s, t, Movable(s.list, s.running), Target(s, t));
  }

  lemma AppendedInv(s: Sched, t: Sched, ids: seq<Id>, r: Sched)
    requires Inv(s) && Inv(t) && Disjoint(s, t) && NoDup(ids) && Appended(t, s.cos, ids, r)
    requires s.running !in ids
    ensures Inv(r)
  {
    NoDupConcat(t.list, ids);
    assert forall id :: id in t.list + ids <==> id in t.list || id in ids;
  }

  lemma NoDupConcat(a: seq<Id>, b: seq<Id>)
    requires NoDup(a) && NoDup(b) && forall x :: x in a ==> x !in b
    ensures NoDup(a + b)
  {
    forall i, j | 0 <= i < j < |a + b| ensures (a + b)[i] != (a + b)[j] {
      if i < |a| <= j {
        assert a[i] in a && b[j - |a|] in b;
      }
    }
  }

  /** Migration loses and duplicates nobody: the two threads share the same ids as before, and are
      still disjoint. */
  lemma MigrationConserves(s: Sched, t: Sched)
    requires Inv(s) && Inv(t) && Disjoint(s, t)
    ensures forall id :: id in Source(s).cos || id in Target(s, t).cos <==> id in s.cos || id in t.cos
    ensures Disjoint(Source(s), Target(s, t))
  {
    TargetIs(s, t);
    SourceKeepsRunning(s);
    SplitIds(s, t, Source(s), Movable(s.list, s.running), Target(s, t));
  }

  lemma SplitIds(s: Sched, t: Sched, s': Sched, ids: seq<Id>, r: Sched)
    requires Inv(s) && Inv(t) && Inv(s') && Disjoint(s, t) && Appended(t, s.cos, ids, r)
    requires s'.list == if s.running == INVALID then [] else [s.running]
    requires forall x :: x in ids <==> x in s.list && x != s.running
    ensures forall id :: id in s'.cos || id in r.cos <==> id in s.cos || id in t.cos
    ensures Disjoint(s', r)
  {
    forall id | id in s'.cos
      ensures id !in r.cos
    {
      assert id in s'.list;
    }
  }
}
