/** The list semantics a `Table<T>` relies on: `List<T>.Add`, `List<T>.Remove`
    (first occurrence only), the per-element guard of the weakly typed
    `ITable` path, and the effect of the bulk operations, which stop at the
    first element that throws. */
module EntityLists {
  import opened Wrappers
  import opened Records

  /** Index of the first occurrence of `x` (`List<T>.IndexOf`). */
  function IndexOf(s: seq<Entity>, x: Entity): (i: nat)
    requires x in s
    ensures i < |s| && s[i] == x && x !in s[..i]
  {
    if s[0] == x then 0
    else
      var j := IndexOf(s[1..], x);
      assert s[..j + 1] == [s[0]] + s[1..][..j];
      j + 1
  }

  /** `List<T>.Remove`: drops the first element equal to `x`; the list is
      unchanged when there is none. */
  function RemoveFirst(s: seq<Entity>, x: Entity): (r: seq<Entity>)
    ensures |r| == if x in s then |s| - 1 else |s|
  {
    if s == [] then []
    else if s[0] == x then s[1..]
    else [s[0]] + RemoveFirst(s[1..], x)
  }

  /** Removing an absent record changes nothing (and raises nothing). */
  lemma {:induction false} RemoveFirstAbsent(s: seq<Entity>, x: Entity)
    requires x !in s
    ensures RemoveFirst(s, x) == s
  {
    if s != [] {
      RemoveFirstAbsent(s[1..], x);
    }
  }

  /** Removing a present record cuts out exactly its first occurrence. */
  lemma {:induction false} RemoveFirstAt(s: seq<Entity>, x: Entity)
    requires x in s
    ensures var i := IndexOf(s, x); RemoveFirst(s, x) == s[..i] + s[i + 1..]
  {
    if s[0] != x {
      RemoveFirstAt(s[1..], x);
      var j := IndexOf(s[1..], x);
      assert IndexOf(s, x) == j + 1;
      assert s[..j + 1] == [s[0]] + s[1..][..j];
      assert s[j + 2..] == s[1..][j + 1..];
    }
  }

  /** As a bag, removal takes away one copy of `x` if there is one. */
  lemma {:induction false} RemoveFirstMultiset(s: seq<Entity>, x: Entity)
    ensures multiset(RemoveFirst(s, x)) == multiset(s) - multiset{x}
  {
    if s == [] {
    } else if s[0] == x {
      assert s == [s[0]] + s[1..];
    } else {
      RemoveFirstMultiset(s[1..], x);
      assert s == [s[0]] + s[1..];
    }
  }

  /** Removal skips a prefix that does not hold the record. */
  lemma {:induction false} RemoveFirstAfter(s: seq<Entity>, t: seq<Entity>, x: Entity)
    requires x !in s
    ensures RemoveFirst(s + t, x) == s + RemoveFirst(t, x)
  {
    if s == [] {
      assert s + t == t;
    } else {
      assert (s + t)[0] == s[0] && (s + t)[1..] == s[1..] + t;
      RemoveFirstAfter(s[1..], t, x);
      assert s + RemoveFirst(t, x) == [s[0]] + (s[1..] + RemoveFirst(t, x));
    }
  }

  /** Insert followed by delete of the same record: the appended copy is the
      one removed only when there was no earlier copy. */
  lemma {:induction false} AppendThenRemove(s: seq<Entity>, x: Entity)
    ensures RemoveFirst(s + [x], x) == if x in s then RemoveFirst(s, x) + [x] else s
  {
    if s == [] {
      assert s + [x] == [x];
    } else {
      assert (s + [x])[0] == s[0] && (s + [x])[1..] == s[1..] + [x];
      if s[0] != x {
        AppendThenRemove(s[1..], x);
        assert s == [s[0]] + s[1..];
        assert x in s <==> x in s[1..];
      }
    }
  }

  /** Successive `List<T>.Remove` calls, one per listed record, in order. */
  function RemoveEach(s: seq<Entity>, ds: seq<Entity>): (r: seq<Entity>)
    ensures |s| - |ds| <= |r| <= |s|
  {
    if ds == [] then s
    else RemoveFirst(RemoveEach(s, ds[..|ds| - 1]), ds[|ds| - 1])
  }

  /** The first listed record is removed first. */
  lemma {:induction false} RemoveEachCons(s: seq<Entity>, x: Entity, ds: seq<Entity>)
    ensures RemoveEach(s, [x] + ds) == RemoveEach(RemoveFirst(s, x), ds)
  {
    if ds == [] {
      assert ([x] + ds)[..0] == [];
    } else {
      var n := |ds| - 1;
      assert ([x] + ds)[..|[x] + ds| - 1] == [x] + ds[..n];
      RemoveEachCons(s, x, ds[..n]);
    }
  }

  /** As a bag, bulk deletion is multiset difference: each listing removes
      at most one copy, and absent records are ignored. */
  lemma {:induction false} RemoveEachMultiset(s: seq<Entity>, ds: seq<Entity>)
    ensures multiset(RemoveEach(s, ds)) == multiset(s) - multiset(ds)
  {
    if ds != [] {
      var n := |ds| - 1;
      assert ds == ds[..n] + [ds[n]];
      assert multiset(ds) == multiset(ds[..n]) + multiset{ds[n]};
      RemoveEachMultiset(s, ds[..n]);
      RemoveFirstMultiset(RemoveEach(s, ds[..n]), ds[n]);
      MultisetDifferenceTwice(multiset(s), multiset(ds[..n]), multiset{ds[n]});
    }
  }

  /** Taking away `b` and then `c` is taking away `b + c`. */
  lemma MultisetDifferenceTwice(a: multiset<Entity>, b: multiset<Entity>, c: multiset<Entity>)
    ensures a - b - c == a - (b + c)
  {
    forall y
      ensures (a - b - c)[y] == (a - (b + c))[y]
    {
    }
  }

  /** Deleting the very records that were appended, when none of them was
      in the table before, restores the table. */
  lemma {:induction false} RemoveEachAppended(s: seq<Entity>, ds: seq<Entity>)
    requires forall i :: 0 <= i < |ds| ==> ds[i] !in s
    ensures RemoveEach(s + ds, ds) == s
  {
    if ds == [] {
      assert s + ds == s;
    } else {
      RemoveEachCons(s + ds, ds[0], ds[1..]);
      assert ds == [ds[0]] + ds[1..];
      RemoveFirstAfter(s, ds, ds[0]);
      assert RemoveFirst(ds, ds[0]) == ds[1..];
      RemoveEachAppended(s, ds[1..]);
    }
  }

  /** The check an `ITable` insert or delete applies to one object before it
      touches the list: `null` is an `ArgumentNullException`, an object that
      is not a `T` (the C# `as` test) an `InvalidOperationException`. */
  function Admit(e: Option<Entity>, t: RecordType): (r: Status)
    ensures r.Pass? <==> e.Some? && IsAssignableTo(e.value.recordType, t)
    ensures e.None? ==> r == Fail(ArgumentNull("entity"))
    ensures e.Some? && !IsAssignableTo(e.value.recordType, t) ==> r == Fail(WrongEntityType)
  {
    if e.None? then Fail(ArgumentNull("entity"))
    else if !IsAssignableTo(e.value.recordType, t) then Fail(WrongEntityType)
    else Pass
  }

  /** What a statically typed `TSubEntity` collection may hold: `null`s and
      instances of `t` or a subclass of it. */
  predicate AllAssignable(es: seq<Option<Entity>>, t: RecordType)
  {
    forall i :: 0 <= i < |es| && es[i].Some? ==> IsAssignableTo(es[i].value.recordType, t)
  }

  /** The position of the first element a bulk operation throws on, or
      `|es|` when it throws on none. */
  function FirstRejected(es: seq<Option<Entity>>, t: RecordType): (k: nat)
    ensures k <= |es|
    ensures forall i :: 0 <= i < k ==> Admit(es[i], t).Pass?
    ensures k < |es| ==> Admit(es[k], t).Fail?
  {
    if es == [] then 0
    else if Admit(es[0], t).Fail? then 0
    else 1 + FirstRejected(es[1..], t)
  }

  /** In a statically typed collection the only element that can throw is a
      `null` one. */
  lemma TypedRejectionIsNull(es: seq<Option<Entity>>, t: RecordType)
    requires AllAssignable(es, t)
    ensures var k := FirstRejected(es, t);
      (k < |es| ==> es[k].None? && Admit(es[k], t) == Fail(ArgumentNull("entity"))) &&
      (k == |es| <==> forall i :: 0 <= i < |es| ==> es[i].Some?)
  {
  }

  /** The records held by the first `n` elements, which are all non-null,
      in order. */
  function Values(es: seq<Option<Entity>>, n: nat): (r: seq<Entity>)
    requires n <= |es|
    requires forall j :: 0 <= j < n ==> es[j].Some?
    ensures |r| == n
    ensures forall j :: 0 <= j < n ==> r[j] == es[j].value
  {
    if n == 0 then [] else Values(es, n - 1) + [es[n - 1].value]
  }

  /** One more listed record is one more removal, applied last. */
  lemma RemoveEachSnoc(s: seq<Entity>, ds: seq<Entity>, x: Entity)
    ensures RemoveEach(s, ds + [x]) == RemoveFirst(RemoveEach(s, ds), x)
  {
    assert (ds + [x])[..|ds + [x]| - 1] == ds;
  }
}
