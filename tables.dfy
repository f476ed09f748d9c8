/** `Table<TEntity>`: a typed record collection whose backing list is `null`
    until the database initializes it. */
module Tables {
  import opened Wrappers
  import opened Records
  import opened EntityLists

  class Table {
    /** `TEntity`, fixed when the table is created. */
    const elementType: RecordType
    /** The `_entities` list; `None` while the table is uninitialized. */
    var entities: Option<seq<Entity>>

    /** The internal constructor: a new table has no backing list. */
    constructor (elementType: RecordType)
      ensures this.elementType == elementType
      ensures entities == None && !IsInitialized()
    {
      this.elementType := elementType;
      entities := None;
    }

    /** `IsInitialied`. */
    predicate IsInitialized()
      reads this
      ensures IsInitialized() <==> entities != None
    {
      entities.Some?
    }

    /** Sets the backing list; only the database calls it, in place of the
        reflective write of `_entities` in `InitializeTable`. */
    method Adopt(es: Option<seq<Entity>>)
      modifies this
      ensures entities == es
    {
      entities := es;
    }

    /** `CheckInitialied`: throws unless the backing list exists. */
    method CheckInitialized() returns (r: Status)
      ensures r.Pass? <==> IsInitialized()
      ensures r.Fail? ==> r.error == NotInitialized
    {
      r := if IsInitialized() then Pass else Fail(NotInitialized);
    }

    /** `InsertOnSubmit(TEntity)`: appends one record. */
    method InsertOnSubmit(e: Option<Entity>) returns (r: Status)
      requires e.Some? ==> IsAssignableTo(e.value.recordType, elementType)
      modifies this
      ensures e.None? ==> r == Fail(ArgumentNull("entity")) && entities == old(entities)
      ensures e.Some? && old(entities).None? ==> r == Fail(NotInitialized) && entities == None
      ensures e.Some? && old(entities).Some? ==>
        r == Pass && entities == Some(old(entities).value + [e.value])
      ensures old(IsInitialized()) ==> IsInitialized()
    {
      if e.None? {
        return Fail(ArgumentNull("entity"));
      }
      r := CheckInitialized();
      if r.Fail? {
        return;
      }
      entities := Some(entities.value + [e.value]);
    }

    /** `DeleteOnSubmit(TEntity)`: removes the first equal record, if any. */
    method DeleteOnSubmit(e: Option<Entity>) returns (r: Status)
      requires e.Some? ==> IsAssignableTo(e.value.recordType, elementType)
      modifies this
      ensures e.None? ==> r == Fail(ArgumentNull("entity")) && entities == old(entities)
      ensures e.Some? && old(entities).None? ==> r == Fail(NotInitialized) && entities == None
      ensures e.Some? && old(entities).Some? ==>
        r == Pass && entities == Some(RemoveFirst(old(entities).value, e.value))
      ensures old(IsInitialized()) ==> IsInitialized()
    {
      if e.None? {
        return Fail(ArgumentNull("entity"));
      }
      r := CheckInitialized();
      if r.Fail? {
        return;
      }
      entities := Some(RemoveFirst(entities.value, e.value));
    }

    /** `ITable.InsertOnSubmit(object)`: the type test comes before the
        initialization test, and neither touches the list. */
    method InsertObjectOnSubmit(e: Option<Entity>) returns (r: Status)
      modifies this
      ensures Admit(e, elementType).Fail? ==> r == Admit(e, elementType) && entities == old(entities)
      ensures Admit(e, elementType).Pass? && old(entities).None? ==>
        r == Fail(NotInitialized) && entities == None
      ensures Admit(e, elementType).Pass? && old(entities).Some? ==>
        r == Pass && entities == Some(old(entities).value + [e.value])
    {
      r := Admit(e, elementType);
      if r.Fail? {
        return;
      }
      r := InsertOnSubmit(e);
    }

    /** `ITable.DeleteOnSubmit(object)`. */
    method DeleteObjectOnSubmit(e: Option<Entity>) returns (r: Status)
      modifies this
      ensures Admit(e, elementType).Fail? ==> r == Admit(e, elementType) && entities == old(entities)
      ensures Admit(e, elementType).Pass? && old(entities).None? ==>
        r == Fail(NotInitialized) && entities == None
      ensures Admit(e, elementType).Pass? && old(entities).Some? ==>
        r == Pass && entities == Some(RemoveFirst(old(entities).value, e.value))
    {
      r := Admit(e, elementType);
      if r.Fail? {
        return;
      }
      r := DeleteOnSubmit(e);
    }

    /** `InsertAllOnSubmit<TSubEntity>`: a `null` collection or an
        uninitialized table throws before any change; otherwise the records
        are appended in order until the first `null` element, which throws
        with the earlier ones already appended. */
    method InsertAllOnSubmit(es: Option<seq<Option<Entity>>>) returns (r: Status)
      requires es.Some? ==> AllAssignable(es.value, elementType)
      modifies this
      ensures es.None? ==> r == Fail(ArgumentNull("entities")) && entities == old(entities)
      ensures es.Some? && old(entities).None? ==> r == Fail(NotInitialized) && entities == None
      ensures es.Some? && old(entities).Some? ==>
        var k := FirstRejected(es.value, elementType);
        entities == Some(old(entities).value + Values(es.value, k)) &&
        r == if k == |es.value| then Pass else Fail(ArgumentNull("entity"))
    {
      if es.None? {
        return Fail(ArgumentNull("entities"));
      }
      r := CheckInitialized();
      if r.Fail? {
        return;
      }
      var xs := es.value;
      ghost var s0, k := entities.value, FirstRejected(xs, elementType);
      assert s0 + [] == s0;
      var i := 0;
      while i < |xs|
        invariant i <= k
        invariant forall j :: 0 <= j < i ==> xs[j].Some?
        invariant entities == Some(s0 + Values(xs, i))
      {
        r := InsertOnSubmit(xs[i]);
        if r.Fail? {
          assert i == k && entities == Some(s0 + Values(xs, k));
          return;
        }
        assert xs[i].Some?;
        assert s0 + Values(xs, i + 1) == (s0 + Values(xs, i)) + [xs[i].value];
        i := i + 1;
      }
      assert i == k;
      r := Pass;
    }

    /** `DeleteAllOnSubmit<TSubEntity>`: `DeleteOnSubmit` for each element
        in order, stopping at the first `null` one. */
    method DeleteAllOnSubmit(es: Option<seq<Option<Entity>>>) returns (r: Status)
      requires es.Some? ==> AllAssignable(es.value, elementType)
      modifies this
      ensures es.None? ==> r == Fail(ArgumentNull("entities")) && entities == old(entities)
      ensures es.Some? && old(entities).None? ==> r == Fail(NotInitialized) && entities == None
      ensures es.Some? && old(entities).Some? ==>
        var k := FirstRejected(es.value, elementType);
        entities == Some(RemoveEach(old(entities).value, Values(es.value, k))) &&
        r == if k == |es.value| then Pass else Fail(ArgumentNull("entity"))
    {
      if es.None? {
        return Fail(ArgumentNull("entities"));
      }
      r := CheckInitialized();
      if r.Fail? {
        return;
      }
      var xs := es.value;
      ghost var s0, k := entities.value, FirstRejected(xs, elementType);
      var i := 0;
      while i < |xs|
        invariant i <= k
        invariant forall j :: 0 <= j < i ==> xs[j].Some?
        invariant entities == Some(RemoveEach(s0, Values(xs, i)))
      {
        r := DeleteOnSubmit(xs[i]);
        if r.Fail? {
          assert i == k && entities == Some(RemoveEach(s0, Values(xs, k)));
          return;
        }
        assert xs[i].Some?;
        RemoveEachSnoc(s0, Values(xs, i), xs[i].value);
        i := i + 1;
      }
      assert i == k;
      r := Pass;
    }

    /** `ITable.InsertAllOnSubmit(IEnumerable)`: as the typed version, each
        element going through the `ITable` type test, so the call also stops
        at the first object of the wrong type. */
    method InsertAllObjectsOnSubmit(es: Option<seq<Option<Entity>>>) returns (r: Status)
      modifies this
      ensures es.None? ==> r == Fail(ArgumentNull("entities")) && entities == old(entities)
      ensures es.Some? && old(entities).None? ==> r == Fail(NotInitialized) && entities == None
      ensures es.Some? && old(entities).Some? ==>
        var k := FirstRejected(es.value, elementType);
        entities == Some(old(entities).value + Values(es.value, k)) &&
        r == if k == |es.value| then Pass else Admit(es.value[k], elementType)
    {
      if es.None? {
        return Fail(ArgumentNull("entities"));
      }
      r := CheckInitialized();
      if r.Fail? {
        return;
      }
      var xs := es.value;
      ghost var s0, k := entities.value, FirstRejected(xs, elementType);
      assert s0 + [] == s0;
      var i := 0;
      while i < |xs|
        invariant i <= k
        invariant forall j :: 0 <= j < i ==> xs[j].Some?
        invariant entities == Some(s0 + Values(xs, i))
      {
        r := InsertObjectOnSubmit(xs[i]);
        if r.Fail? {
          assert i == k && entities == Some(s0 + Values(xs, k));
          return;
        }
        assert Admit(xs[i], elementType).Pass? && xs[i].Some?;
        assert s0 + Values(xs, i + 1) == (s0 + Values(xs, i)) + [xs[i].value];
        i := i + 1;
      }
      assert i == k;
      r := Pass;
    }

    /** `ITable.DeleteAllOnSubmit(IEnumerable)`. */
    method DeleteAllObjectsOnSubmit(es: Option<seq<Option<Entity>>>) returns (r: Status)
      modifies this
      ensures es.None? ==> r == Fail(ArgumentNull("entities")) && entities == old(entities)
      ensures es.Some? && old(entities).None? ==> r == Fail(NotInitialized) && entities == None
      ensures es.Some? && old(entities).Some? ==>
        var k := FirstRejected(es.value, elementType);
        entities == Some(RemoveEach(old(entities).value, Values(es.value, k))) &&
        r == if k == |es.value| then Pass else Admit(es.value[k], elementType)
    {
      if es.None? {
        return Fail(ArgumentNull("entities"));
      }
      r := CheckInitialized();
      if r.Fail? {
        return;
      }
      var xs := es.value;
      ghost var s0, k := entities.value, FirstRejected(xs, elementType);
      var i := 0;
      while i < |xs|
        invariant i <= k
        invariant forall j :: 0 <= j < i ==> xs[j].Some?
        invariant entities == Some(RemoveEach(s0, Values(xs, i)))
      {
        r := DeleteObjectOnSubmit(xs[i]);
        if r.Fail? {
          assert i == k && entities == Some(RemoveEach(s0, Values(xs, k)));
          return;
        }
        assert Admit(xs[i], elementType).Pass? && xs[i].Some?;
        RemoveEachSnoc(s0, Values(xs, i), xs[i].value);
        i := i + 1;
      }
      assert i == k;
      r := Pass;
    }

    /** `GetEnumerator`: throws on an uninitialized table, otherwise yields
        the records in stored order. */
    method GetEnumerator() returns (r: Result<seq<Entity>, Error>)
      ensures r.Err? <==> !IsInitialized()
      ensures r.Err? ==> r.error == NotInitialized
      ensures r.Ok? ==> r.value == entities.value
    {
      var c := CheckInitialized();
      if c.Fail? {
        return Err(c.error);
      }
      r := Ok(entities.value);
    }
  }
}
