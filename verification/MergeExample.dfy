/** A run of legal requests that ends in a merge the database refuses. */
module MergeExample {
  import opened Basics
  import opened AttributeDb
  import opened EnumMerge
  import opened EnumMergeLaws
  import opened AttributeRequests

  const COLOR := Attribute("color", ENUM, false, {3}, "", true)
  const GONE := EnumValue(1, Some(7), "gone", "", "", MANUAL, None, true)
  const RED := GONE.(name := "red")
  const ROT := GONE.(name := "rot")
  const ORPHAN := Alias(1, Some(7), 12, "red", "", true)

  function Tables(attributes: Attributes, values: Values, aliases: Aliases): Db
  {
    Db({3}, attributes, values, aliases, map[], map[], map[], map[])
  }

  function In7(r: Request, newId: Id): Event
  {
    Event(Some(7), r, Choices([], None, None, newId))
  }

  ghost predicate Leads(db: Db, e: Event, d: Db)
  {
    Allowed(db, e.scope, e.request, e.choices) && Exec(db, e.scope, e.request, e.choices) == Done(d, {3})
  }

  lemma LeadsOn(db: Db, e: Event, d: Db, rest: seq<Event>)
    requires Leads(db, e, d) && ValidRun(d, rest)
    ensures ValidRun(db, [e] + rest) && Run(db, [e] + rest) == Run(d, rest)
  {
    assert ([e] + rest)[1..] == rest;
  }

  const E1 := In7(CreateAttribute({3}, "color", "", ENUM, false, ""), 1)
  const E2 := In7(CreateValue(1, "gone", None, "", "", MANUAL), 12)
  const E3 := In7(CreateAlias(1, 12, "red", ""), 20)
  const E4 := In7(RemoveValue(1, 12), 0)
  const E5 := In7(CreateValue(1, "red", None, "", "", MANUAL), 10)
  const E6 := In7(CreateValue(1, "rot", None, "", "", MANUAL), 11)
  const MERGE := Event(Some(7), Merge(1, 10, 11), Choices([], None, Some(20), 21))

  const DB0 := Tables(map[], map[], map[])
  const DB1 := Tables(map[1 := COLOR], map[], map[])
  const DB2 := Tables(map[1 := COLOR], map[12 := GONE], map[])
  const DB3 := Tables(map[1 := COLOR], map[12 := GONE], map[20 := ORPHAN])
  const DB4 := Tables(map[1 := COLOR], map[12 := GONE.(live := false)], map[20 := ORPHAN])
  const DB5 := Tables(map[1 := COLOR], map[12 := GONE.(live := false), 10 := RED], map[20 := ORPHAN])
  const DB6 := Tables(map[1 := COLOR], map[12 := GONE.(live := false), 10 := RED, 11 := ROT], map[20 := ORPHAN])

  lemma RotIsCreated() ensures Leads(DB5, E6, DB6) { }

  /** The removed value's alias still holds the name, live and orphaned. */
  lemma MergeIsRefused()
    ensures Allowed(DB6, MERGE.scope, MERGE.request, MERGE.choices)
    ensures Exec(DB6, MERGE.scope, MERGE.request, MERGE.choices) == Refused(UniqueIndexViolation)
  {
    var vs, als := DB6.values, DB6.aliases;
    assert SourceAliases(als, Some(7), 1, 10) == {};
    assert MoveAliases(als, Some(7), 1, 11, []) == als;
    assert AliasRow(als, Some(7), 1, "red", 20);
    assert NamedValues(Tombstone(vs, 10, 11), Some(7), 1, "red") == {};
    assert NamesOwned(vs, als, Some(7));
    assert !MovableAlias(als, Some(7), 1, 10, 20) && HoldsSlot(als[20], Some(7), 1, "red");
    MergeCommitsIff(DB6, Some(7), 1, 10, 11, MERGE.choices);
  }

  /** From the empty dictionary: create an attribute, a value and its alias,
      remove the value, create a value with the alias's name and another one,
      and merge the two. Every request is served but the last, which breaks the
      unique index. */
  lemma OrphanBlocksMerge()
    ensures var run := [E1, E2, E3, E4, E5, E6];
            && ValidRun(DB0, run) && Run(DB0, run) == DB6 && ValidRun(DB6, [MERGE])
            && Exec(DB6, MERGE.scope, MERGE.request, MERGE.choices) == Refused(UniqueIndexViolation)
  {
    RotIsCreated();
    LeadsOn(DB5, E6, DB6, []);
    LeadsOn(DB4, E5, DB5, [E6]);
    LeadsOn(DB3, E4, DB4, [E5, E6]);
    LeadsOn(DB2, E3, DB3, [E4, E5, E6]);
    LeadsOn(DB1, E2, DB2, [E3, E4, E5, E6]);
    LeadsOn(DB0, E1, DB1, [E2, E3, E4, E5, E6]);
    assert [E1, E2, E3, E4, E5, E6] == [E1] + [E2, E3, E4, E5, E6];
    MergeIsRefused();
  }
}
