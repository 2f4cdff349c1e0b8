/** The two tables the request handlers change: schools and restrictions. A
    `SchoolRegistry` holds both, with the id counter the database uses for new
    schools; its methods are the handlers that write. */
module Registry {
  import opened Records
  import opened Policy

  class SchoolRegistry {
    var schools: map<int, School>
    var restrictions: seq<Restriction>
    var nextId: int

    /** Ids are handed out from 1 upwards and never reused, and every
        restriction row belongs to a school that exists. */
    ghost predicate Valid()
      reads this
    {
      && 1 <= nextId
      && (forall id :: id in schools ==> 1 <= id < nextId)
      && (forall r :: r in restrictions ==> r.schoolId in schools)
    }

    constructor ()
      ensures Valid()
      ensures schools == map[] && restrictions == [] && nextId == 1
    {
      schools := map[];
      restrictions := [];
      nextId := 1;
    }

    /** Appends the default template for `schoolId`, one row per template
        entry, in template order. Nothing is looked up and nothing is
        deduplicated. */
    method Bootstrap(schoolId: int)
      requires Valid() && schoolId in schools
      modifies this`restrictions
      ensures Valid()
      ensures restrictions == old(restrictions) + DefaultRestrictions(schoolId)
    {
      var i := 0;
      while i < |DefaultApps|
        invariant 0 <= i <= |DefaultApps|
        invariant restrictions == old(restrictions) + DefaultRestrictions(schoolId)[..i]
        invariant Valid()
      {
        restrictions := restrictions + [DefaultRow(schoolId, DefaultApps[i])];
        i := i + 1;
      }
      assert DefaultRestrictions(schoolId)[..i] == DefaultRestrictions(schoolId);
    }

    /** Creates a school under the next free id and gives it the default
        restrictions. A missing (or null) name fails the request before
        anything is stored. */
    method CreateSchool(name: Option<string>, address: Option<string>, latitude: Option<real>,
                        longitude: Option<real>, wifiSsid: Option<string>)
      returns (result: Result<int>)
      requires Valid()
      modifies this
      ensures Valid()
      ensures name.None? ==> result == Err(MissingKey("name"))
      ensures name.None? ==> schools == old(schools) && restrictions == old(restrictions) && nextId == old(nextId)
      ensures name.Some? ==> result == Ok(old(nextId)) && old(nextId) !in old(schools)
      ensures name.Some? ==> nextId == old(nextId) + 1
      ensures name.Some? ==>
        schools == old(schools)[old(nextId) := School(name.value, address, latitude, longitude, wifiSsid)]
      ensures name.Some? ==> restrictions == old(restrictions) + DefaultRestrictions(old(nextId))
      ensures name.Some? ==> RowsFor(restrictions, old(nextId)) == DefaultRestrictions(old(nextId))
    {
      if name.None? {
        return Err(MissingKey("name"));
      }
      var id := nextId;
      assert id !in schools;
      forall r | r in restrictions
        ensures r.schoolId != id
      {
      }
      schools := schools[id := School(name.value, address, latitude, longitude, wifiSsid)];
      nextId := nextId + 1;
      Bootstrap(id);
      NewSchoolListing(old(restrictions), id);
      result := Ok(id);
    }

    /** The bulk update handler. Items are processed in order; each looks up
        the first row of the school with that app name and, if there is one,
        sets its flag. An item without an app name, or a matched item without
        a flag, aborts the request and the transaction is rolled back. */
    method UpdateRestrictions(schoolId: int, items: seq<UpdateItem>) returns (outcome: Outcome)
      requires Valid()
      modifies this`restrictions
      ensures Valid()
      ensures outcome.Pass? <==> ApplyItems(old(restrictions), schoolId, items).Ok?
      ensures outcome.Pass? ==> restrictions == ApplyItems(old(restrictions), schoolId, items).value
      ensures outcome.Fail? ==> restrictions == old(restrictions) &&
                                outcome.error == ApplyItems(old(restrictions), schoolId, items).error
    {
      var saved := restrictions;
      var i := 0;
      while i < |items|
        invariant 0 <= i <= |items|
        invariant ApplyItems(saved, schoolId, items[..i]) == Ok(restrictions)
        invariant Valid()
      {
        assert items[..i + 1][..i] == items[..i];
        var item := items[i];
        if item.appName.None? {
          PrefixFailure(saved, schoolId, items, i + 1);
          restrictions := saved;
          return Fail(MissingKey("app_name"));
        }
        var found := FirstMatch(restrictions, schoolId, item.appName.value);
        if found.Some? {
          if item.isAllowed.None? {
            PrefixFailure(saved, schoolId, items, i + 1);
            restrictions := saved;
            return Fail(MissingKey("is_allowed"));
          }
          var k := found.value;
          SetFlagKeepsSchools(restrictions, k, item.isAllowed.value, schools);
          restrictions := restrictions[k := restrictions[k].(isAllowed := item.isAllowed.value)];
        }
        i := i + 1;
      }
      assert items[..i] == items;
      outcome := Pass;
    }
  }

  /** Setting a flag keeps every row's school. */
  lemma SetFlagKeepsSchools(rows: seq<Restriction>, k: nat, allowed: bool, schools: map<int, School>)
    requires k < |rows|
    requires forall r :: r in rows ==> r.schoolId in schools
    ensures forall r :: r in rows[k := rows[k].(isAllowed := allowed)] ==> r.schoolId in schools
  {
    var updated := rows[k := rows[k].(isAllowed := allowed)];
    forall r | r in updated
      ensures r.schoolId in schools
    {
      var j :| 0 <= j < |updated| && updated[j] == r;
      assert rows[j] in rows;
    }
  }

  /** Once a prefix of the batch fails, the whole batch fails with the same error. */
  lemma {:induction false} PrefixFailure(rows: seq<Restriction>, schoolId: int, items: seq<UpdateItem>, n: nat)
    requires n <= |items|
    requires ApplyItems(rows, schoolId, items[..n]).Err?
    ensures ApplyItems(rows, schoolId, items) == ApplyItems(rows, schoolId, items[..n])
    decreases |items| - n
  {
    if n < |items| {
      assert items[..n + 1][..n] == items[..n];
      PrefixFailure(rows, schoolId, items, n + 1);
    } else {
      assert items[..n] == items;
    }
  }

  /** A school whose id no row carries yet has, after its bootstrap, exactly the
      seven default rows. */
  lemma NewSchoolListing(rows: seq<Restriction>, schoolId: int)
    requires forall r :: r in rows ==> r.schoolId != schoolId
    ensures RowsFor(rows + DefaultRestrictions(schoolId), schoolId) == DefaultRestrictions(schoolId)
  {
    BootstrapListing(rows, schoolId, schoolId + 1);
    assert forall k :: 0 <= k < |rows| ==> rows[k] in rows;
    RowsForNoneOf(rows, schoolId);
  }
}
