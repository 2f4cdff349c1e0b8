/** The restriction table as a value: the default template every new school gets,
    the per-school listing, the "first row" lookup of the bulk update, and the
    bulk update itself, with an independent description of its result. */
module Policy {
  import opened Records

  /** One entry of the default template. */
  datatype AppDefault = AppDefault(appName: string, packageName: string, isAllowed: bool)

  /** The seven apps every school starts with, in insertion order: three allowed,
      four blocked. */
  const DefaultApps: seq<AppDefault> := [
    AppDefault("Google Classroom", "com.google.android.apps.classroom", true),
    AppDefault("Notes", "com.google.android.keep", true),
    AppDefault("Calculator", "com.android.calculator2", true),
    AppDefault("WhatsApp", "com.whatsapp", false),
    AppDefault("Instagram", "com.instagram.android", false),
    AppDefault("YouTube", "com.google.android.youtube", false),
    AppDefault("Games", "com.android.games", false)
  ]

  /** The row the bootstrap loop builds from one template entry. */
  function DefaultRow(schoolId: int, app: AppDefault): (row: Restriction)
  {
    Restriction(schoolId, app.appName, Some(app.packageName), app.isAllowed)
  }

  /** The rows a bootstrap appends for `schoolId`: seven, all of that school, the
      first three allowed and the rest blocked, no app name twice. */
  function DefaultRestrictions(schoolId: int): (r: seq<Restriction>)
    ensures |r| == 7
    ensures forall i :: 0 <= i < |r| ==> r[i].schoolId == schoolId && r[i].packageName.Some?
    ensures forall i :: 0 <= i < |r| ==> (r[i].isAllowed <==> i < 3)
    ensures forall i, j :: 0 <= i < j < |r| ==> r[i].appName != r[j].appName
  {
    seq(|DefaultApps|, i requires 0 <= i < |DefaultApps| => DefaultRow(schoolId, DefaultApps[i]))
  }

  /** The seven rows written out. */
  lemma DefaultRestrictionsListed(schoolId: int)
    ensures DefaultRestrictions(schoolId) == [
      Restriction(schoolId, "Google Classroom", Some("com.google.android.apps.classroom"), true),
      Restriction(schoolId, "Notes", Some("com.google.android.keep"), true),
      Restriction(schoolId, "Calculator", Some("com.android.calculator2"), true),
      Restriction(schoolId, "WhatsApp", Some("com.whatsapp"), false),
      Restriction(schoolId, "Instagram", Some("com.instagram.android"), false),
      Restriction(schoolId, "YouTube", Some("com.google.android.youtube"), false),
      Restriction(schoolId, "Games", Some("com.android.games"), false)
    ]
  {
  }

  /** The rows of one school, in table order (the restriction listing). */
  function RowsFor(rows: seq<Restriction>, schoolId: int): (r: seq<Restriction>)
    ensures |r| <= |rows|
    ensures forall x :: x in r <==> x in rows && x.schoolId == schoolId
  {
    if rows == [] then []
    else if rows[0].schoolId == schoolId then [rows[0]] + RowsFor(rows[1..], schoolId)
    else RowsFor(rows[1..], schoolId)
  }

  lemma {:induction false} RowsForAppend(a: seq<Restriction>, b: seq<Restriction>, schoolId: int)
    ensures RowsFor(a + b, schoolId) == RowsFor(a, schoolId) + RowsFor(b, schoolId)
  {
    if a == [] {
      assert a + b == b;
    } else {
      assert (a + b)[1..] == a[1..] + b;
      RowsForAppend(a[1..], b, schoolId);
    }
  }

  lemma {:induction false} RowsForAllOf(rows: seq<Restriction>, schoolId: int)
    requires forall k :: 0 <= k < |rows| ==> rows[k].schoolId == schoolId
    ensures RowsFor(rows, schoolId) == rows
  {
    if rows != [] {
      RowsForAllOf(rows[1..], schoolId);
    }
  }

  lemma {:induction false} RowsForNoneOf(rows: seq<Restriction>, schoolId: int)
    requires forall k :: 0 <= k < |rows| ==> rows[k].schoolId != schoolId
    ensures RowsFor(rows, schoolId) == []
  {
    if rows != [] {
      RowsForNoneOf(rows[1..], schoolId);
    }
  }

  /** Bootstrap adds exactly the seven template rows to the listing of its own
      school, after whatever that school already had, and leaves every other
      school's listing as it was. */
  lemma BootstrapListing(rows: seq<Restriction>, schoolId: int, other: int)
    requires other != schoolId
    ensures RowsFor(rows + DefaultRestrictions(schoolId), schoolId) ==
            RowsFor(rows, schoolId) + DefaultRestrictions(schoolId)
    ensures RowsFor(rows + DefaultRestrictions(schoolId), other) == RowsFor(rows, other)
  {
    var d := DefaultRestrictions(schoolId);
    RowsForAppend(rows, d, schoolId);
    RowsForAllOf(d, schoolId);
    RowsForAppend(rows, d, other);
    RowsForNoneOf(d, other);
  }

  /** Bootstrapping the same school twice does not deduplicate: the school's
      listing ends with the template twice over. */
  lemma BootstrapTwiceDuplicates(rows: seq<Restriction>, schoolId: int)
    ensures RowsFor(rows + DefaultRestrictions(schoolId) + DefaultRestrictions(schoolId), schoolId) ==
            RowsFor(rows, schoolId) + DefaultRestrictions(schoolId) + DefaultRestrictions(schoolId)
  {
    var d := DefaultRestrictions(schoolId);
    RowsForAppend(rows + d, d, schoolId);
    RowsForAppend(rows, d, schoolId);
    RowsForAllOf(d, schoolId);
  }

  // ---------------------------------------------------------------------------
  // The bulk update.

  /** One element of the update batch; `None` is a key the element lacks. */
  datatype UpdateItem = UpdateItem(appName: Option<string>, isAllowed: Option<bool>)

  predicate Names(row: Restriction, schoolId: int, appName: string)
  {
    row.schoolId == schoolId && row.appName == appName
  }

  /** The row the update's query returns: the first, in table order, of the
      school with exactly that app name, if there is one. */
  function FirstMatch(rows: seq<Restriction>, schoolId: int, appName: string): (r: Option<nat>)
    ensures r.Some? ==> r.value < |rows| && Names(rows[r.value], schoolId, appName)
    ensures r.Some? ==> forall j :: 0 <= j < r.value ==> !Names(rows[j], schoolId, appName)
    ensures r.None? <==> forall j :: 0 <= j < |rows| ==> !Names(rows[j], schoolId, appName)
  {
    if rows == [] then None
    else if Names(rows[0], schoolId, appName) then Some(0)
    else match FirstMatch(rows[1..], schoolId, appName)
      case None => None
      case Some(k) => Some(k + 1)
  }

  /** The lookup reads only the identity of the rows, never their flags. */
  lemma {:induction false} FirstMatchIgnoresFlags(a: seq<Restriction>, b: seq<Restriction>, schoolId: int, appName: string)
    requires SameKeys(a, b)
    ensures FirstMatch(a, schoolId, appName) == FirstMatch(b, schoolId, appName)
  {
    if a != [] {
      assert SameIdentity(a[0], b[0]);
      FirstMatchIgnoresFlags(a[1..], b[1..], schoolId, appName);
    }
  }

  /** An item that breaks the request: it has no app name, or it names an app
      that is found but has no flag to set. */
  predicate Faulty(rows: seq<Restriction>, schoolId: int, item: UpdateItem)
  {
    item.appName.None? ||
    (FirstMatch(rows, schoolId, item.appName.value).Some? && item.isAllowed.None?)
  }

  /** One pass of the update loop: it fails exactly on a faulty item, and
      otherwise changes at most the flag of the row the lookup finds. */
  function ApplyItem(rows: seq<Restriction>, schoolId: int, item: UpdateItem): (r: Result<seq<Restriction>>)
    ensures r.Err? <==> Faulty(rows, schoolId, item)
    ensures r.Ok? ==> SameKeys(r.value, rows)
    ensures r.Ok? && item.appName.Some? ==>
      forall j :: 0 <= j < |rows| && FirstMatch(rows, schoolId, item.appName.value) != Some(j) ==>
        r.value[j] == rows[j]
    ensures r.Ok? && item.appName.Some? && FirstMatch(rows, schoolId, item.appName.value).Some? ==>
      r.value[FirstMatch(rows, schoolId, item.appName.value).value].isAllowed == item.isAllowed.value
  {
    match item.appName
    case None => Err(MissingKey("app_name"))
    case Some(appName) =>
      match FirstMatch(rows, schoolId, appName)
      case None => Ok(rows)
      case Some(k) =>
        match item.isAllowed
        case None => Err(MissingKey("is_allowed"))
        case Some(allowed) => Ok(rows[k := rows[k].(isAllowed := allowed)])
  }

  /** The update loop run over the whole batch, in order; the first error ends
      it. A batch that goes through keeps every row in its place and changes
      nothing but flags. */
  function ApplyItems(rows: seq<Restriction>, schoolId: int, items: seq<UpdateItem>): (r: Result<seq<Restriction>>)
    ensures r.Ok? ==> SameKeys(r.value, rows)
    decreases |items|
  {
    if items == [] then Ok(rows)
    else
      match ApplyItems(rows, schoolId, items[..|items| - 1])
      case Err(e) => Err(e)
      case Ok(r) => ApplyItem(r, schoolId, items[|items| - 1])
  }

  /** The flag the last item naming `appName` carries (`None`: no item names it,
      or the last one that does has no flag). */
  function LastSetting(items: seq<UpdateItem>, appName: string): (allowed: Option<bool>)
    decreases |items|
  {
    if items == [] then None
    else if items[|items| - 1].appName == Some(appName) then items[|items| - 1].isAllowed
    else LastSetting(items[..|items| - 1], appName)
  }

  /** Row `k` after a successful update, described on its own rather than step by
      step: it changes only if it is the first row of its school and name and
      some item names it, and then it takes the flag of the last such item. */
  function ExpectedRow(rows: seq<Restriction>, schoolId: int, items: seq<UpdateItem>, k: nat): (row: Restriction)
    requires k < |rows|
  {
    match LastSetting(items, rows[k].appName)
    case Some(allowed) =>
      if FirstMatch(rows, schoolId, rows[k].appName) == Some(k) then rows[k].(isAllowed := allowed) else rows[k]
    case None => rows[k]
  }

  /** The whole table after a successful update, row by row. */
  function Expected(rows: seq<Restriction>, schoolId: int, items: seq<UpdateItem>): (r: seq<Restriction>)
    ensures SameKeys(r, rows)
  {
    seq(|rows|, k requires 0 <= k < |rows| => ExpectedRow(rows, schoolId, items, k))
  }

  /** How one more item changes the description of one row. */
  lemma ExpectedRowStep(rows: seq<Restriction>, schoolId: int, items: seq<UpdateItem>, k: nat)
    requires items != [] && k < |rows|
    requires items[|items| - 1].appName.Some?
    ensures var pre, item := items[..|items| - 1], items[|items| - 1];
      && (rows[k].appName != item.appName.value ==>
            ExpectedRow(rows, schoolId, items, k) == ExpectedRow(rows, schoolId, pre, k))
      && (rows[k].appName == item.appName.value && FirstMatch(rows, schoolId, rows[k].appName) != Some(k) ==>
            ExpectedRow(rows, schoolId, items, k) == rows[k] == ExpectedRow(rows, schoolId, pre, k))
      && (rows[k].appName == item.appName.value && FirstMatch(rows, schoolId, rows[k].appName) == Some(k) &&
          item.isAllowed.Some? ==>
            ExpectedRow(rows, schoolId, items, k) == rows[k].(isAllowed := item.isAllowed.value))
  {
  }

  /** One more item, applied to the description of the batch before it, gives
      the description of the longer batch. */
  lemma ExpectedStep(rows: seq<Restriction>, schoolId: int, items: seq<UpdateItem>)
    requires items != []
    requires ApplyItem(Expected(rows, schoolId, items[..|items| - 1]), schoolId, items[|items| - 1]).Ok?
    ensures ApplyItem(Expected(rows, schoolId, items[..|items| - 1]), schoolId, items[|items| - 1]).value ==
            Expected(rows, schoolId, items)
  {
    var pre, item := items[..|items| - 1], items[|items| - 1];
    var e := Expected(rows, schoolId, pre);
    var appName := item.appName.value;
    FirstMatchIgnoresFlags(e, rows, schoolId, appName);
    var r := ApplyItem(e, schoolId, item).value;
    var x := Expected(rows, schoolId, items);
    forall k | 0 <= k < |r|
      ensures r[k] == x[k]
    {
      ExpectedRowStep(rows, schoolId, items, k);
      assert SameIdentity(e[k], rows[k]);
    }
  }

  /** The step-by-step update and the row-by-row description agree. */
  lemma {:induction false} ApplyItemsMeaning(rows: seq<Restriction>, schoolId: int, items: seq<UpdateItem>)
    requires ApplyItems(rows, schoolId, items).Ok?
    ensures ApplyItems(rows, schoolId, items).value == Expected(rows, schoolId, items)
  {
    if items == [] {
      assert forall k :: 0 <= k < |rows| ==> ExpectedRow(rows, schoolId, items, k) == rows[k];
    } else {
      ApplyItemsMeaning(rows, schoolId, items[..|items| - 1]);
      ExpectedStep(rows, schoolId, items);
    }
  }

  /** An item breaks the request on a table exactly when it breaks it on any
      table with the same rows up to their flags. */
  lemma FaultyIgnoresFlags(a: seq<Restriction>, b: seq<Restriction>, schoolId: int, item: UpdateItem)
    requires SameKeys(a, b)
    ensures Faulty(a, schoolId, item) == Faulty(b, schoolId, item)
    ensures ApplyItem(a, schoolId, item).Err? == Faulty(a, schoolId, item)
  {
    if item.appName.Some? {
      FirstMatchIgnoresFlags(a, b, schoolId, item.appName.value);
    }
  }

  /** The update fails exactly when some item of the batch is faulty. */
  lemma {:induction false} ApplyItemsFailsIff(rows: seq<Restriction>, schoolId: int, items: seq<UpdateItem>)
    ensures ApplyItems(rows, schoolId, items).Err? <==>
            exists i :: 0 <= i < |items| && Faulty(rows, schoolId, items[i])
  {
    if items != [] {
      var pre, item := items[..|items| - 1], items[|items| - 1];
      ApplyItemsFailsIff(rows, schoolId, pre);
      assert forall i :: 0 <= i < |pre| ==> items[i] == pre[i];
      match ApplyItems(rows, schoolId, pre)
      case Ok(e) =>
        FaultyIgnoresFlags(e, rows, schoolId, item);
        assert ApplyItems(rows, schoolId, items) == ApplyItem(e, schoolId, item);
        if Faulty(rows, schoolId, item) {
          assert Faulty(rows, schoolId, items[|items| - 1]);
        }
      case Err(_) =>
        var i :| 0 <= i < |pre| && Faulty(rows, schoolId, pre[i]);
        assert Faulty(rows, schoolId, items[i]);
    }
  }

  /** A successful update changes only flags, and only on the first row of the
      school for each name: no row is added, removed or moved, no other school's
      row and no later duplicate is touched. */
  lemma UpdateFrame(rows: seq<Restriction>, schoolId: int, items: seq<UpdateItem>)
    requires ApplyItems(rows, schoolId, items).Ok?
    ensures SameKeys(ApplyItems(rows, schoolId, items).value, rows)
    ensures forall k :: 0 <= k < |rows| && rows[k].schoolId != schoolId ==>
              ApplyItems(rows, schoolId, items).value[k] == rows[k]
    ensures forall k :: 0 <= k < |rows| && FirstMatch(rows, schoolId, rows[k].appName) != Some(k) ==>
              ApplyItems(rows, schoolId, items).value[k] == rows[k]
  {
    ApplyItemsMeaning(rows, schoolId, items);
  }

  /** When the table holds the same app twice for a school (a double bootstrap),
      the update only ever reaches the first copy. */
  lemma UpdateReachesFirstDuplicate(rows: seq<Restriction>, schoolId: int, items: seq<UpdateItem>, i: nat, j: nat)
    requires i < j < |rows| && rows[i].schoolId == schoolId == rows[j].schoolId
    requires rows[i].appName == rows[j].appName
    requires ApplyItems(rows, schoolId, items).Ok?
    ensures ApplyItems(rows, schoolId, items).value[j] == rows[j]
  {
    assert Names(rows[i], schoolId, rows[j].appName);
    UpdateFrame(rows, schoolId, items);
  }

  /** An item whose name matches no row of the school changes nothing and is no
      error, whatever it carries as a flag. */
  lemma UnmatchedItemIsSkipped(rows: seq<Restriction>, schoolId: int, items: seq<UpdateItem>, item: UpdateItem)
    requires item.appName.Some? && FirstMatch(rows, schoolId, item.appName.value).None?
    ensures ApplyItems(rows, schoolId, items + [item]) == ApplyItems(rows, schoolId, items)
  {
    var all := items + [item];
    assert all[..|all| - 1] == items;
    if ApplyItems(rows, schoolId, items).Ok? {
      ApplyItemsMeaning(rows, schoolId, items);
      FirstMatchIgnoresFlags(Expected(rows, schoolId, items), rows, schoolId, item.appName.value);
    }
  }

  /** A batch none of whose names matches leaves the table as it was. */
  lemma {:induction false} UnmatchedBatchIsNoOp(rows: seq<Restriction>, schoolId: int, items: seq<UpdateItem>)
    requires forall i :: 0 <= i < |items| ==>
      items[i].appName.Some? && FirstMatch(rows, schoolId, items[i].appName.value).None?
    ensures ApplyItems(rows, schoolId, items) == Ok(rows)
  {
    if items != [] {
      var pre := items[..|items| - 1];
      assert forall i :: 0 <= i < |pre| ==> pre[i] == items[i];
      UnmatchedBatchIsNoOp(rows, schoolId, pre);
      UnmatchedItemIsSkipped(rows, schoolId, pre, items[|items| - 1]);
      assert pre + [items[|items| - 1]] == items;
    }
  }

  lemma {:induction false} LastSettingSkips(items: seq<UpdateItem>, rest: seq<UpdateItem>, appName: string)
    requires forall x :: x in rest ==> x.appName != Some(appName)
    ensures LastSetting(items + rest, appName) == LastSetting(items, appName)
  {
    if rest == [] {
      assert items + rest == items;
    } else {
      var all := items + rest;
      var shorter := rest[..|rest| - 1];
      assert all[|all| - 1] == rest[|rest| - 1];
      assert all[|all| - 1].appName != Some(appName);
      assert all[..|all| - 1] == items + shorter;
      assert forall i :: 0 <= i < |shorter| ==> shorter[i] == rest[i];
      LastSettingSkips(items, shorter, appName);
    }
  }

  /** The batch is processed in order, so the last item naming a matched app
      decides its flag. */
  lemma UpdateLastItemWins(rows: seq<Restriction>, schoolId: int, before: seq<UpdateItem>,
                           appName: string, allowed: bool, after: seq<UpdateItem>, k: nat)
    requires FirstMatch(rows, schoolId, appName) == Some(k)
    requires forall x :: x in after ==> x.appName != Some(appName)
    requires ApplyItems(rows, schoolId, before + [UpdateItem(Some(appName), Some(allowed))] + after).Ok?
    ensures ApplyItems(rows, schoolId, before + [UpdateItem(Some(appName), Some(allowed))] + after).value[k].isAllowed == allowed
  {
    var upTo := before + [UpdateItem(Some(appName), Some(allowed))];
    assert upTo[..|upTo| - 1] == before;
    assert LastSetting(upTo, appName) == Some(allowed);
    LastSettingSkips(upTo, after, appName);
    ApplyItemsMeaning(rows, schoolId, upTo + after);
    assert Expected(rows, schoolId, upTo + after)[k] == ExpectedRow(rows, schoolId, upTo + after, k);
  }

  /** A single matched item sets the flag of the first matching row and nothing else. */
  lemma UpdateHit(rows: seq<Restriction>, schoolId: int, appName: string, allowed: bool, k: nat)
    requires FirstMatch(rows, schoolId, appName) == Some(k)
    ensures ApplyItems(rows, schoolId, [UpdateItem(Some(appName), Some(allowed))]) ==
            Ok(rows[k := rows[k].(isAllowed := allowed)])
  {
    var items := [UpdateItem(Some(appName), Some(allowed))];
    assert items[..0] == [];
  }
}
