# SchoolsGate decision core, in Dafny

SchoolsGate is a small Flask service that lets a school restrict which apps its
students' phones may run while they are on campus. This project models the part
of `app.py` that takes decisions:

- **Default policy bootstrap.** Creating a school appends seven restriction rows
  for it: Google Classroom, Notes and Calculator allowed; WhatsApp, Instagram,
  YouTube and Games blocked (`Policy.DefaultApps`, `Registry.SchoolRegistry.Bootstrap`,
  `Registry.SchoolRegistry.CreateSchool`).
- **Bulk policy update.** A batch of `(app_name, is_allowed)` items is applied in
  order. Each item finds the first row of the school with exactly that app name
  and overwrites its flag. Items that find nothing are skipped. A missing key
  aborts the request and nothing is committed (`Policy.ApplyItems` as the
  specification, `Registry.SchoolRegistry.UpdateRestrictions` as the loop).
- **Location check.** A pure decision (`Presence.OnCampus`, `Presence.VerifyLocation`).
  An unknown school is an error. The 0.01-degree bounding box is tried first, and
  only when all four coordinates are truthy. Then comes an exact,
  case-sensitive Wi-Fi name match against a non-empty school SSID.

Files:

- `records.dfy` (module `Records`) holds the row shapes of `School` and
  `Restriction`, `Option`, `Result`, `Outcome` and the error kinds.
- `presence.dfy` (module `Presence`) holds the location check and its lemmas.
- `policy.dfy` (module `Policy`) holds the restriction table as a value: the
  default template, the per-school listing, the first-match lookup and the update
  specification. It also holds a row-by-row reference description of the update
  (`Expected`) and the lemmas connecting the two.
- `registry.dfy` (module `Registry`) holds the class `SchoolRegistry`. It owns
  the school map, the restriction table and the id counter, and its methods
  change them in place.

Modelling choices:

- The restriction table is a `seq<Restriction>` in insertion order. The update
  query has no `order_by`, and "first" is read as first in table order.
- A request field that is absent is `None`. For coordinates, `Some(0.0)` is
  treated like `None`, as Python truthiness does. For SSIDs, `Some("")` is
  treated like `None`.
- A `KeyError` in the update loop ends the request before `commit`. The
  request's session is then discarded, so the method restores the table it
  started from and returns `Fail(MissingKey(..))`. The loop reads `is_allowed`
  only for an item whose row was found. An unmatched item without `is_allowed`
  is therefore skipped silently. A matched one aborts the request.
- Coordinates are `real`, so the model computes `abs` and `< 0.01` exactly.

Behaviour of the code worth knowing:

- The update handler returns only a message, so the model returns `Pass` or
  `Fail` and no count of updated rows.
- The geofence tests truthiness, so a school or claim at latitude or longitude
  0.0 skips it (`Presence.EquatorSchoolSkipsBox`).
- The code checks neither a non-empty school name, nor coordinate ranges, nor
  unique app names per school. A second bootstrap of the same school duplicates
  every row (`Policy.BootstrapTwiceDuplicates`).
- In the location check, an absent `school_id` is a `KeyError`, while a null
  one finds no school and gets the "School not found" answer.

## Model

| member | source | states |
|---|---|---|
| `Presence.VerifyLocation` | app.py:144-164 | A request without `school_id` is a `KeyError`. A null id, or an id with no school, is `SchoolNotFound`. Only an existing school gets a yes/no answer, and that answer is the campus decision for that school |
| `Presence.OnCampus` | app.py:151-164 | On campus exactly when the claim is strictly inside the 0.01-degree box around a school, with all four coordinates present and non-zero, or when the school's non-empty SSID equals the claimed one exactly |
| `Presence.BoxIgnoresNetwork` | app.py:152-158 | First match wins: a claim inside the box is on campus whatever network name it reports |
| `Presence.NoGeofenceMeansNetworkOnly` | app.py:152-162 | With any coordinate missing or zero, the answer is the Wi-Fi match alone, however close the points are |
| `Presence.NoNetworkMeansBoxOnly` | app.py:152-164 | A school with no SSID or an empty one is found only by the box |
| `Presence.SampleGeofence` | app.py:152-158 | School (40.7128, -74.0060): the same point and a point 0.0072 degrees north are on campus. A point 0.1872 degrees north is off campus without a Wi-Fi match |
| `Presence.SampleNetwork` | app.py:160-164 | "School-WiFi" matches itself but not "school-wifi". A Wi-Fi match saves a claim outside the box |
| `Presence.EquatorSchoolSkipsBox` | app.py:152-153 | A latitude of 0.0 is falsy, so even a claim at the school's exact point is not accepted by the box |
| `Policy.DefaultRestrictions` | app.py:69-86 | Bootstrap rows are seven rows of the given school, each with a package name. The first three are allowed and the last four blocked, with no app name twice |
| `Policy.DefaultRestrictionsListed` | app.py:69-77 | The seven rows are exactly the listed (app, package, allowed) triples in order |
| `Policy.RowsFor` | app.py:122-129 | The school's listing contains exactly the table's rows of that school, in table order |
| `Policy.RowsForAppend` | app.py:124 | The listing of a concatenated table is the concatenation of the listings |
| `Policy.BootstrapListing` | app.py:79-86 | Bootstrap appends exactly the seven template rows after the school's earlier rows and leaves every other school's listing unchanged |
| `Policy.BootstrapTwiceDuplicates` | app.py:79-86 | A second bootstrap of the same school appends the template again, with no deduplication |
| `Policy.FirstMatch` | app.py:135-138 | The looked-up row has the school and the exact app name, and no earlier row does. No row is found only when no row of the school has that name |
| `Policy.FirstMatchIgnoresFlags` | app.py:135-140 | The lookup depends only on school ids and app names, so flag updates never redirect a later item |
| `Policy.ApplyItem` | app.py:135-140 | One item fails exactly when it lacks `app_name`, or names an app that is found but lacks `is_allowed`. Otherwise only the flag of the first matching row can change, and it takes the item's value |
| `Policy.ApplyItems` | app.py:134-141 | A batch that succeeds keeps every row's school, app name and package name in its place, and adds and removes no rows |
| `Policy.Expected` | app.py:134-140 | The reference description changes nothing but flags |
| `Policy.ApplyItemsMeaning` | app.py:134-140 | After a successful batch, a row changes only if it is the first row of its school and name and an item names it. It then holds the flag of the last such item |
| `Policy.ApplyItemsFailsIff` | app.py:134-140 | The batch fails exactly when some item lacks `app_name`, or names an app that is found but lacks `is_allowed` |
| `Policy.UpdateFrame` | app.py:135-140 | A successful batch changes no row of another school and no later duplicate, and changes no identity fields |
| `Policy.UpdateReachesFirstDuplicate` | app.py:135-138 | When an app appears twice for a school, the second copy is never updated |
| `Policy.UnmatchedItemIsSkipped` | app.py:139 | An item whose name matches no row of the school changes nothing and raises nothing, whatever flag it carries |
| `Policy.UnmatchedBatchIsNoOp` | app.py:134-141 | A batch in which no item matches leaves the table as it was and succeeds |
| `Policy.UpdateLastItemWins` | app.py:134-140 | When a batch names a matched app several times, the last such item decides its flag |
| `Policy.UpdateHit` | app.py:139-140 | A single matched item sets the flag of the first matching row and nothing else |
| `Registry.SchoolRegistry.constructor` | app.py:26-52 | The tables start empty and the id counter starts at 1 |
| `Registry.SchoolRegistry.Bootstrap` | app.py:79-86 | The loop appends the template rows in template order and keeps every row attached to an existing school |
| `Registry.SchoolRegistry.CreateSchool` | app.py:56-88 | A missing name fails and changes nothing. Otherwise the school is stored under the next id, the counter advances by one, and the table gains exactly the seven default rows for that school, after all earlier rows |
| `Registry.SchoolRegistry.UpdateRestrictions` | app.py:131-142 | The loop succeeds exactly when the batch specification does, and leaves the table it specifies. On a `KeyError` the table is as before and the error is the specification's |
| `Registry.PrefixFailure` | app.py:134-141 | Once an item aborts the loop, the rest of the batch does not matter |
| `Registry.NewSchoolListing` | app.py:65-86 | A freshly created school lists exactly the seven default rows |

## Left out

- `generate_qr_code` (app.py:166-179) renders a QR image through the `qrcode`, PIL and base64 libraries. These are foreign code, and the QR code returned by school creation is not modelled.
- Student registration (app.py:96-120) is left out. Its `device_id` uniqueness is a database constraint, and its credential is the QR library's output.
- Flask routing, JSON parsing and responses, CORS, JWT setup and server start (app.py:1-23, 181-184) are transport. A request body is modelled as the fields it may carry.
- Database sessions, commits, autoflush, row ids and the `created_at` and `registered_at` timestamps are not modelled. Only the observable effect of a rolled-back request is modelled: nothing changes.
- Storage failures are not modelled. This includes a failure of the second commit in `create_school` (app.py:88), which would leave a school without its default rows.
- `Presence.VerifyLocation` computes on `real`, not IEEE doubles. A difference that lands exactly on 0.01 after binary rounding may be decided differently by the service.
- `Policy.UpdateItem` cannot express an item whose `app_name` is present but null. The service queries `IS NULL` for it, finds nothing and skips it. The model only has "missing", which aborts.
- `Policy.UpdateItem` cannot express `"is_allowed": null` on a matched item. The service writes NULL into the flag and commits. The model only has "missing", which aborts the request.
- `Policy.UpdateItem` carries `is_allowed` as an optional boolean. A non-boolean JSON value, and a body that is not a list of objects, are not modelled.
- `Registry.SchoolRegistry.CreateSchool` folds a missing name (`KeyError`) and a null name (rejected by the NOT NULL column at commit) into one error.
- The restriction listing (app.py:122-129) is modelled as `Policy.RowsFor`, the filtered rows. The projection to three JSON fields is not modelled.
- The sample-school seeding of `run.py`, the orchestration in `demo.py` and the QR experiment in `test_qr.py` are setup scripts and carry no logic to verify.
