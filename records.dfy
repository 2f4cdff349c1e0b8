/** Record shapes of the school gate service: the `School` and `Restriction`
    rows of the database and the error results the request handlers produce. */
module Records {

  datatype Option<+T> = None | Some(value: T)

  /** The errors a handler can end with. `MissingKey` stands for the Python
      `KeyError` raised when a request body lacks a required field; it aborts the
      whole request before anything is committed. */
  datatype Error = MissingKey(key: string) | SchoolNotFound

  datatype Result<+T> = Ok(value: T) | Err(error: Error)

  datatype Outcome = Pass | Fail(error: Error)

  /** A school row. Its integer id is the key under which the registry stores it;
      the creation timestamp is not modelled. */
  datatype School = School(
    name: string,
    address: Option<string>,
    latitude: Option<real>,
    longitude: Option<real>,
    wifiSsid: Option<string>)

  /** A restriction row: whether the app called `appName` may run on the devices
      of school `schoolId`. Rows have no further identity than their place in the
      table; the auto-increment id and the timestamp are not modelled. */
  datatype Restriction = Restriction(
    schoolId: int,
    appName: string,
    packageName: Option<string>,
    isAllowed: bool)

  /** Two rows agree on everything an update may not change. */
  predicate SameIdentity(a: Restriction, b: Restriction)
  {
    a.schoolId == b.schoolId && a.appName == b.appName && a.packageName == b.packageName
  }

  /** Two tables hold the same rows, in the same places, up to their flags. */
  predicate SameKeys(a: seq<Restriction>, b: seq<Restriction>)
  {
    |a| == |b| && forall k :: 0 <= k < |a| ==> SameIdentity(a[k], b[k])
  }
}
