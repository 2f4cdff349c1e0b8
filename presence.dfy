/** The on-campus decision of the location check: a bounding box around the
    school's coordinates first, the school's Wi-Fi network name second. */
module Presence {
  import opened Records

  /** Half the side of the bounding box, in degrees on each axis. */
  const Radius: real := 0.01

  /** The body of a location check request. For the coordinates and the network
      name, `None` is a field the request leaves out or sends as null (the
      handler treats both alike). The school id distinguishes the two: `None` is
      an absent key, `Some(None)` an explicit null. */
  datatype LocationClaim = LocationClaim(
    schoolId: Option<Option<int>>,
    latitude: Option<real>,
    longitude: Option<real>,
    wifiSsid: Option<string>)

  /** Python truthiness of an optional float: absent and 0.0 are both false. */
  predicate Truthy(x: Option<real>)
  {
    x.Some? && x.value != 0.0
  }

  /** Python truthiness of an optional string: absent and "" are both false. */
  predicate TruthyText(s: Option<string>)
  {
    s.Some? && s.value != ""
  }

  function Abs(x: real): (r: real)
  {
    if x < 0.0 then -x else x
  }

  /** The geofence is consulted only when all four coordinates are truthy. */
  predicate GeofenceApplies(school: School, claim: LocationClaim)
  {
    Truthy(school.latitude) && Truthy(school.longitude) &&
    Truthy(claim.latitude) && Truthy(claim.longitude)
  }

  /** The decision as the handler takes it, one early return after another. It
      amounts to: inside the box, or on the school's own network. */
  function OnCampus(school: School, claim: LocationClaim): (onCampus: bool)
    ensures onCampus <==> InsideBox(school, claim) || OnTrustedNetwork(school, claim)
  {
    if GeofenceApplies(school, claim) &&
       Abs(school.latitude.value - claim.latitude.value) < Radius &&
       Abs(school.longitude.value - claim.longitude.value) < Radius
    then true
    else if TruthyText(school.wifiSsid) && claim.wifiSsid == school.wifiSsid then
      assert school.wifiSsid == Some(school.wifiSsid.value);
      true
    else false
  }

  /** The school id a request names, if it names one: an absent key or a null
      names none. */
  predicate NamesSchool(claim: LocationClaim, schools: map<int, School>)
  {
    claim.schoolId.Some? && claim.schoolId.value.Some? && claim.schoolId.value.value in schools
  }

  /** The whole handler: the school id is read from the claim (an absent key is
      a `KeyError`), looked up in the school table (a null id finds no row), and
      only a school that exists gets a yes/no answer. */
  function VerifyLocation(schools: map<int, School>, claim: LocationClaim): (r: Result<bool>)
    ensures claim.schoolId.None? ==> r == Err(MissingKey("school_id"))
    ensures claim.schoolId.Some? && !NamesSchool(claim, schools) ==> r == Err(SchoolNotFound)
    ensures r.Ok? <==> NamesSchool(claim, schools)
    ensures r.Ok? ==> r.value == OnCampus(schools[claim.schoolId.value.value], claim)
  {
    match claim.schoolId
    case None => Err(MissingKey("school_id"))
    case Some(None) => Err(SchoolNotFound)
    case Some(Some(id)) =>
      if id !in schools then Err(SchoolNotFound)
      else Ok(OnCampus(schools[id], claim))
  }

  // ---------------------------------------------------------------------------
  // The decision stated declaratively, and what follows from it.

  /** The claimed point lies strictly inside the box around a school whose
      coordinates are all usable. */
  predicate InsideBox(school: School, claim: LocationClaim)
  {
    && school.latitude.Some? && school.latitude.value != 0.0
    && school.longitude.Some? && school.longitude.value != 0.0
    && claim.latitude.Some? && claim.latitude.value != 0.0
    && claim.longitude.Some? && claim.longitude.value != 0.0
    && -Radius < school.latitude.value - claim.latitude.value < Radius
    && -Radius < school.longitude.value - claim.longitude.value < Radius
  }

  /** The claimed network name is exactly the school's own, non-empty one. */
  ghost predicate OnTrustedNetwork(school: School, claim: LocationClaim)
  {
    exists ssid :: school.wifiSsid == Some(ssid) && ssid != "" && claim.wifiSsid == Some(ssid)
  }

  /** First match wins: once the box accepts, the network name is never looked at. */
  lemma BoxIgnoresNetwork(school: School, claim: LocationClaim, ssid: Option<string>)
    requires InsideBox(school, claim)
    ensures OnCampus(school, claim.(wifiSsid := ssid))
  {
  }

  /** A missing or zero coordinate on either side skips the box entirely: the
      answer is then the network check alone, however close the points are. */
  lemma NoGeofenceMeansNetworkOnly(school: School, claim: LocationClaim)
    requires !GeofenceApplies(school, claim)
    ensures OnCampus(school, claim) <==> OnTrustedNetwork(school, claim)
  {
  }

  /** Without a usable school network name, only the box can say yes. */
  lemma NoNetworkMeansBoxOnly(school: School, claim: LocationClaim)
    requires !TruthyText(school.wifiSsid)
    ensures OnCampus(school, claim) <==> InsideBox(school, claim)
  {
  }

  // ---------------------------------------------------------------------------
  // The sample school of the service and the claims checked against it.

  const SampleSchool := School("Sample High School", Some("123 Education Street, Learning City"),
                               Some(40.7128), Some(-74.0060), Some("School-WiFi"))

  /** A claim 0.0072 degrees north of the school is inside the box; one 0.1872
      degrees north is not, and with a foreign network name it is off campus. */
  lemma SampleGeofence()
    ensures OnCampus(SampleSchool, LocationClaim(Some(Some(1)), Some(40.7128), Some(-74.0060), None))
    ensures OnCampus(SampleSchool, LocationClaim(Some(Some(1)), Some(40.7200), Some(-74.0060), None))
    ensures !OnCampus(SampleSchool, LocationClaim(Some(Some(1)), Some(40.9000), Some(-74.0060), None))
    ensures !OnCampus(SampleSchool, LocationClaim(Some(Some(1)), Some(40.9000), Some(-74.0060), Some("Cafe")))
  {
  }

  /** The network name is compared exactly: a change of case is a different network,
      and a school without coordinates is found by its network name alone. */
  lemma SampleNetwork()
    ensures OnCampus(SampleSchool.(latitude := None, longitude := None),
                     LocationClaim(Some(Some(1)), None, None, Some("School-WiFi")))
    ensures !OnCampus(SampleSchool.(latitude := None, longitude := None),
                      LocationClaim(Some(Some(1)), None, None, Some("school-wifi")))
    ensures OnCampus(SampleSchool, LocationClaim(Some(Some(1)), Some(40.9000), Some(-74.0060), Some("School-WiFi")))
  {
  }

  /** A school on the equator never passes the box test, even for a claim at the
      very same point, because 0.0 is falsy. */
  lemma EquatorSchoolSkipsBox()
    ensures !OnCampus(School("Equator", None, Some(0.0), Some(10.0), None),
                      LocationClaim(Some(Some(1)), Some(0.0), Some(10.0), None))
  {
  }
}
