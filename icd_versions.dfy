/**
 * The version lookup that a Terraform external data source runs to learn which
 * versions of one IBM Cloud Databases type are offered in a region.
 *
 * It checks the query Terraform sends, builds the API endpoint and the request
 * headers, keeps the live versions of the requested database type from the
 * deployables catalogue the API returns, and packs the list into the flat map
 * of strings that Terraform expects.
 */
module IcdVersions {
  import opened Wrappers
  import JsonText

  // ------------------------------------------------------------------
  // Input validation
  // ------------------------------------------------------------------

  /** The keys the query must carry, in the order they are checked. */
  const RequiredKeys: seq<string> := ["IAM_TOKEN", "REGION", "DB_TYPE"]

  /** The values the lookup goes on with once the query is valid. */
  datatype Inputs = Inputs(token: string, region: string, dbType: string)

  /**
   * `data.get(key)` is truthy: the key is there and its string is not empty.
   * Terraform's external data source passes every query value as a string.
   */
  predicate Present(data: map<string, string>, key: string) {
    key in data && data[key] != ""
  }

  /** The message raised when `key` is missing or empty. */
  function Required(key: string): string {
    key + " is required"
  }

  /**
   * The three required values, or the error for the first key that is missing
   * or empty, in the order IAM_TOKEN, REGION, DB_TYPE.
   */
  function ValidateInputs(data: map<string, string>): (r: Result<Inputs, string>)
    ensures r.Ok? <==> forall i :: 0 <= i < |RequiredKeys| ==> Present(data, RequiredKeys[i])
    ensures r.Ok? ==>
      && Present(data, "IAM_TOKEN") && Present(data, "REGION") && Present(data, "DB_TYPE")
      && r.value == Inputs(data["IAM_TOKEN"], data["REGION"], data["DB_TYPE"])
    ensures r.Err? ==>
      exists i :: 0 <= i < |RequiredKeys| && !Present(data, RequiredKeys[i])
        && (forall j :: 0 <= j < i ==> Present(data, RequiredKeys[j]))
        && r.error == Required(RequiredKeys[i])
  {
    if !Present(data, "IAM_TOKEN") then
      assert !Present(data, RequiredKeys[0]);
      Err(Required("IAM_TOKEN"))
    else if !Present(data, "REGION") then
      assert !Present(data, RequiredKeys[1]);
      Err(Required("REGION"))
    else if !Present(data, "DB_TYPE") then
      assert !Present(data, RequiredKeys[2]);
      Err(Required("DB_TYPE"))
    else
      Ok(Inputs(data["IAM_TOKEN"], data["REGION"], data["DB_TYPE"]))
  }

  // ------------------------------------------------------------------
  // API endpoint
  // ------------------------------------------------------------------

  const EndpointScheme := "https://api."
  const EndpointDomain := ".databases.cloud.ibm.com"

  /** The public endpoint of the region. */
  function DefaultEndpoint(region: string): string {
    EndpointScheme + region + EndpointDomain
  }

  /**
   * The endpoint to call: the override (the IBMCLOUD_ICD_API_ENDPOINT
   * environment variable, passed in) when it is set and not empty, otherwise
   * the region's public endpoint.
   */
  function ApiEndpoint(region: string, endpointOverride: Option<string>): (r: string)
    ensures r != ""
    ensures endpointOverride.Some? && endpointOverride.value != "" ==> r == endpointOverride.value
    ensures endpointOverride.None? || endpointOverride.value == "" ==>
      EndpointScheme <= r && RegionOf(r) == Some(region)
  {
    if endpointOverride.Some? && endpointOverride.value != "" then endpointOverride.value
    else
      DefaultEndpointRegion(region);
      DefaultEndpoint(region)
  }

  /** The region named by an endpoint of the default form, if it has that form. */
  function RegionOf(endpoint: string): Option<string> {
    if |endpoint| >= |EndpointScheme| + |EndpointDomain|
       && endpoint[..|EndpointScheme|] == EndpointScheme
       && endpoint[|endpoint| - |EndpointDomain|..] == EndpointDomain
    then Some(endpoint[|EndpointScheme|..|endpoint| - |EndpointDomain|])
    else None
  }

  /** The region can be read back from its default endpoint. */
  lemma DefaultEndpointRegion(region: string)
    ensures RegionOf(DefaultEndpoint(region)) == Some(region)
  {
    var e := DefaultEndpoint(region);
    assert e[..|EndpointScheme|] == EndpointScheme;
    assert e[|e| - |EndpointDomain|..] == EndpointDomain;
    assert e[|EndpointScheme|..|e| - |EndpointDomain|] == region;
  }

  /** Two regions never share a default endpoint. */
  lemma DefaultEndpointInjective(a: string, b: string)
    requires DefaultEndpoint(a) == DefaultEndpoint(b)
    ensures a == b
  {
    DefaultEndpointRegion(a);
    DefaultEndpointRegion(b);
  }

  // ------------------------------------------------------------------
  // Request headers
  // ------------------------------------------------------------------

  const BearerPrefix := "Bearer "

  /** The token with one leading "Bearer " removed, if it has one. */
  function StripBearer(token: string): (t: string)
    ensures BearerPrefix <= token ==> token == BearerPrefix + t
    ensures !(BearerPrefix <= token) ==> t == token
  {
    if BearerPrefix <= token then token[|BearerPrefix|..] else token
  }

  /** The Authorization header value: the prefix is never doubled. */
  function AuthorizationHeader(token: string): (h: string)
    ensures BearerPrefix <= h
    ensures BearerPrefix <= token ==> h == token
    ensures !(BearerPrefix <= token) ==> h == BearerPrefix + token
  {
    BearerPrefix + StripBearer(token)
  }

  /** Building the header from a header changes nothing. */
  lemma AuthorizationHeaderIdempotent(token: string)
    ensures AuthorizationHeader(AuthorizationHeader(token)) == AuthorizationHeader(token)
  {
    var h := AuthorizationHeader(token);
    assert BearerPrefix <= h;
  }

  /** The GET request the lookup sends to the deployables API. */
  datatype Request = Request(endpoint: string, path: string, headers: map<string, string>)

  const DeployablesPath := "/v5/ibm/deployables"

  function BuildRequest(token: string, endpoint: string): (req: Request)
    ensures req.endpoint == endpoint && req.path == DeployablesPath
    ensures req.headers.Keys == {"Authorization", "Accept"}
    ensures req.headers["Accept"] == "application/json"
    ensures BearerPrefix <= req.headers["Authorization"]
    ensures req.headers["Authorization"] == BearerPrefix + StripBearer(token)
  {
    Request(endpoint, DeployablesPath,
            map["Authorization" := AuthorizationHeader(token), "Accept" := "application/json"])
  }

  // ------------------------------------------------------------------
  // The deployables catalogue
  // ------------------------------------------------------------------

  /** An entry of a deployable's "versions" list; `None` is a missing key. */
  datatype Version = Version(version: Option<string>, status: Option<string>)

  /** An entry of the "deployables" list: its "type" and its "versions". */
  datatype Deployable = Deployable(dbType: Option<string>, versions: Option<seq<Version>>)

  /** The decoded API response; `None` when it has no "deployables" key. */
  datatype Catalogue = Catalogue(deployables: Option<seq<Deployable>>)

  /** A version is live unless its status is "dead" or "hidden"; no status is live. */
  predicate IsLive(v: Version) {
    v.status != Some("dead") && v.status != Some("hidden")
  }

  predicate Matches(d: Deployable, dbType: string) {
    d.dbType == Some(dbType)
  }

  /** The index of the first deployable of type `dbType`, if there is one. */
  function FirstMatch(ds: seq<Deployable>, dbType: string): (r: Option<nat>)
    ensures r.Some? ==> r.value < |ds| && Matches(ds[r.value], dbType)
    ensures r.Some? ==> forall j :: 0 <= j < r.value ==> !Matches(ds[j], dbType)
    ensures r.None? ==> forall j :: 0 <= j < |ds| ==> !Matches(ds[j], dbType)
  {
    if ds == [] then None
    else if Matches(ds[0], dbType) then Some(0)
    else match FirstMatch(ds[1..], dbType)
      case None => None
      case Some(k) => Some(k + 1)
  }

  /** The "version" values of the live entries, in catalogue order. */
  function Live(vs: seq<Version>): seq<Option<string>> {
    if vs == [] then []
    else Live(vs[..|vs| - 1]) + (if IsLive(vs[|vs| - 1]) then [vs[|vs| - 1].version] else [])
  }

  /** What `transform_data` returns: the live versions of the first deployable of the type. */
  function LiveVersionsOf(data: Catalogue, dbType: string): seq<Option<string>> {
    var ds := data.deployables.GetOr([]);
    match FirstMatch(ds, dbType)
    case None => []
    case Some(i) => Live(ds[i].versions.GetOr([]))
  }

  /**
   * Walks the deployables until the first one of type `dbType`, appends the
   * version of each of its live entries, and stops there.
   */
  method TransformData(data: Catalogue, dbType: string) returns (versions: seq<Option<string>>)
    ensures versions == LiveVersionsOf(data, dbType)
  {
    versions := [];
    var deployables := data.deployables.GetOr([]);
    var i := 0;
    while i < |deployables|
      invariant 0 <= i <= |deployables|
      invariant versions == []
      invariant forall j :: 0 <= j < i ==> !Matches(deployables[j], dbType)
    {
      var item := deployables[i];
      if item.dbType == Some(dbType) {
        var entries := item.versions.GetOr([]);
        var k := 0;
        while k < |entries|
          invariant 0 <= k <= |entries|
          invariant versions == Live(entries[..k])
        {
          var ver := entries[k];
          if ver.status != Some("dead") && ver.status != Some("hidden") {
            versions := versions + [ver.version];
          }
          assert entries[..k + 1][..k] == entries[..k];
          k := k + 1;
        }
        assert entries[..k] == entries;
        break;
      }
      i := i + 1;
    }
  }

  // ------------------------------------------------------------------
  // What the filter keeps
  // ------------------------------------------------------------------

  /** Filtering one entry keeps it exactly when it is live. */
  lemma LiveSingleton(v: Version)
    ensures Live([v]) == if IsLive(v) then [v.version] else []
  {
    assert [v][..0] == [];
  }

  /** Filtering a concatenation filters each part and keeps their order. */
  lemma {:induction false} LiveConcat(a: seq<Version>, b: seq<Version>)
    ensures Live(a + b) == Live(a) + Live(b)
    decreases |b|
  {
    if b == [] {
      assert a + b == a;
    } else {
      var b' := b[..|b| - 1];
      assert (a + b)[..|a + b| - 1] == a + b';
      assert (a + b)[|a + b| - 1] == b[|b| - 1];
      LiveConcat(a, b');
    }
  }

  /** The filter never lengthens the list. */
  lemma {:induction false} LiveNoLonger(vs: seq<Version>)
    ensures |Live(vs)| <= |vs|
    decreases |vs|
  {
    if vs != [] {
      LiveNoLonger(vs[..|vs| - 1]);
    }
  }

  /** The positions of the live entries, in increasing order. */
  ghost function LiveIndices(vs: seq<Version>): seq<nat> {
    if vs == [] then []
    else LiveIndices(vs[..|vs| - 1]) + (if IsLive(vs[|vs| - 1]) then [|vs| - 1] else [])
  }

  /**
   * The result is the subsequence of the entries' versions taken at exactly the
   * live positions: every kept value comes from a live entry, the positions
   * increase, and no live entry is left out.
   */
  lemma {:induction false} LiveIsSubsequence(vs: seq<Version>)
    ensures |LiveIndices(vs)| == |Live(vs)|
    ensures forall j :: 0 <= j < |LiveIndices(vs)| ==>
      LiveIndices(vs)[j] < |vs| && IsLive(vs[LiveIndices(vs)[j]])
      && Live(vs)[j] == vs[LiveIndices(vs)[j]].version
    ensures forall j, k :: 0 <= j < k < |LiveIndices(vs)| ==> LiveIndices(vs)[j] < LiveIndices(vs)[k]
    ensures forall i :: 0 <= i < |vs| && IsLive(vs[i]) ==> i in LiveIndices(vs)
    decreases |vs|
  {
    if vs != [] {
      var init := vs[..|vs| - 1];
      LiveIsSubsequence(init);
      assert forall i :: 0 <= i < |init| ==> init[i] == vs[i];
    }
  }

  /** Nothing is kept exactly when every entry is dead or hidden. */
  lemma {:induction false} LiveEmpty(vs: seq<Version>)
    ensures Live(vs) == [] <==> forall i :: 0 <= i < |vs| ==> !IsLive(vs[i])
    decreases |vs|
  {
    if vs != [] {
      var init := vs[..|vs| - 1];
      LiveEmpty(init);
      assert forall i :: 0 <= i < |init| ==> init[i] == vs[i];
    }
  }

  // ------------------------------------------------------------------
  // Which deployable is read
  // ------------------------------------------------------------------

  /** Deployables after the first match are never looked at. */
  lemma {:induction false} FirstMatchAppend(ds: seq<Deployable>, more: seq<Deployable>, dbType: string)
    requires FirstMatch(ds, dbType).Some?
    ensures FirstMatch(ds + more, dbType) == FirstMatch(ds, dbType)
    decreases |ds|
  {
    if !Matches(ds[0], dbType) {
      assert (ds + more)[1..] == ds[1..] + more;
      FirstMatchAppend(ds[1..], more, dbType);
    }
  }

  /** A later deployable of the same type does not change the result. */
  lemma LaterDuplicatesIgnored(ds: seq<Deployable>, more: seq<Deployable>, dbType: string)
    requires exists i :: 0 <= i < |ds| && Matches(ds[i], dbType)
    ensures LiveVersionsOf(Catalogue(Some(ds + more)), dbType) == LiveVersionsOf(Catalogue(Some(ds)), dbType)
  {
    FirstMatchAppend(ds, more, dbType);
    var i := FirstMatch(ds, dbType).value;
    assert (ds + more)[i] == ds[i];
  }

  /**
   * The result is empty exactly when there is no "deployables" key, no
   * deployable of the type, or the first one of the type has no "versions"
   * key or no live entry.
   */
  lemma LiveVersionsOfEmpty(data: Catalogue, dbType: string)
    ensures LiveVersionsOf(data, dbType) == [] <==>
      || data.deployables.None?
      || (forall j :: 0 <= j < |data.deployables.value| ==> !Matches(data.deployables.value[j], dbType))
      || (var d := data.deployables.value[FirstMatch(data.deployables.value, dbType).value];
          d.versions.None? || forall k :: 0 <= k < |d.versions.value| ==> !IsLive(d.versions.value[k]))
  {
    var ds := data.deployables.GetOr([]);
    match FirstMatch(ds, dbType)
    case None =>
      assert LiveVersionsOf(data, dbType) == [];
    case Some(i) =>
      assert data.deployables.Some? && Matches(ds[i], dbType);
      assert LiveVersionsOf(data, dbType) == Live(ds[i].versions.GetOr([]));
      LiveEmpty(ds[i].versions.GetOr([]));
  }

  // ------------------------------------------------------------------
  // Output for Terraform
  // ------------------------------------------------------------------

  /**
   * The flat map of strings Terraform expects: the key "versions" holding the
   * list as a JSON array text, which decodes back to the list.
   */
  function FormatForTerraform(versions: seq<Option<string>>): (out: map<string, string>)
    ensures out.Keys == {"versions"}
    ensures JsonText.Decode(out["versions"]) == Some(versions)
    ensures JsonText.PrintableAscii(out["versions"])
  {
    JsonText.RoundTrip(versions);
    JsonText.EncodeListAscii(versions);
    map["versions" := JsonText.EncodeList(versions)]
  }

  // ------------------------------------------------------------------
  // The whole lookup
  // ------------------------------------------------------------------

  /**
   * Validates the query, sends the request to `api` (the HTTPS call, which
   * returns the decoded catalogue or an error), and formats the live versions.
   */
  method Lookup(query: map<string, string>, endpointOverride: Option<string>,
                api: Request -> Result<Catalogue, string>)
    returns (r: Result<map<string, string>, string>)
    ensures ValidateInputs(query).Err? ==> r == Err(ValidateInputs(query).error)
    ensures ValidateInputs(query).Ok? ==>
      var inputs := ValidateInputs(query).value;
      var response := api(BuildRequest(inputs.token, ApiEndpoint(inputs.region, endpointOverride)));
      if response.Err? then r == Err(response.error)
      else (r.Ok? && r.value.Keys == {"versions"}
            && JsonText.Decode(r.value["versions"]) == Some(LiveVersionsOf(response.value, inputs.dbType)))
  {
    var validated := ValidateInputs(query);
    if validated.Err? {
      return Err(validated.error);
    }
    var inputs := validated.value;
    var endpoint := ApiEndpoint(inputs.region, endpointOverride);
    var response := api(BuildRequest(inputs.token, endpoint));
    if response.Err? {
      return Err(response.error);
    }
    var versions := TransformData(response.value, inputs.dbType);
    r := Ok(FormatForTerraform(versions));
  }
}
