/** Deployment configurations: the parameters stored per (image, provider)
    and the lookup that hands them back with the provider's endpoint. */
module DeployService {
  import opened Results
  import opened Tables
  import opened Models
  import opened Store

  datatype DeployRequest = DeployRequest(imageId: Id, providerId: Id, params: Params)

  datatype DeployResponse = DeployResponse(providerName: string, apiUrl: string, params: Params)

  /** The configuration row a scan finds first for the pair. */
  predicate ConfigFor(c: ImageProvider, imageId: Id, providerId: Id) {
    c.imageId == imageId && c.providerId == providerId
  }

  function FindConfig(d: seq<ImageProvider>, imageId: Id, providerId: Id): (r: Option<nat>)
    ensures r.Some? ==> r.value < |d| && ConfigFor(d[r.value], imageId, providerId)
    ensures r.Some? ==> forall i :: 0 <= i < r.value ==> !ConfigFor(d[i], imageId, providerId)
    ensures r.None? <==> forall i :: 0 <= i < |d| ==> !ConfigFor(d[i], imageId, providerId)
  {
    if d == [] then None
    else if ConfigFor(d[0], imageId, providerId) then Some(0)
    else
      match FindConfig(d[1..], imageId, providerId)
      case None => None
      case Some(k) => Some(k + 1)
  }

  /** The first match is the matching row with none before it. */
  lemma FindConfigAt(d: seq<ImageProvider>, imageId: Id, providerId: Id, k: nat)
    requires k < |d| && ConfigFor(d[k], imageId, providerId)
    requires forall i :: 0 <= i < k ==> !ConfigFor(d[i], imageId, providerId)
    ensures FindConfig(d, imageId, providerId) == Some(k)
  {
    var r := FindConfig(d, imageId, providerId);
    assert r.Some?;
    assert r.value >= k;
  }

  const ParseFailed := "failed to parse provider params: "

  /** Decode the `params` column: an empty column decodes to no parameters,
      text that does not decode is an error. (The decoder's own message is
      not modelled.) */
  function DecodeParams(c: ParamsColumn): (r: Result<Params>)
    ensures r.Err? <==> c.Unreadable?
    ensures c.Blank? ==> r == Ok(None)
    ensures c.Encoded? ==> r == Ok(c.params)
    ensures r.Err? ==> ParseFailed <= r.error
  {
    match c
    case Blank => Ok(None)
    case Encoded(p) => Ok(p)
    case Unreadable(_) => Err(ParseFailed + "invalid JSON")
  }

  /** `GetDeployInfo`: the configuration of the pair, then the provider. */
  function GetDeployInfo(s: Store, imageId: Id, providerId: Id): (r: Result<DeployResponse>)
    ensures FindConfig(s.deployments, imageId, providerId).None? ==>
      r == Err("deployment configuration not found")
    ensures FindConfig(s.deployments, imageId, providerId).Some? && providerId !in s.providers.byId ==>
      r == Err("provider not found")
    ensures r.Ok? ==>
      var k := FindConfig(s.deployments, imageId, providerId).value;
      && providerId in s.providers.byId
      && DecodeParams(s.deployments[k].params) == Ok(r.value.params)
      && r.value.providerName == s.providers.byId[providerId].name
      && r.value.apiUrl == s.providers.byId[providerId].apiUrl
  {
    match FindConfig(s.deployments, imageId, providerId)
    case None => Err("deployment configuration not found")
    case Some(k) =>
      match s.providers.Get(providerId)
      case None => Err("provider not found")
      case Some(p) =>
        match DecodeParams(s.deployments[k].params)
        case Err(e) => Err(e)
        case Ok(params) => Ok(DeployResponse(p.name, p.apiUrl, params))
  }

  /** `Deploy`: with the image and the provider present, store the request's
      parameters for the pair, updating its configuration if one exists and
      adding one otherwise; answer with the parameters as given. */
  function Deploy(s: Store, req: DeployRequest): (r: Reply<DeployResponse>)
    ensures r.result.Err? ==> r.store == s
    ensures req.imageId !in s.images.byId ==> r.result == Err("image not found")
    ensures req.imageId in s.images.byId && req.providerId !in s.providers.byId ==>
      r.result == Err("provider not found")
    ensures r.result.Ok? <==> req.imageId in s.images.byId && req.providerId in s.providers.byId
    ensures r.result.Ok? ==>
      && r.result.value.params == req.params
      && r.result.value.providerName == s.providers.byId[req.providerId].name
      && r.result.value.apiUrl == s.providers.byId[req.providerId].apiUrl
      && r.store == s.(deployments := r.store.deployments)
      && Saved(s.deployments, r.store.deployments, ImageProvider(req.imageId, req.providerId, Encoded(req.params)))
  {
    if req.imageId !in s.images.byId then Reply(s, Err("image not found"))
    else match s.providers.Get(req.providerId)
      case None => Reply(s, Err("provider not found"))
      case Some(p) =>
        var row := ImageProvider(req.imageId, req.providerId, Encoded(req.params));
        Reply(s.(deployments := Upsert(s.deployments, row)), Ok(DeployResponse(p.name, p.apiUrl, req.params)))
  }

  /** `after` is `before` with `row` saved for its pair: the pair's
      lookup now finds `row`; a row of another pair keeps its place; a row
      is added only when the pair had none; and no row other than `row`
      appears. With at most one row per pair before, that stays so and the
      old row of the pair is gone. */
  ghost predicate Saved(before: seq<ImageProvider>, after: seq<ImageProvider>, row: ImageProvider) {
    && FindConfig(after, row.imageId, row.providerId).Some?
    && after[FindConfig(after, row.imageId, row.providerId).value] == row
    && |after| == |before| + (if FindConfig(before, row.imageId, row.providerId).None? then 1 else 0)
    && (forall i :: 0 <= i < |before| && !ConfigFor(before[i], row.imageId, row.providerId) ==> after[i] == before[i])
    && (forall c :: c in after ==> c == row || c in before)
    && (OneConfigPerPair(before) ==>
          && OneConfigPerPair(after)
          && forall c :: c in after <==> c == row || (c in before && !ConfigFor(c, row.imageId, row.providerId)))
  }

  /** The configuration rows after saving `row`: the first row of its pair
      is overwritten in place, or `row` is appended when the pair has none. */
  function Upsert(d: seq<ImageProvider>, row: ImageProvider): (r: seq<ImageProvider>)
    ensures FindConfig(d, row.imageId, row.providerId).None? ==> r == d + [row]
    ensures FindConfig(d, row.imageId, row.providerId).Some? ==>
      r == d[FindConfig(d, row.imageId, row.providerId).value := row]
    ensures Saved(d, r, row)
  {
    match FindConfig(d, row.imageId, row.providerId)
    case None =>
      SavedByAppend(d, row);
      d + [row]
    case Some(k) =>
      SavedByOverwrite(d, row, k);
      d[k := row]
  }

  lemma SavedByAppend(d: seq<ImageProvider>, row: ImageProvider)
    requires FindConfig(d, row.imageId, row.providerId).None?
    ensures Saved(d, d + [row], row)
  {
    var r := d + [row];
    FindConfigAt(r, row.imageId, row.providerId, |d|);
    assert forall c :: c in r <==> c == row || c in d;
  }

  lemma SavedByOverwrite(d: seq<ImageProvider>, row: ImageProvider, k: nat)
    requires FindConfig(d, row.imageId, row.providerId) == Some(k)
    ensures Saved(d, d[k := row], row)
  {
    var r := d[k := row];
    assert r[k] == row;
    FindConfigAt(r, row.imageId, row.providerId, k);
    assert |r| == |d|;
    assert forall i :: 0 <= i < |d| && i != k ==> r[i] == d[i];
    assert forall c :: c in r ==> c == row || c in d by {
      forall c | c in r ensures c == row || c in d {
        var i :| 0 <= i < |r| && r[i] == c;
        if i != k { assert c == d[i]; }
      }
    }
    if OneConfigPerPair(d) {
      OverwriteKeepsOnePerPair(d, row, k);
    }
  }

  lemma OverwriteKeepsOnePerPair(d: seq<ImageProvider>, row: ImageProvider, k: nat)
    requires FindConfig(d, row.imageId, row.providerId) == Some(k)
    requires OneConfigPerPair(d)
    ensures OneConfigPerPair(d[k := row])
    ensures forall c :: c in d[k := row] <==> c == row || (c in d && !ConfigFor(c, row.imageId, row.providerId))
  {
    var r := d[k := row];
    assert forall i :: 0 <= i < |d| && i != k ==> !ConfigFor(d[i], row.imageId, row.providerId);
    assert r[k] == row;
    forall c | c in r ensures c == row || (c in d && !ConfigFor(c, row.imageId, row.providerId)) {
      var i :| 0 <= i < |r| && r[i] == c;
      if i != k { assert c == d[i]; }
    }
    forall c | c in d && !ConfigFor(c, row.imageId, row.providerId) ensures c in r {
      var i :| 0 <= i < |d| && d[i] == c;
      assert r[i] == c;
    }
  }

  /** What `Deploy` stores, `GetDeployInfo` hands back: the same provider
      endpoint and the same parameters. */
  lemma DeployThenGetDeployInfo(s: Store, req: DeployRequest)
    requires Deploy(s, req).result.Ok?
    ensures GetDeployInfo(Deploy(s, req).store, req.imageId, req.providerId) == Ok(Deploy(s, req).result.value)
  {
  }

  /** Deploying the same request twice leaves what deploying it once does. */
  lemma DeployIdempotent(s: Store, req: DeployRequest)
    requires Deploy(s, req).result.Ok?
    ensures Deploy(Deploy(s, req).store, req) == Deploy(s, req)
  {
    UpsertIdempotent(s.deployments, ImageProvider(req.imageId, req.providerId, Encoded(req.params)));
  }

  /** Saving the same row a second time changes nothing. */
  lemma UpsertIdempotent(d: seq<ImageProvider>, row: ImageProvider)
    ensures Upsert(Upsert(d, row), row) == Upsert(d, row)
  {
    var u := Upsert(d, row);
    match FindConfig(d, row.imageId, row.providerId)
    case None =>
      FindConfigAt(u, row.imageId, row.providerId, |d|);
      assert u[|d| := row] == u;
    case Some(k) =>
      FindConfigAt(u, row.imageId, row.providerId, k);
      assert u[k := row] == u;
  }

  lemma DeployPreservesValid(s: Store, req: DeployRequest)
    requires Valid(s)
    ensures Valid(Deploy(s, req).store)
  {
  }
}
