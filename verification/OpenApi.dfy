/** The OpenAPI pipeline: merge two specs, inject integrations, fill the authorizer (infra/lib/utils/api-utils.ts). */
module OpenApi {
  import opened Text

  datatype Integration = Integration(uri: string)

  /** `security` is absent or a list of requirements, possibly empty. */
  datatype Operation = Operation(
    responses: map<string, map<string, string>>, integration: Option<Integration>, security: Option<seq<string>>)

  /** What a path holds under a key: an operation, something falsy, or other path-level data. */
  datatype Item = Op(operation: Operation) | Nothing | Other(text: string)

  type PathItem = map<string, Item>
  type Paths = map<string, PathItem>

  datatype Authorizer = Authorizer(uri: string, credentials: string)

  datatype Scheme = Scheme(
    kind: string, name: string, location: string, scheme: Option<string>, description: Option<string>,
    authorizer: Option<Authorizer>)

  class Spec {
    var paths: Paths
    /** Security schemes in the order they are declared. */
    var schemes: seq<(string, Scheme)>
  }

  const HTTP_METHODS: seq<string> := ["get", "put", "post", "delete", "patch", "head"]

  function ItemAt(paths: Paths, path: string, key: string): Option<Item>
  {
    if path in paths then Get(paths[path], key) else None
  }

  // ----- merge -----

  /** Some path has the same key in both specs. */
  ghost predicate Clash(base: Paths, overlay: Paths)
  {
    exists p, k :: p in base && p in overlay && k in base[p] && k in overlay[p]
  }

  /** The disjoint union, path by path and key by key. */
  function Merged(base: Paths, overlay: Paths): Paths
  {
    map p | p in base.Keys + overlay.Keys ::
      if p !in overlay then base[p] else if p !in base then overlay[p] else base[p] + overlay[p]
  }

  lemma MergedOn(base: Paths, done: Paths, p: string, methods: PathItem)
    requires p !in done
    ensures p in Merged(base, done) <==> p in base
    ensures p in base ==> Merged(base, done)[p] == base[p]
    ensures Merged(base, done[p := methods]) == Merged(base, done)[p := if p in base then base[p] + methods else methods]
  {
  }

  lemma ClashOn(base: Paths, done: Paths, p: string, methods: PathItem)
    requires p !in done
    ensures Clash(base, done[p := methods]) <==> Clash(base, done) || (p in base && exists k :: k in base[p] && k in methods)
  {
    var more := done[p := methods];
    if Clash(base, done) {
      var q, k :| q in base && q in done && k in base[q] && k in done[q];
      assert q in more && k in more[q];
    }
    if p in base && exists k :: k in base[p] && k in methods {
      var k :| k in base[p] && k in methods;
      assert p in more && k in more[p];
    }
  }

  lemma ClashGrows(base: Paths, done: Paths, overlay: Paths)
    requires Clash(base, done) && forall p :: p in done ==> p in overlay && overlay[p] == done[p]
    ensures Clash(base, overlay)
  {
    var q, k :| q in base && q in done && k in base[q] && k in done[q];
    assert q in overlay && k in overlay[q];
  }

  /** Any order of the overlay's paths; false is the error, after which the base may be half merged. */
  method MergeOpenApiPaths(base: Spec, overlay: Paths) returns (ok: bool)
    modifies base`paths
    ensures ok <==> !Clash(old(base.paths), overlay)
    ensures ok ==> base.paths == Merged(old(base.paths), overlay)
  {
    hide Merged, Clash;
    ghost var b := base.paths;
    var rest, done: Paths := overlay.Keys, map[];
    NothingMerged(b);
    while rest != {}
      invariant rest <= overlay.Keys && done.Keys == overlay.Keys - rest
      invariant forall p :: p in done ==> done[p] == overlay[p]
      invariant base.paths == Merged(b, done) && !Clash(b, done)
    {
      var apiPath :| apiPath in rest;
      var methods := overlay[apiPath];
      MergedOn(b, done, apiPath, methods);
      ClashOn(b, done, apiPath, methods);
      rest := rest - {apiPath};
      done := done[apiPath := methods];
      if apiPath !in base.paths {
        base.paths := base.paths[apiPath := methods];
      } else {
        var clashes := set k | k in methods && k in base.paths[apiPath];
        assert forall k :: k in methods && k in b[apiPath] <==> k in clashes;
        if clashes != {} {
          var k :| k in clashes;
          ClashGrows(b, done, overlay);
          return false;
        }
        base.paths := base.paths[apiPath := base.paths[apiPath] + methods];
      }
    }
    assert done == overlay;
    return true;
  }

  lemma NothingMerged(base: Paths)
    ensures Merged(base, map[]) == base && !Clash(base, map[])
  {
  }

  /** The merge loses no entry, invents none and changes none. */
  lemma MergeConserves(base: Paths, overlay: Paths, p: string, k: string)
    requires !Clash(base, overlay)
    ensures ItemAt(Merged(base, overlay), p, k) ==
            if ItemAt(base, p, k).Some? then ItemAt(base, p, k) else ItemAt(overlay, p, k)
    ensures ItemAt(base, p, k).None? || ItemAt(overlay, p, k).None?
  {
  }

  // ----- integrations -----

  /** One Lambda for the path, or one per upper-case method with a fallback. */
  datatype Target = Simple(arn: string) | PerMethod(byMethod: map<string, string>, fallback: Option<string>)

  /** The Lambda for a method; "" when there is none. */
  function ArnFor(target: Target, httpMethod: string): string
  {
    match target
    case Simple(arn) => arn
    case PerMethod(byMethod, fallback) =>
      match Get(byMethod, Upper(httpMethod))
      case Some(arn) => arn
      case None => if fallback.Some? then fallback.value else ""
  }

  /** Which Lambda serves a method, the methods written out: its own, or else the default. */
  lemma ArnForIs(byMethod: map<string, string>, fallback: Option<string>, arn: string)
    ensures forall i :: 0 <= i < 6 ==>
              ArnFor(PerMethod(byMethod, fallback), ["get", "put", "post", "delete", "patch", "head"][i]) ==
              var own := ["GET", "PUT", "POST", "DELETE", "PATCH", "HEAD"][i];
              if own in byMethod then byMethod[own] else if fallback.Some? then fallback.value else ""
    ensures forall m :: ArnFor(Simple(arn), m) == arn
  {
    assert Upper("get") == "GET" && Upper("put") == "PUT" && Upper("post") == "POST";
    assert Upper("delete") == "DELETE" && Upper("patch") == "PATCH" && Upper("head") == "HEAD";
  }

  function InvokeUri(region: string, arn: string): string
  {
    "arn:aws:apigateway:" + region + ":lambda:path/2015-03-31/functions/" + arn + "/invocations"
  }

  const SECURITY_HEADERS := {
    "Strict-Transport-Security", "X-Content-Type-Options", "X-Frame-Options", "Cache-Control", "Referrer-Policy"}

  const STRING_HEADER := "string"

  function Hardened(headers: map<string, string>): map<string, string>
  {
    headers + map h | h in SECURITY_HEADERS :: STRING_HEADER
  }

  /** The security headers written out: all of them are declared, and every other header is kept. */
  lemma HardenedIff(headers: map<string, string>, h: string)
    ensures Get(Hardened(headers), h) ==
            if h in {"Strict-Transport-Security", "X-Content-Type-Options", "X-Frame-Options", "Cache-Control", "Referrer-Policy"}
            then Some("string") else Get(headers, h)
  {
  }

  function Integrated(op: Operation, uri: string): Operation
  {
    op.(responses := map r | r in op.responses :: Hardened(op.responses[r]), integration := Some(Integration(uri)))
  }

  predicate Integrates(item: PathItem, httpMethod: string)
  {
    httpMethod in HTTP_METHODS && httpMethod in item && item[httpMethod].Op?
  }

  /** The path has a mapping, and every operation under a listed method has a Lambda. */
  ghost predicate Served(p: string, item: PathItem, targets: map<string, Target>)
  {
    p in targets && targets[p] != Simple("") && forall m :: Integrates(item, m) ==> ArnFor(targets[p], m) != ""
  }

  function IntegratedItem(item: PathItem, target: Target, region: string): PathItem
  {
    map k | k in item ::
      if Integrates(item, k) then Op(Integrated(item[k].operation, InvokeUri(region, ArnFor(target, k)))) else item[k]
  }

  function IntegratedPaths(paths: Paths, targets: map<string, Target>, region: string): Paths
    requires forall p :: p in paths ==> p in targets
  {
    map p | p in paths :: IntegratedItem(paths[p], targets[p], region)
  }

  /** The loop over the listed methods of one path. None is the error. */
  method IntegratePath(item: PathItem, target: Target, region: string) returns (r: Option<PathItem>)
    ensures r.Some? <==> forall m :: Integrates(item, m) ==> ArnFor(target, m) != ""
    ensures r.Some? ==> r.value == IntegratedItem(item, target, region)
  {
    var current := item;
    for i := 0 to |HTTP_METHODS|
      invariant current.Keys == item.Keys
      invariant forall k :: k in item ==>
                  current[k] == if k in HTTP_METHODS[..i] then IntegratedItem(item, target, region)[k] else item[k]
      invariant forall m :: m in HTTP_METHODS[..i] && Integrates(item, m) ==> ArnFor(target, m) != ""
    {
      var httpMethod := HTTP_METHODS[i];
      assert HTTP_METHODS[..i + 1] == HTTP_METHODS[..i] + [httpMethod];
      if httpMethod in item && item[httpMethod].Op? {
        var arn := ArnFor(target, httpMethod);
        if arn == "" {
          assert Integrates(item, httpMethod);
          return None;
        }
        current := current[httpMethod := Op(Integrated(item[httpMethod].operation, InvokeUri(region, arn)))];
      }
    }
    assert HTTP_METHODS[..|HTTP_METHODS|] == HTTP_METHODS;
    assert current == IntegratedItem(item, target, region);
    return Some(current);
  }

  method InjectLambdaProxyIntegrations(spec: Spec, targets: map<string, Target>, region: string) returns (ok: bool)
    modifies spec`paths
    ensures ok <==> forall p :: p in old(spec.paths) ==> Served(p, old(spec.paths)[p], targets)
    ensures ok ==> spec.paths == IntegratedPaths(old(spec.paths), targets, region)
  {
    ghost var before := spec.paths;
    var rest := spec.paths.Keys;
    while rest != {}
      invariant rest <= before.Keys == spec.paths.Keys
      invariant forall p :: p in rest ==> spec.paths[p] == before[p]
      invariant forall p :: p in before.Keys - rest ==>
                  Served(p, before[p], targets) && spec.paths[p] == IntegratedItem(before[p], targets[p], region)
    {
      var apiPath :| apiPath in rest;
      if apiPath !in targets || targets[apiPath] == Simple("") { return false; }
      var item := IntegratePath(spec.paths[apiPath], targets[apiPath], region);
      if item.None? { return false; }
      spec.paths := spec.paths[apiPath := item.value];
      rest := rest - {apiPath};
    }
    return true;
  }

  // ----- the authorizer -----

  function FilledScheme(s: Scheme, uri: string, role: string): Scheme
  {
    if s.authorizer.None? then s
    else Scheme("apiKey", "Authorization", "header", None, None, Some(Authorizer(uri, role)))
  }

  function FilledSchemes(schemes: seq<(string, Scheme)>, uri: string, role: string): (r: seq<(string, Scheme)>)
    ensures |r| == |schemes|
    ensures forall i :: 0 <= i < |r| ==> r[i] == (schemes[i].0, FilledScheme(schemes[i].1, uri, role))
  {
    seq(|schemes|, i requires 0 <= i < |schemes| => (schemes[i].0, FilledScheme(schemes[i].1, uri, role)))
  }

  function SchemeNames(schemes: seq<(string, Scheme)>): (r: seq<string>)
    ensures |r| == |schemes| && forall i :: 0 <= i < |r| ==> r[i] == schemes[i].0
  {
    seq(|schemes|, i requires 0 <= i < |schemes| => schemes[i].0)
  }

  function Secured(op: Operation, open: bool, names: seq<string>): Operation
  {
    if open then op.(security := Some([]))
    else if op.security.None? then op.(security := Some(names))
    else op
  }

  function SecuredItem(item: PathItem, open: bool, names: seq<string>): PathItem
  {
    map k | k in item :: if Integrates(item, k) then Op(Secured(item[k].operation, open, names)) else item[k]
  }

  function SecuredPaths(paths: Paths, unsecured: set<string>, names: seq<string>): Paths
  {
    map p | p in paths :: SecuredItem(paths[p], p in unsecured, names)
  }

  method SecurePath(item: PathItem, open: bool, names: seq<string>) returns (r: PathItem)
    ensures r == SecuredItem(item, open, names)
  {
    r := item;
    for i := 0 to |HTTP_METHODS|
      invariant r.Keys == item.Keys
      invariant forall k :: k in item ==>
                  r[k] == if k in HTTP_METHODS[..i] then SecuredItem(item, open, names)[k] else item[k]
    {
      var httpMethod := HTTP_METHODS[i];
      assert HTTP_METHODS[..i + 1] == HTTP_METHODS[..i] + [httpMethod];
      if httpMethod in item && item[httpMethod].Op? {
        var op := item[httpMethod].operation;
        if open {
          r := r[httpMethod := Op(op.(security := Some([])))];
        } else if op.security.None? {
          r := r[httpMethod := Op(op.(security := Some(names)))];
        }
      }
    }
    assert HTTP_METHODS[..|HTTP_METHODS|] == HTTP_METHODS;
  }

  method FillAuthorizerParameters(spec: Spec, arn: string, role: string, region: string, unsecured: set<string>)
    modifies spec
    ensures spec.schemes == FilledSchemes(old(spec.schemes), InvokeUri(region, arn), role)
    ensures spec.paths == if old(spec.schemes) == [] then old(spec.paths)
                          else SecuredPaths(old(spec.paths), unsecured, SchemeNames(old(spec.schemes)))
  {
    ghost var before, declared := spec.paths, spec.schemes;
    var invokeUri := InvokeUri(region, arn);
    for i := 0 to |spec.schemes|
      invariant |spec.schemes| == |declared| && spec.paths == before
      invariant forall j :: 0 <= j < |declared| ==>
                  spec.schemes[j] == if j < i then FilledSchemes(declared, invokeUri, role)[j] else declared[j]
    {
      var (name, scheme) := spec.schemes[i];
      if scheme.authorizer.Some? {
        spec.schemes := spec.schemes[i := (name, Scheme("apiKey", "Authorization", "header", None, None, Some(Authorizer(invokeUri, role))))];
      }
    }
    assert spec.schemes == FilledSchemes(declared, invokeUri, role);
    if |spec.schemes| > 0 {
      var names := SchemeNames(spec.schemes);
      assert names == SchemeNames(declared);
      var rest := spec.paths.Keys;
      while rest != {}
        invariant rest <= before.Keys == spec.paths.Keys
        invariant spec.schemes == FilledSchemes(declared, invokeUri, role)
        invariant forall p :: p in before ==>
                    spec.paths[p] == if p in rest then before[p] else SecuredItem(before[p], p in unsecured, names)
      {
        var apiPath :| apiPath in rest;
        var item := SecurePath(spec.paths[apiPath], apiPath in unsecured, names);
        spec.paths := spec.paths[apiPath := item];
        rest := rest - {apiPath};
      }
    }
  }

  // ----- the pipeline -----

  /** Merge, then integrations, then the authorizer. */
  function Published(
      base: Paths, overlay: Paths, targets: map<string, Target>, region: string, unsecured: set<string>, names: seq<string>): Paths
    requires forall p :: p in Merged(base, overlay) ==> p in targets
  {
    var integrated := IntegratedPaths(Merged(base, overlay), targets, region);
    if names == [] then integrated else SecuredPaths(integrated, unsecured, names)
  }

  /** What an operation of either spec is in the published API. */
  function PublishedOperation(op: Operation, uri: string, open: bool, names: seq<string>): Operation
  {
    op.(responses := map r | r in op.responses :: Hardened(op.responses[r]),
        integration := Some(Integration(uri)),
        security := if names == [] then op.security else if open then Some([])
                    else if op.security.Some? then op.security else Some(names))
  }

  /** What either spec has under the path and key. */
  function Source(base: Paths, overlay: Paths, p: string, k: string): Option<Item>
  {
    if ItemAt(base, p, k).Some? then ItemAt(base, p, k) else ItemAt(overlay, p, k)
  }

  /**
   * The pipeline conserves operations. Every path and key of either spec is published, no other is.
   * Under a listed method the operation is integrated with its own Lambda, its declared responses
   * kept and hardened, and secured unless the path is open; everything else is published untouched.
   */
  ghost predicate Conserved(
      base: Paths, overlay: Paths, targets: map<string, Target>, region: string, unsecured: set<string>, names: seq<string>,
      published: Paths, p: string, k: string)
  {
    var source := Source(base, overlay, p, k);
    if source.Some? && k in {"get", "put", "post", "delete", "patch", "head"} && source.value.Op? then
      p in targets &&
      var uri := "arn:aws:apigateway:" + region + ":lambda:path/2015-03-31/functions/" + ArnFor(targets[p], k) + "/invocations";
      ItemAt(published, p, k) == Some(Op(PublishedOperation(source.value.operation, uri, p in unsecured, names)))
    else ItemAt(published, p, k) == source
  }

  lemma PipelineConserves(
      base: Paths, overlay: Paths, targets: map<string, Target>, region: string, unsecured: set<string>, names: seq<string>,
      p: string, k: string)
    requires !Clash(base, overlay) && forall p :: p in Merged(base, overlay) ==> p in targets
    ensures Conserved(base, overlay, targets, region, unsecured, names,
                      Published(base, overlay, targets, region, unsecured, names), p, k)
  {
    hide InvokeUri, ArnFor, PublishedOperation, Source, Published, Clash, Merged, HTTP_METHODS;
    PipelineAt(base, overlay, targets, region, unsecured, names, p, k);
    MethodsAre(k);
    if p in targets { UriIs(region, ArnFor(targets[p], k)); }
  }

  lemma PipelineAt(
      base: Paths, overlay: Paths, targets: map<string, Target>, region: string, unsecured: set<string>, names: seq<string>,
      p: string, k: string)
    requires !Clash(base, overlay) && forall p :: p in Merged(base, overlay) ==> p in targets
    ensures var source := Source(base, overlay, p, k);
            var published := ItemAt(Published(base, overlay, targets, region, unsecured, names), p, k);
            if source.Some? && k in HTTP_METHODS && source.value.Op? then
              p in targets &&
              published == Some(Op(PublishedOperation(
                source.value.operation, InvokeUri(region, ArnFor(targets[p], k)), p in unsecured, names)))
            else published == source
  {
    hide InvokeUri, ArnFor, Hardened, Merged, IntegratedPaths, SecuredPaths, Clash;
    MergeConserves(base, overlay, p, k);
    var merged := Merged(base, overlay);
    IntegratedAt(merged, targets, region, p, k);
    SecuredAt(IntegratedPaths(merged, targets, region), unsecured, names, p, k);
  }

  lemma MethodsAre(k: string)
    ensures k in HTTP_METHODS <==> k in {"get", "put", "post", "delete", "patch", "head"}
  {
    var ms := HTTP_METHODS;
    assert |ms| == 6 && ms[0] == "get" && ms[1] == "put" && ms[2] == "post";
    assert ms[3] == "delete" && ms[4] == "patch" && ms[5] == "head";
  }

  lemma UriIs(region: string, arn: string)
    ensures InvokeUri(region, arn) == "arn:aws:apigateway:" + region + ":lambda:path/2015-03-31/functions/" + arn + "/invocations"
  {
  }

  lemma IntegratedAt(paths: Paths, targets: map<string, Target>, region: string, p: string, k: string)
    requires forall p :: p in paths ==> p in targets
    ensures var item := ItemAt(paths, p, k);
            if item.Some? && k in HTTP_METHODS && item.value.Op? then
              p in targets &&
              ItemAt(IntegratedPaths(paths, targets, region), p, k) ==
              Some(Op(Integrated(item.value.operation, InvokeUri(region, ArnFor(targets[p], k)))))
            else ItemAt(IntegratedPaths(paths, targets, region), p, k) == item
  {
    hide InvokeUri, ArnFor, Integrated;
  }

  lemma SecuredAt(paths: Paths, unsecured: set<string>, names: seq<string>, p: string, k: string)
    ensures var item := ItemAt(paths, p, k);
            ItemAt(SecuredPaths(paths, unsecured, names), p, k) ==
            if item.Some? && k in HTTP_METHODS && item.value.Op?
            then Some(Op(Secured(item.value.operation, p in unsecured, names))) else item
  {
    hide Secured;
  }

  /** The specs fit together: no clash, and every path and listed operation of the union has a Lambda. */
  ghost predicate Publishable(base: Paths, overlay: Paths, targets: map<string, Target>)
  {
    !Clash(base, overlay) && forall p :: p in Merged(base, overlay) ==> Served(p, Merged(base, overlay)[p], targets)
  }

  /** The three passes in the order of the API stack; false is the error of one of the first two. */
  method PublishSpec(
      spec: Spec, overlay: Paths, targets: map<string, Target>, region: string, authorizerArn: string, role: string,
      unsecured: set<string>)
    returns (ok: bool)
    modifies spec
    ensures ok <==> Publishable(old(spec.paths), overlay, targets)
    ensures ok ==> spec.schemes == FilledSchemes(old(spec.schemes),
              "arn:aws:apigateway:" + region + ":lambda:path/2015-03-31/functions/" + authorizerArn + "/invocations", role)
    ensures ok ==> forall p, k ::
              Conserved(old(spec.paths), overlay, targets, region, unsecured, SchemeNames(old(spec.schemes)), spec.paths, p, k)
    ensures ok ==> forall p, k :: NeverUnserved(old(spec.paths), overlay, targets, p, k)
  {
    hide Conserved, Clash, Merged, Served, NeverUnserved, IntegratedPaths, SecuredPaths;
    ghost var base, names := spec.paths, SchemeNames(spec.schemes);
    ok := MergeOpenApiPaths(spec, overlay);
    if !ok { return; }
    ok := InjectLambdaProxyIntegrations(spec, targets, region);
    if !ok { return; }
    forall p | p in Merged(base, overlay) ensures p in targets { ServedIsMapped(p, Merged(base, overlay)[p], targets); }
    FillAuthorizerParameters(spec, authorizerArn, role, region, unsecured);
    assert spec.paths == Published(base, overlay, targets, region, unsecured, names);
    forall p, k
      ensures Conserved(base, overlay, targets, region, unsecured, names, spec.paths, p, k)
      ensures NeverUnserved(base, overlay, targets, p, k)
    {
      PipelineConserves(base, overlay, targets, region, unsecured, names, p, k);
      EveryOneServed(base, overlay, targets, p, k);
    }
  }

  lemma ServedIsMapped(p: string, item: PathItem, targets: map<string, Target>)
    requires Served(p, item, targets)
    ensures p in targets
  {
  }

  /** An operation under a listed method goes to some Lambda. */
  ghost predicate NeverUnserved(base: Paths, overlay: Paths, targets: map<string, Target>, p: string, k: string)
  {
    var source := Source(base, overlay, p, k);
    source.Some? && k in HTTP_METHODS && source.value.Op? ==> p in targets && ArnFor(targets[p], k) != ""
  }

  lemma EveryOneServed(base: Paths, overlay: Paths, targets: map<string, Target>, p: string, k: string)
    requires Publishable(base, overlay, targets)
    ensures NeverUnserved(base, overlay, targets, p, k)
  {
    hide ArnFor;
    MergeConserves(base, overlay, p, k);
    var merged := Merged(base, overlay);
    if p in merged && k in merged[p] {
      assert Served(p, merged[p], targets);
      assert Integrates(merged[p], k) ==> ArnFor(targets[p], k) != "";
    }
  }
}
