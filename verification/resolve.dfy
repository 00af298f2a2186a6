/** `parse_wit` (src/utils.rs:8-44): builds one WIT `Resolve` from a list of
    source paths and selects the world to target.

    The wit-parser crate is not part of this model. Its `Resolve::push_path`
    and `Resolve::select_world` are taken as parameters (`push` and `select`);
    the package graph they maintain is the type parameter `G`, and the empty
    graph of `Resolve::default()` is the parameter `empty`. */
module WitResolve {
  import opened Results
  import opened Features

  /** Arena indices the crate hands out for packages and worlds. */
  type PackageId = nat
  type WorldId = nat

  /** The crate's `Resolve` as `parse_wit` sees it: the two feature settings
      it fills in, and the package graph only the crate reads or changes. */
  datatype Resolve<G> = Resolve(allFeatures: bool, features: set<string>, graph: G)

  /** An error raised inside the crate and propagated by `?`. */
  datatype WitError = WitError(message: string)

  /** `Resolve::push_path`: reads the resolve (its feature settings decide
      which gated items are kept), returns the grown graph and the id of the
      package the path defines. */
  type PushPath<!G> = (Resolve<G>, string) -> Result<(G, PackageId), WitError>

  /** `Resolve::select_world` over the main packages and the optional name. */
  type SelectWorld<!G> = (Resolve<G>, seq<PackageId>, Option<string>) -> Result<WorldId, WitError>

  /** The source directory used when no path is given. */
  const DefaultPath: string := "wit"

  /** The paths `parse_wit` actually pushes: the given ones, or `wit` alone. */
  function SourcePaths(paths: seq<string>): (r: seq<string>)
    ensures |r| >= 1
    ensures |paths| > 0 ==> r == paths
    ensures |paths| == 0 ==> r == [DefaultPath]
  {
    if |paths| == 0 then [DefaultPath] else paths
  }

  /** The resolve before any path is pushed (src/utils.rs:22-34). */
  function InitialResolve<G>(features: seq<string>, allFeatures: bool, empty: G): (r: Resolve<G>)
    ensures r.allFeatures == allFeatures
    ensures forall t :: t in r.features <==> exists arg :: arg in features && t in Tokens(arg)
    ensures r.graph == empty
  {
    forall t ensures t in FeatureSet(features) <==> exists arg :: arg in features && t in Tokens(arg) {
      FeatureSetMembers(features, t);
    }
    Resolve(allFeatures, FeatureSet(features), empty)
  }

  /** The loop of src/utils.rs:36-40: pushes every path in order, recording
      the package each one defines; the first failing push ends it. */
  function PushAll<G>(r: Resolve<G>, paths: seq<string>, push: PushPath<G>)
    : (res: Result<(Resolve<G>, seq<PackageId>), WitError>)
    ensures |paths| == 0 ==> res == Ok((r, []))
    ensures res.Ok? ==> |res.value.1| == |paths|
    ensures res.Ok? ==> res.value.0.allFeatures == r.allFeatures
    ensures res.Ok? ==> res.value.0.features == r.features
    ensures res.Ok? && |paths| > 0 ==>
      push(r, paths[0]).Ok? && res.value.1[0] == push(r, paths[0]).value.1
    ensures |paths| > 0 && push(r, paths[0]).Err? ==> res == Err(push(r, paths[0]).error)
    decreases |paths|
  {
    if |paths| == 0 then Ok((r, []))
    else
      match push(r, paths[0])
      case Err(e) => Err(e)
      case Ok((graph, pkg)) =>
        match PushAll(r.(graph := graph), paths[1..], push)
        case Err(e) => Err(e)
        case Ok((r', pkgs)) => Ok((r', [pkg] + pkgs))
  }

  /** Pushing one path records its package on success and passes its error
      on otherwise; with `PushAllAppend` this makes `PushAll` the in-order
      loop of src/utils.rs:37-40. */
  lemma PushAllSingle<G>(r: Resolve<G>, x: string, push: PushPath<G>)
    ensures push(r, x).Err? ==> PushAll(r, [x], push) == Err(push(r, x).error)
    ensures push(r, x).Ok? ==>
      PushAll(r, [x], push) == Ok((r.(graph := push(r, x).value.0), [push(r, x).value.1]))
  {
    assert [x][1..] == [];
    if push(r, x).Ok? {
      var (graph, pkg) := push(r, x).value;
      assert PushAll(r.(graph := graph), [], push) == Ok((r.(graph := graph), []));
      assert [pkg] + [] == [pkg];
    }
  }

  /** Pushing two batches of paths is pushing the first batch and then the
      second from where the first left off: the main packages come out in
      input order, and a failure in the first batch is the failure of the
      whole. */
  lemma {:induction false} PushAllAppend<G>(r: Resolve<G>, a: seq<string>, b: seq<string>, push: PushPath<G>)
    ensures PushAll(r, a, push).Err? ==> PushAll(r, a + b, push) == PushAll(r, a, push)
    ensures PushAll(r, a, push).Ok? ==>
      var (r1, pa) := PushAll(r, a, push).value;
      PushAll(r, a + b, push) ==
        match PushAll(r1, b, push)
        case Err(e) => Err(e)
        case Ok((r2, pb)) => Ok((r2, pa + pb))
    decreases |a|
  {
    if |a| == 0 {
      assert a + b == b;
      match PushAll(r, b, push)
      case Err(e) =>
      case Ok((r2, pb)) => assert [] + pb == pb;
    } else {
      assert (a + b)[0] == a[0];
      assert (a + b)[1..] == a[1..] + b;
      match push(r, a[0])
      case Err(e) =>
      case Ok((graph, pkg)) =>
        PushAllAppend(r.(graph := graph), a[1..], b, push);
        match PushAll(r.(graph := graph), a[1..], push)
        case Err(e) =>
        case Ok((r1, pa)) =>
          match PushAll(r1, b, push)
          case Err(e) =>
          case Ok((r2, pb)) => assert [pkg] + (pa + pb) == ([pkg] + pa) + pb;
    }
  }

  /** `parse_wit`: substitutes the default path for an empty list, seeds the
      resolve with the feature settings, pushes every path and selects the
      world among the packages they define. */
  function ParseWit<G>(paths: seq<string>, world: Option<string>, features: seq<string>,
                       allFeatures: bool, empty: G, push: PushPath<G>, select: SelectWorld<G>)
    : (res: Result<(Resolve<G>, WorldId), WitError>)
    ensures res.Ok? ==> res.value.0.allFeatures == allFeatures
    ensures res.Ok? ==> res.value.0.features == FeatureSet(features)
    ensures res.Ok? <==>
      && PushAll(InitialResolve(features, allFeatures, empty), SourcePaths(paths), push).Ok?
      && var (r, mains) := PushAll(InitialResolve(features, allFeatures, empty), SourcePaths(paths), push).value;
         select(r, mains, world).Ok?
    ensures res.Ok? ==>
      var (r, mains) := PushAll(InitialResolve(features, allFeatures, empty), SourcePaths(paths), push).value;
      |mains| == |SourcePaths(paths)| && res == Ok((r, select(r, mains, world).value))
    ensures var pushed := PushAll(InitialResolve(features, allFeatures, empty), SourcePaths(paths), push);
      pushed.Err? ==> res == Err(pushed.error)
    ensures var pushed := PushAll(InitialResolve(features, allFeatures, empty), SourcePaths(paths), push);
      pushed.Ok? && select(pushed.value.0, pushed.value.1, world).Err? ==>
        res == Err(select(pushed.value.0, pushed.value.1, world).error)
    decreases if |paths| == 0 then 1 else 0
  {
    if |paths| == 0 then
      ParseWit([DefaultPath], world, features, allFeatures, empty, push, select)
    else
      var resolve := Resolve(allFeatures, FeatureSet(features), empty);
      match PushAll(resolve, paths, push)
      case Err(e) => Err(e)
      case Ok((resolve', mains)) =>
        match select(resolve', mains, world)
        case Err(e) => Err(e)
        case Ok(w) => Ok((resolve', w))
  }

  /** An empty path list behaves exactly as the one-element list `["wit"]`. */
  lemma ParseWitDefaultsToWit<G>(world: Option<string>, features: seq<string>, allFeatures: bool,
                                 empty: G, push: PushPath<G>, select: SelectWorld<G>)
    ensures ParseWit([], world, features, allFeatures, empty, push, select)
         == ParseWit([DefaultPath], world, features, allFeatures, empty, push, select)
  {
  }
}
