/** The endpoint directory of the balancer: an immutable snapshot that splits the
    discovered endpoints into preferred and fallback ones, indexes them by node
    identifier and picks one endpoint per call. */
module Cluster {
  import opened Wrappers

  /** What the directory needs of an endpoint: its node identifier, its network
      address (eviction compares addresses) and its location (filters look at it). */
  datatype Endpoint = Endpoint(nodeId: uint32, address: string, location: string)

  /** The snapshot. A nil `*Cluster` is `None` of `Option<Cluster>`. The shared
      random source is not a field: every draw is an input of `Next`. */
  datatype Cluster = Cluster(
    filter: Endpoint -> bool,
    allowFallback: bool,
    index: map<uint32, Endpoint>,
    prefer: seq<Endpoint>,
    fallback: seq<Endpoint>,
    all: seq<Endpoint>)

  /** The construction options `WithFilter` and `WithFallback`. */
  datatype ClusterOption =
    | WithFilter(filter: Endpoint -> bool)
    | WithFallback(allowFallback: bool)

  /** The context error `ctx.Err()` reports. */
  datatype ContextError = Canceled | DeadlineExceeded

  datatype NextError =
    | ErrNilPtr
    | ContextErr(cause: ContextError)
    | ErrNoEndpoints

  /** The filter a snapshot starts with: every endpoint is preferred. */
  function AcceptAll(): Endpoint -> bool {
    e => true
  }

  // ---------------------------------------------------------------------------
  // Specification functions
  // ---------------------------------------------------------------------------

  /** The order-preserving partition of `s` by `f` (`xslices.Split`):
      accepted endpoints first, rejected ones second. */
  function Split(s: seq<Endpoint>, f: Endpoint -> bool): (seq<Endpoint>, seq<Endpoint>) {
    if s == [] then ([], [])
    else
      var rest := Split(s[..|s| - 1], f);
      var e := s[|s| - 1];
      if f(e) then (rest.0 + [e], rest.1) else (rest.0, rest.1 + [e])
  }

  /** The split is a partition: the accepted half holds exactly the accepted
      endpoints, the other half the rejected ones, and together they are a
      permutation of the input. */
  lemma {:induction false} SplitPartitions(s: seq<Endpoint>, f: Endpoint -> bool)
    ensures forall e :: e in Split(s, f).0 <==> e in s && f(e)
    ensures forall e :: e in Split(s, f).1 <==> e in s && !f(e)
    ensures multiset(Split(s, f).0) + multiset(Split(s, f).1) == multiset(s)
  {
    if s != [] {
      var e := s[|s| - 1];
      SplitPartitions(s[..|s| - 1], f);
      assert s == s[..|s| - 1] + [e];
    }
  }

  /** One more endpoint goes to the end of the half that `f` sends it to. */
  lemma SplitSnoc(s: seq<Endpoint>, e: Endpoint, f: Endpoint -> bool)
    ensures Split(s + [e], f) == if f(e) then (Split(s, f).0 + [e], Split(s, f).1)
                                  else (Split(s, f).0, Split(s, f).1 + [e])
  {
    assert (s + [e])[..|s|] == s;
  }

  /** An endpoint survives eviction of `address` exactly when its address differs. */
  lemma AddressDiffersMeans(address: string, e: Endpoint)
    ensures AddressDiffers(address)(e) <==> e.address != address
  {
  }

  /** The node-identifier index of `s` (`xslices.Map`); a later endpoint with
      the same node identifier replaces an earlier one. */
  function NodeIndex(s: seq<Endpoint>): map<uint32, Endpoint> {
    if s == [] then map[]
    else
      var e := s[|s| - 1];
      NodeIndex(s[..|s| - 1])[e.nodeId := e]
  }

  /** The index knows exactly the node identifiers of `s`, and maps each to an
      endpoint of `s` with that identifier. */
  lemma {:induction false} NodeIndexCovers(s: seq<Endpoint>)
    ensures NodeIndex(s).Keys == set e | e in s :: e.nodeId
    ensures forall id :: id in NodeIndex(s) ==> NodeIndex(s)[id] in s && NodeIndex(s)[id].nodeId == id
  {
    if s != [] {
      var e := s[|s| - 1];
      NodeIndexCovers(s[..|s| - 1]);
      assert s == s[..|s| - 1] + [e];
    }
  }

  /** The filter after applying `opts` in order: the last `WithFilter` wins. */
  function FilterOf(opts: seq<ClusterOption>): Endpoint -> bool {
    if opts == [] then AcceptAll()
    else
      match opts[|opts| - 1]
      case WithFilter(f) => f
      case WithFallback(_) => FilterOf(opts[..|opts| - 1])
  }

  /** The fallback flag after applying `opts` in order: the last `WithFallback` wins. */
  function FallbackOf(opts: seq<ClusterOption>): bool {
    if opts == [] then false
    else
      match opts[|opts| - 1]
      case WithFilter(_) => FallbackOf(opts[..|opts| - 1])
      case WithFallback(b) => b
  }

  /** The snapshot `New(endpoints, opts...)` builds. */
  function Built(endpoints: seq<Endpoint>, opts: seq<ClusterOption>): Cluster {
    var f := FilterOf(opts);
    var fb := FallbackOf(opts);
    var parts := Split(endpoints, f);
    if fb then Cluster(f, fb, NodeIndex(endpoints), parts.0, parts.1, endpoints)
    else Cluster(f, fb, NodeIndex(parts.0), parts.0, [], parts.0)
  }

  /** Whether an endpoint survives eviction of the endpoint at `address`. */
  function AddressDiffers(address: string): Endpoint -> bool {
    (e: Endpoint) => e.address != address
  }

  /** The preferred endpoints `Without` keeps: one pass over `prefer` per
      excluded endpoint, the passes concatenated. */
  function KeptPasses(prefer: seq<Endpoint>, excluded: seq<Endpoint>): seq<Endpoint> {
    if excluded == [] then []
    else
      KeptPasses(prefer, excluded[..|excluded| - 1])
        + Split(prefer, AddressDiffers(excluded[|excluded| - 1].address)).0
  }

  /** The preferred endpoints `Without` appends to the fallback, pass by pass. */
  function EvictedPasses(prefer: seq<Endpoint>, excluded: seq<Endpoint>): seq<Endpoint> {
    if excluded == [] then []
    else
      EvictedPasses(prefer, excluded[..|excluded| - 1])
        + Split(prefer, AddressDiffers(excluded[|excluded| - 1].address)).1
  }

  /** The snapshot `Without(c, excluded...)` builds. */
  function Evicted(c: Cluster, excluded: seq<Endpoint>): Cluster {
    Cluster(c.filter, c.allowFallback, c.index,
            KeptPasses(c.prefer, excluded),
            c.fallback + EvictedPasses(c.prefer, excluded),
            c.all)
  }

  /** The shape `New` gives a snapshot: `prefer` and `fallback` partition `all`
      when fallback is allowed; otherwise there is no fallback and `all` is
      `prefer`. The index covers exactly `all`. */
  ghost predicate WellFormed(c: Cluster) {
    && (forall e :: e in c.prefer ==> c.filter(e))
    && (forall e :: e in c.fallback ==> !c.filter(e))
    && (c.allowFallback ==> multiset(c.prefer) + multiset(c.fallback) == multiset(c.all))
    && (!c.allowFallback ==> c.fallback == [] && c.all == c.prefer)
    && c.index == NodeIndex(c.all)
  }

  // ---------------------------------------------------------------------------
  // Operations
  // ---------------------------------------------------------------------------

  /** `New`: applies the options to a snapshot that accepts every endpoint,
      splits the endpoints by the resulting filter and builds the index. */
  method New(endpoints: seq<Endpoint>, opts: seq<ClusterOption>) returns (c: Cluster)
    ensures c.filter == FilterOf(opts) && c.allowFallback == FallbackOf(opts)
    ensures c.prefer == Split(endpoints, c.filter).0
    ensures c.allowFallback ==> c.fallback == Split(endpoints, c.filter).1 && c.all == endpoints
    ensures !c.allowFallback ==> c.fallback == [] && c.all == c.prefer
    ensures c.index.Keys == set e | e in c.all :: e.nodeId
    ensures forall id :: id in c.index ==> c.index[id] in c.all && c.index[id].nodeId == id
    ensures WellFormed(c)
  {
    var filter := AcceptAll();
    var allowFallback := false;
    for i := 0 to |opts|
      invariant filter == FilterOf(opts[..i]) && allowFallback == FallbackOf(opts[..i])
    {
      assert opts[..i + 1][..i] == opts[..i];
      match opts[i]
      case WithFilter(f) => filter := f;
      case WithFallback(b) => allowFallback := b;
    }
    assert opts[..|opts|] == opts;

    // xslices.Split
    var prefer, fallback := [], [];
    for i := 0 to |endpoints|
      invariant (prefer, fallback) == Split(endpoints[..i], filter)
    {
      assert endpoints[..i + 1][..i] == endpoints[..i];
      if filter(endpoints[i]) {
        prefer := prefer + [endpoints[i]];
      } else {
        fallback := fallback + [endpoints[i]];
      }
    }
    assert endpoints[..|endpoints|] == endpoints;

    var all := endpoints;
    if !allowFallback {
      all := prefer;
      fallback := [];
    }

    // xslices.Map, keyed by node identifier
    var index := map[];
    for i := 0 to |all|
      invariant index == NodeIndex(all[..i])
    {
      assert all[..i + 1][..i] == all[..i];
      index := index[all[i].nodeId := all[i]];
    }
    assert all[..|all|] == all;

    SplitPartitions(endpoints, filter);
    NodeIndexCovers(all);
    c := Cluster(filter, allowFallback, index, prefer, fallback, all);
  }

  /** `All`: the endpoints the snapshot was built from; none for a nil snapshot. */
  function All(s: Option<Cluster>): (r: seq<Endpoint>)
    ensures s.None? ==> r == []
    ensures s.Some? ==> r == s.value.all
  {
    if s.None? then [] else s.value.all
  }

  /** `Without`: a new snapshot whose `prefer` is one pass over the old `prefer`
      per excluded endpoint (entries with a different address are kept) and
      whose `fallback` is the old `fallback` followed by the entries each pass
      dropped. Filter, fallback flag, index and `all` are carried over. */
  method Without(c: Cluster, excluded: seq<Endpoint>) returns (r: Cluster)
    ensures r.filter == c.filter && r.allowFallback == c.allowFallback
    ensures r.index == c.index && r.all == c.all
    ensures r.prefer == KeptPasses(c.prefer, excluded)
    ensures r.fallback == c.fallback + EvictedPasses(c.prefer, excluded)
  {
    var prefer: seq<Endpoint> := [];
    var fallback := c.fallback;
    for k := 0 to |excluded|
      invariant prefer == KeptPasses(c.prefer, excluded[..k])
      invariant fallback == c.fallback + EvictedPasses(c.prefer, excluded[..k])
    {
      var kept, evicted := Pass(c.prefer, excluded[k].address);
      prefer := prefer + kept;
      fallback := fallback + evicted;
      PassesSnoc(c.prefer, excluded, k);
    }
    assert excluded[..|excluded|] == excluded;
    r := Cluster(c.filter, c.allowFallback, c.index, prefer, fallback, c.all);
  }

  /** The inner loop of `Without`: the preferred endpoints whose address
      differs from `address`, and the others, both in order. */
  method Pass(prefer: seq<Endpoint>, address: string) returns (kept: seq<Endpoint>, evicted: seq<Endpoint>)
    ensures (kept, evicted) == Split(prefer, AddressDiffers(address))
  {
    kept, evicted := [], [];
    for i := 0 to |prefer|
      invariant (kept, evicted) == Split(prefer[..i], AddressDiffers(address))
    {
      assert prefer[..i + 1] == prefer[..i] + [prefer[i]];
      SplitSnoc(prefer[..i], prefer[i], AddressDiffers(address));
      AddressDiffersMeans(address, prefer[i]);
      if prefer[i].address != address {
        kept := kept + [prefer[i]];
      } else {
        evicted := evicted + [prefer[i]];
      }
    }
    assert prefer[..|prefer|] == prefer;
  }

  /** The passes over the first `k + 1` excluded endpoints are those over the
      first `k` followed by the pass for endpoint `k`. */
  lemma PassesSnoc(prefer: seq<Endpoint>, excluded: seq<Endpoint>, k: nat)
    requires k < |excluded|
    ensures KeptPasses(prefer, excluded[..k + 1])
            == KeptPasses(prefer, excluded[..k]) + Split(prefer, AddressDiffers(excluded[k].address)).0
    ensures EvictedPasses(prefer, excluded[..k + 1])
            == EvictedPasses(prefer, excluded[..k]) + Split(prefer, AddressDiffers(excluded[k].address)).1
  {
    assert excluded[..k + 1][..k] == excluded[..k];
  }

  /** `Next`: a nil snapshot and a finished context are errors; a pinned node
      identifier present in the index wins; otherwise a drawn preferred
      endpoint, else a drawn fallback endpoint, else no endpoint. `draw`
      stands for the random source: `rand.Int(l)` is `draw % l`, which ranges
      over every index below `l`. */
  function Next(s: Option<Cluster>, ctxErr: Option<ContextError>, pinned: Option<uint32>,
                draw: nat): (r: Result<Endpoint, NextError>)
    ensures s.None? ==> r == Err(ErrNilPtr)
    ensures s.Some? && ctxErr.Some? ==> r == Err(ContextErr(ctxErr.value))
    ensures s.Some? && ctxErr.None? && pinned.Some? && pinned.value in s.value.index ==>
              r == Ok(s.value.index[pinned.value])
    ensures s.Some? && ctxErr.None? && !(pinned.Some? && pinned.value in s.value.index) ==>
              && (s.value.prefer != [] ==> r.Ok? && r.value in s.value.prefer)
              && (s.value.prefer == [] && s.value.fallback != [] ==>
                    r.Ok? && r.value in s.value.fallback)
              && (s.value.prefer == [] && s.value.fallback == [] ==> r == Err(ErrNoEndpoints))
  {
    if s.None? then Err(ErrNilPtr)
    else if ctxErr.Some? then Err(ContextErr(ctxErr.value))
    else
      var c := s.value;
      if pinned.Some? && pinned.value in c.index then Ok(c.index[pinned.value])
      else if |c.prefer| > 0 then Ok(c.prefer[draw % |c.prefer|])
      else if |c.fallback| > 0 then Ok(c.fallback[draw % |c.fallback|])
      else Err(ErrNoEndpoints)
  }

  // ---------------------------------------------------------------------------
  // Properties
  // ---------------------------------------------------------------------------

  /** Options apply in order and a later option overrides an earlier one of the
      same kind, leaving the other setting alone. */
  lemma {:induction false} LaterOptionWins(opts: seq<ClusterOption>, f: Endpoint -> bool, b: bool)
    ensures FilterOf(opts + [WithFilter(f)]) == f
    ensures FallbackOf(opts + [WithFilter(f)]) == FallbackOf(opts)
    ensures FallbackOf(opts + [WithFallback(b)]) == b
    ensures FilterOf(opts + [WithFallback(b)]) == FilterOf(opts)
  {
    assert (opts + [WithFilter(f)])[..|opts|] == opts;
    assert (opts + [WithFallback(b)])[..|opts|] == opts;
  }

  /** Without a `WithFilter` option every endpoint is preferred. */
  lemma {:induction false} NoFilterOptionPrefersAll(opts: seq<ClusterOption>, endpoints: seq<Endpoint>)
    requires forall i :: 0 <= i < |opts| ==> opts[i].WithFallback?
    ensures Built(endpoints, opts).prefer == endpoints
    ensures Built(endpoints, opts).fallback == []
  {
    AcceptAllWithoutFilterOption(opts);
    SplitAcceptAll(endpoints, FilterOf(opts));
  }

  lemma {:induction false} AcceptAllWithoutFilterOption(opts: seq<ClusterOption>)
    requires forall i :: 0 <= i < |opts| ==> opts[i].WithFallback?
    ensures forall e :: FilterOf(opts)(e)
  {
    if opts != [] {
      AcceptAllWithoutFilterOption(opts[..|opts| - 1]);
    }
  }

  lemma {:induction false} SplitAcceptAll(s: seq<Endpoint>, f: Endpoint -> bool)
    requires forall e :: f(e)
    ensures Split(s, f) == (s, [])
  {
    if s != [] {
      SplitAcceptAll(s[..|s| - 1], f);
      assert s == s[..|s| - 1] + [s[|s| - 1]];
    }
  }

  /** The split keeps the input order: each half is the input with the other
      half's endpoints left out, so an endpoint's position in `prefer` follows
      its position among the accepted input endpoints. */
  lemma {:induction false} SplitOrder(s: seq<Endpoint>, f: Endpoint -> bool, i: nat)
    requires i < |s|
    ensures f(s[i]) ==> Split(s[..i], f).0 + [s[i]] == Split(s[..i + 1], f).0
    ensures !f(s[i]) ==> Split(s[..i], f).1 + [s[i]] == Split(s[..i + 1], f).1
  {
    assert s[..i + 1][..i] == s[..i];
  }

  /** What `New` promises, stated of the snapshot: it is well formed, its
      `prefer` holds the accepted endpoints, and with fallback disallowed the
      index knows exactly the preferred node identifiers. */
  lemma {:induction false} BuiltWellFormed(endpoints: seq<Endpoint>, opts: seq<ClusterOption>)
    ensures WellFormed(Built(endpoints, opts))
    ensures forall e :: e in Built(endpoints, opts).prefer <==> e in endpoints && FilterOf(opts)(e)
    ensures FallbackOf(opts) ==> Built(endpoints, opts).index.Keys == set e | e in endpoints :: e.nodeId
    ensures !FallbackOf(opts) ==>
              Built(endpoints, opts).index.Keys == set e | e in endpoints && FilterOf(opts)(e) :: e.nodeId
  {
    var c := Built(endpoints, opts);
    SplitPartitions(endpoints, FilterOf(opts));
    NodeIndexCovers(c.all);
    if !FallbackOf(opts) {
      var parts := Split(endpoints, FilterOf(opts));
      assert c.index.Keys == set e | e in parts.0 :: e.nodeId;
      assert forall e :: e in parts.0 <==> e in endpoints && FilterOf(opts)(e);
    }
  }

  /** A pinned node identifier found in the index is returned whatever the draw. */
  lemma PinnedIgnoresDraw(c: Cluster, id: uint32, draw1: nat, draw2: nat)
    requires id in c.index
    ensures Next(Some(c), None, Some(id), draw1) == Next(Some(c), None, Some(id), draw2) == Ok(c.index[id])
  {
  }

  /** A pinned node identifier missing from the index is no error: selection
      goes on as if nothing were pinned. */
  lemma AbsentPinFallsThrough(c: Cluster, id: uint32, draw: nat)
    requires id !in c.index
    ensures Next(Some(c), None, Some(id), draw) == Next(Some(c), None, None, draw)
  {
  }

  /** Every preferred endpoint is selected by some draw, and so is every
      fallback endpoint once `prefer` is empty. */
  lemma {:induction false} EveryCandidateReachable(c: Cluster, e: Endpoint)
    requires e in c.prefer || (c.prefer == [] && e in c.fallback)
    ensures exists draw: nat :: Next(Some(c), None, None, draw) == Ok(e)
  {
    if e in c.prefer {
      var i :| 0 <= i < |c.prefer| && c.prefer[i] == e;
      PreferredDraw(c, i);
    } else {
      var i :| 0 <= i < |c.fallback| && c.fallback[i] == e;
      FallbackDraw(c, i);
    }
  }

  lemma PreferredDraw(c: Cluster, i: nat)
    requires i < |c.prefer|
    ensures Next(Some(c), None, None, i) == Ok(c.prefer[i])
  {
    assert i % |c.prefer| == i;
  }

  lemma FallbackDraw(c: Cluster, i: nat)
    requires c.prefer == [] && i < |c.fallback|
    ensures Next(Some(c), None, None, i) == Ok(c.fallback[i])
  {
    assert i % |c.fallback| == i;
  }

  /** `Without` leaves `All()` and the index alone, so a pinned node identifier
      still reaches an evicted endpoint. */
  lemma {:induction false} WithoutKeepsMembership(c: Cluster, excluded: seq<Endpoint>,
                                                  pinned: Option<uint32>, draw: nat)
    requires pinned.Some? && pinned.value in c.index
    ensures All(Some(Evicted(c, excluded))) == All(Some(c))
    ensures Next(Some(Evicted(c, excluded)), None, pinned, draw) == Next(Some(c), None, pinned, draw)
  {
  }

  /** Evicting one endpoint keeps, in order, the preferred endpoints whose address
      differs, and appends the matching ones after the old fallback; this also
      happens when fallback is disallowed. */
  lemma {:induction false} WithoutOne(c: Cluster, x: Endpoint)
    ensures Evicted(c, [x]).prefer == Split(c.prefer, AddressDiffers(x.address)).0
    ensures Evicted(c, [x]).fallback == c.fallback + Split(c.prefer, AddressDiffers(x.address)).1
  {
    assert [x][..0] == [] && [x][..1] == [x];
    PassesSnoc(c.prefer, [x], 0);
  }

  /** Evicting one endpoint keeps exactly the preferred endpoints with another
      address, and moves every one with its address to the fallback. */
  lemma WithoutOneMembers(c: Cluster, x: Endpoint)
    ensures forall e :: e in Evicted(c, [x]).prefer <==> e in c.prefer && e.address != x.address
    ensures forall e :: e in c.prefer && e.address == x.address ==> e in Evicted(c, [x]).fallback
  {
    WithoutOne(c, x);
    var parts := Split(c.prefer, AddressDiffers(x.address));
    SplitPartitions(c.prefer, AddressDiffers(x.address));
    forall e
      ensures e in parts.0 <==> e in c.prefer && e.address != x.address
      ensures e in parts.1 <==> e in c.prefer && e.address == x.address
    {
      AddressDiffersMeans(x.address, e);
    }
  }

  /** Evicting nothing empties `prefer`. */
  lemma WithoutNothing(c: Cluster)
    ensures Evicted(c, []).prefer == []
    ensures Evicted(c, []).fallback == c.fallback
  {
  }

  /** The split of a two-element sequence, spelled out. */
  lemma SplitPair(a: Endpoint, b: Endpoint, f: Endpoint -> bool)
    ensures Split([a, b], f).0 == (if f(a) then [a] else []) + (if f(b) then [b] else [])
    ensures Split([a, b], f).1 == (if f(a) then [] else [a]) + (if f(b) then [] else [b])
  {
    SplitSnoc([], a, f);
    assert [a] == [] + [a];
    SplitSnoc([a], b, f);
    assert [a, b] == [a] + [b];
  }

  /** With two excluded endpoints each pass keeps what the other dropped: the
      evicted entries come back into `prefer`. */
  lemma WithoutTwoReadmits(a: Endpoint, b: Endpoint)
    requires a.address != b.address
    ensures var c := Cluster(AcceptAll(), true, NodeIndex([a, b]), [a, b], [], [a, b]);
            Evicted(c, [a, b]).prefer == [b, a] && Evicted(c, [a, b]).fallback == [a, b]
  {
    assert [a, b][..0] == [] && [a, b][..1] == [a] && [a, b][..2] == [a, b];
    PassesSnoc([a, b], [a, b], 0);
    PassesSnoc([a, b], [a, b], 1);
    AddressDiffersMeans(a.address, a);
    AddressDiffersMeans(a.address, b);
    AddressDiffersMeans(b.address, a);
    AddressDiffersMeans(b.address, b);
    SplitPair(a, b, AddressDiffers(a.address));
    SplitPair(a, b, AddressDiffers(b.address));
  }

  /** Eviction under fallback keeps the evicted endpoint reachable: with
      `prefer = [e1, e2]`, evicting `e1` leaves `prefer = [e2]` and puts `e1` in
      `fallback`, and `All()` does not change. */
  lemma EvictionKeepsReachability(e1: Endpoint, e2: Endpoint, opts: seq<ClusterOption>)
    requires e1.address != e2.address
    requires FallbackOf(opts) && FilterOf(opts)(e1) && FilterOf(opts)(e2)
    ensures var c := Built([e1, e2], opts);
            && c.prefer == [e1, e2]
            && Evicted(c, [e1]).prefer == [e2]
            && e1 in Evicted(c, [e1]).fallback
            && All(Some(Evicted(c, [e1]))) == All(Some(c)) == [e1, e2]
  {
    SplitPair(e1, e2, FilterOf(opts));
    var c := Built([e1, e2], opts);
    WithoutOne(c, e1);
    AddressDiffersMeans(e1.address, e1);
    AddressDiffersMeans(e1.address, e2);
    SplitPair(e1, e2, AddressDiffers(e1.address));
  }

  /** `Without` does not keep the shape `New` gives: with fallback disallowed
      the evicted endpoint still lands in `fallback`. */
  lemma WithoutFillsDisallowedFallback(e: Endpoint)
    ensures var c := Cluster(AcceptAll(), false, NodeIndex([e]), [e], [], [e]);
            WellFormed(c) && !WellFormed(Evicted(c, [e])) && Evicted(c, [e]).fallback == [e]
  {
    var c := Cluster(AcceptAll(), false, NodeIndex([e]), [e], [], [e]);
    assert [e][..0] == [] && [e][..1] == [e];
    PassesSnoc([e], [e], 0);
    assert [e] == [] + [e];
    SplitSnoc([], e, AddressDiffers(e.address));
    AddressDiffersMeans(e.address, e);
    assert Evicted(c, [e]).fallback == [e];
    assert AcceptAll()(e);
    assert forall x :: x in c.prefer ==> x == e;
  }

  /** With fallback allowed and `prefer` and `fallback` empty, selection fails
      with no endpoints; with only a fallback endpoint, it is always returned. */
  lemma FallbackPrecedence(e3: Endpoint, draw: nat)
    ensures Next(Some(Cluster(AcceptAll(), true, map[], [], [e3], [e3])), None, None, draw) == Ok(e3)
    ensures Next(Some(Cluster(AcceptAll(), true, map[], [], [], [])), None, None, draw) == Err(ErrNoEndpoints)
  {
  }
}
