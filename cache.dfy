/**
 * The refresh policy and the queries of the node validator, as functions
 * of an abstract cache state: the registry, the last fetch time and the
 * two in-flight markers (`is_fetching` and a non-null `fetch_promise`).
 * The clock readings and the outcome of each fetch are inputs.
 */
module Cache {
  import opened Wrappers
  import opened Seqs
  import opened NodeRegistry
  import opened Suggestion

  /** Cache duration in milliseconds: one hour. */
  const CacheDuration: int := 60 * 60 * 1000

  /**
   * What one fetch of the node-types endpoint produced. `Failed`: the
   * request failed, the status was not 2xx or the body did not parse.
   * `Fetched(None)`: a parsed body without a `data` array.
   */
  datatype FetchOutcome = Failed | Fetched(items: Option<seq<RawEntry>>)

  /**
   * The inputs one call of `ensure_node_registry_is_loaded` sees: the clock
   * on entry, the outcome of the fetch it may start, and the clock when
   * that fetch completes.
   */
  datatype Access = Access(now: int, outcome: FetchOutcome, fetchedAt: int)

  datatype CacheState = CacheState(
    registry: Registry,
    lastFetchTime: int,
    isFetching: bool,
    fetchPending: bool)

  /** A freshly constructed validator. */
  const Initial: CacheState := CacheState(Empty, 0, false, false)

  predicate Idle(s: CacheState) {
    !s.isFetching && !s.fetchPending
  }

  /** A load is in flight: the caller attaches to it instead of starting one. */
  predicate Joins(s: CacheState) {
    s.isFetching && s.fetchPending
  }

  /** The cache can be used as it is: non-empty and younger than the cache duration. */
  predicate IsFresh(s: CacheState, now: int) {
    s.registry.Size() > 0 && now - s.lastFetchTime < CacheDuration
  }

  /** Whether a call at time `now` starts a fetch. */
  predicate StartsLoad(s: CacheState, now: int) {
    !Joins(s) && !IsFresh(s, now)
  }

  /** The `catch` block of `fetch_node_registry`: keep what is there, or fall back. */
  function Recover(s: CacheState, fetchedAt: int): CacheState {
    if s.registry.Size() == 0
    then s.(registry := SetAll(s.registry, FallbackNodes), lastFetchTime := fetchedAt)
    else s
  }

  /** `fetch_node_registry` with the HTTP exchange replaced by its outcome. */
  function Fetch(s: CacheState, outcome: FetchOutcome, fetchedAt: int): CacheState {
    match outcome
    case Failed => Recover(s, fetchedAt)
    case Fetched(items) =>
      var (loaded, threw) := if items.Some? then LoadEntries(items.value) else (Empty, false);
      if threw then Recover(s.(registry := loaded), fetchedAt)
      else s.(registry := loaded, lastFetchTime := fetchedAt)
  }

  /**
   * `ensure_node_registry_is_loaded`: nothing happens when a load is in
   * flight or the cache is fresh; otherwise exactly one fetch runs between
   * raising and clearing the in-flight markers.
   */
  function AfterEnsure(s: CacheState, a: Access): (r: CacheState)
    ensures !StartsLoad(s, a.now) ==> r == s
    ensures StartsLoad(s, a.now) ==> Idle(r)
    ensures Idle(s) ==> Idle(r)
    ensures s.registry.Size() == 0 && !Joins(s) ==> StartsLoad(s, a.now)
  {
    if !StartsLoad(s, a.now) then s
    else
      var loading := s.(isFetching := true, fetchPending := true);
      Fetch(loading, a.outcome, a.fetchedAt).(isFetching := false, fetchPending := false)
  }

  /** An empty well-formed registry is the cleared map. */
  lemma EmptyWellFormed(r: Registry)
    requires WellFormed(r) && r.Size() == 0
    ensures r == Empty
  {
    WellFormedValues(r);
  }

  /** Loading from the registry's own state keeps its invariant on every path. */
  lemma AfterEnsureWellFormed(s: CacheState, a: Access)
    requires WellFormed(s.registry)
    ensures WellFormed(AfterEnsure(s, a).registry)
  {
    FallbackRegistry();
    if StartsLoad(s, a.now) {
      match a.outcome
      case Failed =>
        if s.registry.Size() == 0 { EmptyWellFormed(s.registry); }
      case Fetched(items) =>
        if items.Some? { LoadWellFormed(items.value); }
        var loaded := if items.Some? then LoadEntries(items.value).0 else Empty;
        if loaded.Size() == 0 { EmptyWellFormed(loaded); }
    }
  }

  /**
   * A successful load replaces the registry with exactly the named entries
   * of the payload (first position, last descriptor) and stamps the time.
   */
  lemma SuccessfulLoad(s: CacheState, a: Access, items: seq<RawEntry>)
    requires StartsLoad(s, a.now) && a.outcome == Fetched(Some(items))
    requires forall i :: 0 <= i < |items| ==> items[i].RawNode?
    ensures var r := AfterEnsure(s, a);
      && r.registry.order == Dedup(NamesOf(items))
      && (forall k :: k in r.registry.nodes <==> k in NamesOf(items))
      && (forall k :: k in NamesOf(items) ==> r.registry.nodes[k] == Describe(items[LastNamed(items, k)]))
      && r.lastFetchTime == a.fetchedAt
      && Idle(r)
  {
    LoadNoThrow(items);
    LoadKeys(items);
    forall k | k in NamesOf(items)
      ensures LoadEntries(items).0.nodes[k] == Describe(items[LastNamed(items, k)])
    {
      LoadValue(items, k);
    }
  }

  /** A body whose `data` is not an array empties the registry, even a full one. */
  lemma NonArrayBodyEmpties(s: CacheState, a: Access)
    requires StartsLoad(s, a.now) && a.outcome == Fetched(None)
    ensures AfterEnsure(s, a).registry == Empty
    ensures AfterEnsure(s, a).lastFetchTime == a.fetchedAt
  {
  }

  /** A failed refresh keeps a non-empty registry and does not advance the fetch time. */
  lemma FailedLoadKeepsData(s: CacheState, a: Access)
    requires StartsLoad(s, a.now) && a.outcome == Failed && s.registry.Size() > 0
    ensures AfterEnsure(s, a).registry == s.registry
    ensures AfterEnsure(s, a).lastFetchTime == s.lastFetchTime
  {
  }

  /**
   * A failed first load fills the registry with the eight fallback nodes,
   * each of which then validates, and stamps the time.
   */
  lemma FailedLoadUsesFallback(s: CacheState, a: Access)
    requires WellFormed(s.registry) && s.registry.Size() == 0 && !Joins(s)
    requires a.outcome == Failed
    ensures AfterEnsure(s, a).registry.order == FallbackNames
    ensures AfterEnsure(s, a).lastFetchTime == a.fetchedAt
    ensures forall i :: 0 <= i < |FallbackNames| ==>
              Validate(AfterEnsure(s, a).registry, FallbackNames[i]) == Validation(true, None)
  {
    EmptyWellFormed(s.registry);
    FallbackRegistry();
  }

  /**
   * A `null` element at index `p` aborts the load midway: the entries before
   * it stay in the registry (the registry is not replaced atomically) and the
   * fetch time is left as it was, unless nothing was stored, in which case
   * the fallback list is used.
   */
  lemma NullEntryAbortsLoad(s: CacheState, a: Access, items: seq<RawEntry>, p: nat)
    requires StartsLoad(s, a.now) && a.outcome == Fetched(Some(items))
    requires p < |items| && items[p].NullEntry?
    requires forall i :: 0 <= i < p ==> items[i].RawNode?
    ensures LoadEntries(items[..p]).0.Size() > 0 ==>
              AfterEnsure(s, a).registry == LoadEntries(items[..p]).0
              && AfterEnsure(s, a).lastFetchTime == s.lastFetchTime
    ensures LoadEntries(items[..p]).0.Size() == 0 ==>
              AfterEnsure(s, a).registry.order == FallbackNames
              && AfterEnsure(s, a).lastFetchTime == a.fetchedAt
  {
    LoadStopsAtNull(items, p);
    LoadWellFormed(items[..p]);
    FallbackRegistry();
    if LoadEntries(items[..p]).0.Size() == 0 {
      EmptyWellFormed(LoadEntries(items[..p]).0);
    }
  }

  /** Once a load has stamped a non-empty registry, calls within the hour fetch nothing. */
  lemma SecondAccessWithinWindow(s: CacheState, a1: Access, a2: Access)
    requires StartsLoad(s, a1.now)
    requires AfterEnsure(s, a1).registry.Size() > 0
    requires AfterEnsure(s, a1).lastFetchTime == a1.fetchedAt
    requires a2.now - a1.fetchedAt < CacheDuration
    ensures !StartsLoad(AfterEnsure(s, a1), a2.now)
    ensures AfterEnsure(AfterEnsure(s, a1), a2) == AfterEnsure(s, a1)
  {
  }

  /** A failed refresh of stale data leaves it stale: every later call fetches again. */
  lemma FailedRefreshRetries(s: CacheState, a1: Access, a2: Access)
    requires StartsLoad(s, a1.now) && s.registry.Size() > 0
    requires a1.outcome == Failed && a2.now >= a1.now
    ensures StartsLoad(AfterEnsure(s, a1), a2.now)
  {
  }

  /** The answer of `validate_node_type` once the registry is loaded. */
  datatype Validation = Validation(valid: bool, suggestion: Option<string>)

  /**
   * `validate_node_type` after the refresh step: an exact key is valid with
   * no suggestion; otherwise the best similar key, if any, is suggested.
   */
  function Validate(reg: Registry, nodeType: string): (r: Validation)
    ensures r.valid <==> reg.Has(nodeType)
    ensures r.valid ==> r.suggestion.None?
    ensures r.suggestion.Some? ==>
              r.suggestion.value in reg.order
              && Above(Similarity(nodeType, r.suggestion.value), Threshold)
  {
    FindSimilarIsAKey(nodeType, reg.order);
    if reg.Has(nodeType) then Validation(true, None)
    else
      var s := FindSimilar(nodeType, reg.order);
      Validation(false, if s.Some? && s.value != "" then s else None)
  }

  /**
   * Registry keys are never empty, so every candidate the suggestion search
   * scores gets a real score in [0, 1], never NaN.
   */
  lemma KeyScoresAreNumbers(reg: Registry, nodeType: string)
    requires WellFormed(reg)
    ensures forall i :: 0 <= i < |reg.order| ==>
              Similarity(nodeType, reg.order[i]).Num?
              && 0.0 <= Similarity(nodeType, reg.order[i]).value <= 1.0
  {
    forall i | 0 <= i < |reg.order|
      ensures Similarity(nodeType, reg.order[i]).Num?
      ensures 0.0 <= Similarity(nodeType, reg.order[i]).value <= 1.0
    {
      assert reg.order[i] in reg.nodes;
      SimilarityInUnitInterval(nodeType, reg.order[i]);
    }
  }

  /**
   * On a miss in a well-formed registry the suggestion is exactly the
   * first best-scoring key above the threshold, and absent when no key
   * scores above it.
   */
  lemma MissSuggestion(reg: Registry, nodeType: string)
    requires WellFormed(reg) && !reg.Has(nodeType)
    ensures Validate(reg, nodeType).suggestion == FindSimilar(nodeType, reg.order)
    ensures Validate(reg, nodeType).suggestion.None? <==> NoneAbove(nodeType, reg.order)
    ensures Validate(reg, nodeType).suggestion.Some? ==>
              && BestIndex(nodeType, reg.order).Some?
              && IsFirstBest(nodeType, reg.order, BestIndex(nodeType, reg.order).value)
              && Validate(reg, nodeType).suggestion.value == reg.order[BestIndex(nodeType, reg.order).value]
  {
    BestIndexIsFirstBest(nodeType, reg.order);
    var b := BestIndex(nodeType, reg.order);
    if b.Some? {
      assert reg.order[b.value] in reg.nodes;
    }
  }

  /** One element of the answer of `validate_workflow_nodes`. */
  datatype InvalidNode = InvalidNode(nodeType: string, suggestion: Option<string>)

  /** The contribution of one node type to the list of invalid nodes. */
  function Flag(nodeType: string, v: Validation): (flagged: seq<InvalidNode>)
    ensures |flagged| <= 1
    ensures flagged != [] <==> !v.valid
  {
    if v.valid then [] else [InvalidNode(nodeType, v.suggestion)]
  }

  /**
   * The loop of `validate_workflow_nodes` after it has gone through
   * `nodeTypes`: each node type is validated by a call that runs its own
   * refresh step (with its own access), and the invalid ones are appended
   * with that call's suggestion.
   */
  function ValidateEach(s: CacheState, nodeTypes: seq<string>, accesses: seq<Access>): (CacheState, seq<InvalidNode>)
    requires |accesses| == |nodeTypes|
    decreases |nodeTypes|
  {
    if nodeTypes == [] then (s, [])
    else
      var n := |nodeTypes| - 1;
      var p := ValidateEach(s, nodeTypes[..n], accesses[..n]);
      var s1 := AfterEnsure(p.0, accesses[n]);
      (s1, p.1 + Flag(nodeTypes[n], Validate(s1.registry, nodeTypes[n])))
  }

  /** `validate_workflow_nodes`: one refresh step of its own, then the loop. */
  function ValidateWorkflow(s: CacheState, nodeTypes: seq<string>, first: Access, accesses: seq<Access>): (CacheState, seq<InvalidNode>)
    requires |accesses| == |nodeTypes|
  {
    ValidateEach(AfterEnsure(s, first), nodeTypes, accesses)
  }

  /** Reference definition: the invalid node types of `nodeTypes` against a fixed registry. */
  function InvalidOf(reg: Registry, nodeTypes: seq<string>): seq<InvalidNode> {
    if nodeTypes == [] then []
    else
      (if reg.Has(nodeTypes[0]) then [] else [InvalidNode(nodeTypes[0], Validate(reg, nodeTypes[0]).suggestion)])
      + InvalidOf(reg, nodeTypes[1..])
  }

  /**
   * The reference is a filter: it distributes over concatenation, so the
   * answer lists the invalid inputs in input order, duplicates included.
   */
  lemma {:induction false} InvalidOfConcat(reg: Registry, xs: seq<string>, ys: seq<string>)
    ensures InvalidOf(reg, xs + ys) == InvalidOf(reg, xs) + InvalidOf(reg, ys)
  {
    if xs == [] {
      assert xs + ys == ys;
    } else {
      assert (xs + ys)[0] == xs[0];
      assert (xs + ys)[1..] == xs[1..] + ys;
      InvalidOfConcat(reg, xs[1..], ys);
    }
  }

  lemma InvalidOfSingle(reg: Registry, t: string)
    ensures InvalidOf(reg, [t]) == if reg.Has(t) then [] else [InvalidNode(t, Validate(reg, t).suggestion)]
  {
  }

  /** Every reported node type is missing from the registry and carries its own suggestion. */
  lemma {:induction false} InvalidOfSound(reg: Registry, nodeTypes: seq<string>)
    ensures forall e :: e in InvalidOf(reg, nodeTypes) ==>
              e.nodeType in nodeTypes && !reg.Has(e.nodeType)
              && e.suggestion == Validate(reg, e.nodeType).suggestion
  {
    if nodeTypes != [] {
      InvalidOfSound(reg, nodeTypes[1..]);
    }
  }

  /**
   * While the cache stays fresh, `validate_workflow_nodes` fetches nothing
   * and answers with the reference filter over the loaded registry.
   */
  lemma {:induction false} ValidateEachWhileFresh(s: CacheState, nodeTypes: seq<string>, accesses: seq<Access>)
    requires |accesses| == |nodeTypes| && !Joins(s)
    requires forall i :: 0 <= i < |accesses| ==> IsFresh(s, accesses[i].now)
    ensures ValidateEach(s, nodeTypes, accesses) == (s, InvalidOf(s.registry, nodeTypes))
  {
    if nodeTypes != [] {
      var n := |nodeTypes| - 1;
      assert IsFresh(s, accesses[n].now);
      ValidateEachWhileFresh(s, nodeTypes[..n], accesses[..n]);
      assert nodeTypes == nodeTypes[..n] + [nodeTypes[n]];
      InvalidOfConcat(s.registry, nodeTypes[..n], [nodeTypes[n]]);
      InvalidOfSingle(s.registry, nodeTypes[n]);
    }
  }

  /** The three-node example: only "known" exists, so "a" and "b" are reported, in order. */
  lemma ValidateWorkflowExample(reg: Registry)
    requires reg.Has("known") && !reg.Has("a") && !reg.Has("b")
    ensures InvalidOf(reg, ["a", "known", "b"]) ==
              [InvalidNode("a", Validate(reg, "a").suggestion), InvalidNode("b", Validate(reg, "b").suggestion)]
  {
    var xs: seq<string> := ["a", "known", "b"];
    assert xs[1..] == ["known", "b"];
    assert xs[1..][1..] == ["b"];
    assert ["b"][1..] == [];
    assert InvalidOf(reg, ["b"]) == [InvalidNode("b", Validate(reg, "b").suggestion)];
    assert InvalidOf(reg, ["known", "b"]) == InvalidOf(reg, ["b"]);
  }
}
