/**
 * The node validator service: a class over the registry and the cache
 * metadata, whose methods do what `NodeValidator` does step by step and
 * are proved against the functions of the modules Cache, Registry and
 * Suggestion.
 */
module NodeValidator {
  import opened Wrappers
  import opened NodeRegistry
  import opened Suggestion
  import opened Cache
  import Text

  class NodeValidator {
    var registry: Registry
    var lastFetchTime: int
    /** `is_fetching`. */
    var isFetching: bool
    /** `fetch_promise !== null`. */
    var fetchPending: bool

    ghost predicate Valid()
      reads this
    {
      WellFormed(registry)
    }

    /** The abstract state the Cache functions speak about. */
    function State(): CacheState
      reads this
    {
      CacheState(registry, lastFetchTime, isFetching, fetchPending)
    }

    constructor ()
      ensures Valid() && State() == Initial
    {
      registry := Empty;
      lastFetchTime := 0;
      isFetching := false;
      fetchPending := false;
    }

    /** `validate_node_type`. */
    method ValidateNodeType(nodeType: string, access: Access) returns (result: Validation)
      requires Valid()
      modifies this
      ensures Valid()
      ensures State() == AfterEnsure(old(State()), access)
      ensures result == Validate(registry, nodeType)
    {
      var _ := EnsureNodeRegistryIsLoaded(access);
      if registry.Has(nodeType) {
        return Validation(true, None);
      }
      var suggestion := FindSimilarNodeType(nodeType);
      result := Validation(false, if suggestion.Some? && suggestion.value != "" then suggestion else None);
    }

    /**
     * `validate_workflow_nodes`: `first` is the access of its own refresh
     * step, `accesses[i]` that of the call validating `nodeTypes[i]`.
     */
    method ValidateWorkflowNodes(nodeTypes: seq<string>, first: Access, accesses: seq<Access>)
      returns (invalid: seq<InvalidNode>)
      requires Valid() && |accesses| == |nodeTypes|
      modifies this
      ensures Valid()
      ensures State() == ValidateWorkflow(old(State()), nodeTypes, first, accesses).0
      ensures invalid == ValidateWorkflow(old(State()), nodeTypes, first, accesses).1
    {
      var _ := EnsureNodeRegistryIsLoaded(first);
      ghost var start := State();
      invalid := [];
      for i := 0 to |nodeTypes|
        invariant Valid()
        invariant ValidateEach(start, nodeTypes[..i], accesses[..i]) == (State(), invalid)
      {
        assert nodeTypes[..i + 1][..i] == nodeTypes[..i] && accesses[..i + 1][..i] == accesses[..i];
        ghost var done := invalid;
        var validation := ValidateNodeType(nodeTypes[i], accesses[i]);
        if !validation.valid {
          invalid := invalid + [InvalidNode(nodeTypes[i], validation.suggestion)];
        }
        assert invalid == done + Flag(nodeTypes[i], validation);
      }
      assert nodeTypes[..|nodeTypes|] == nodeTypes && accesses[..|nodeTypes|] == accesses;
    }

    /** `get_available_node_types`: the keys in insertion order. */
    method GetAvailableNodeTypes(access: Access) returns (types: seq<string>)
      requires Valid()
      modifies this
      ensures Valid()
      ensures State() == AfterEnsure(old(State()), access)
      ensures types == registry.order
    {
      var _ := EnsureNodeRegistryIsLoaded(access);
      types := registry.order;
    }

    /** `get_available_nodes`: the descriptors in key order. */
    method GetAvailableNodes(access: Access) returns (infos: seq<NodeInfo>)
      requires Valid()
      modifies this
      ensures Valid()
      ensures State() == AfterEnsure(old(State()), access)
      ensures infos == registry.Values()
    {
      var _ := EnsureNodeRegistryIsLoaded(access);
      infos := registry.Values();
    }

    /**
     * `ensure_node_registry_is_loaded`. Attaching to a load already in
     * flight is modelled as returning with the state unchanged.
     */
    method EnsureNodeRegistryIsLoaded(access: Access) returns (fetched: bool)
      requires Valid()
      modifies this
      ensures Valid()
      ensures State() == AfterEnsure(old(State()), access)
      ensures fetched == StartsLoad(old(State()), access.now)
    {
      if isFetching && fetchPending {
        return false;
      }
      if registry.Size() > 0 && access.now - lastFetchTime < CacheDuration {
        return false;
      }
      isFetching := true;
      fetchPending := true;
      FetchNodeRegistry(access.outcome, access.fetchedAt);
      isFetching := false;
      fetchPending := false;
      fetched := true;
    }

    /** `fetch_node_registry`, with the HTTP exchange given as its outcome. */
    method FetchNodeRegistry(outcome: FetchOutcome, fetchedAt: int)
      requires Valid()
      modifies this
      ensures Valid()
      ensures State() == Fetch(old(State()), outcome, fetchedAt)
    {
      match outcome {
        case Failed =>
          RecoverFromFetchError(fetchedAt);
        case Fetched(items) =>
          registry := Empty;
          var threw := false;
          if items.Some? {
            var entries := items.value;
            var i := 0;
            while i < |entries| && !threw
              invariant 0 <= i <= |entries|
              invariant (registry, threw) == LoadEntries(entries[..i])
              invariant Valid()
              invariant lastFetchTime == old(lastFetchTime)
              invariant isFetching == old(isFetching) && fetchPending == old(fetchPending)
            {
              assert entries[..i + 1][..i] == entries[..i];
              LoadWellFormed(entries[..i + 1]);
              var entry := entries[i];
              if entry.NullEntry? {
                threw := true;
              } else if entry.name != "" {
                registry := registry.Set(entry.name, Describe(entry));
              }
              i := i + 1;
            }
            if threw {
              LoadStopsAfterThrow(entries, i);
            } else {
              assert entries[..i] == entries;
            }
          }
          if threw {
            RecoverFromFetchError(fetchedAt);
          } else {
            lastFetchTime := fetchedAt;
          }
      }
    }

    /** The `catch` block of `fetch_node_registry`. */
    method RecoverFromFetchError(fetchedAt: int)
      requires Valid()
      modifies this
      ensures Valid()
      ensures State() == Recover(old(State()), fetchedAt)
    {
      if registry.Size() == 0 {
        AddFallbackNodes();
        lastFetchTime := fetchedAt;
      }
    }

    /** `add_fallback_nodes`: stores each fallback descriptor under its name. */
    method AddFallbackNodes()
      requires Valid()
      modifies this
      ensures Valid()
      ensures registry == SetAll(old(registry), FallbackNodes)
      ensures lastFetchTime == old(lastFetchTime) && isFetching == old(isFetching)
      ensures fetchPending == old(fetchPending)
    {
      for i := 0 to |FallbackNodes|
        invariant Valid()
        invariant registry == SetAll(old(registry), FallbackNodes[..i])
        invariant lastFetchTime == old(lastFetchTime)
        invariant isFetching == old(isFetching) && fetchPending == old(fetchPending)
      {
        var node := FallbackNodes[i];
        FallbackNodeAt(i);
        assert FallbackNodes[..i + 1][..i] == FallbackNodes[..i];
        SetWellFormed(registry, node);
        registry := registry.Set(node.name, NodeInfo(node.name, node.displayName, None, None, None));
      }
      assert FallbackNodes[..|FallbackNodes|] == FallbackNodes;
    }

    /** `find_similar_node_type`: the first best-scoring key above the threshold. */
    method FindSimilarNodeType(nodeType: string) returns (bestMatch: Option<string>)
      ensures bestMatch == FindSimilar(nodeType, registry.order)
    {
      var keys := registry.order;
      bestMatch := None;
      var bestScore := 0.0;
      ghost var bestIndex: Option<nat> := None;
      for i := 0 to |keys|
        invariant Scan(nodeType, keys[..i]) == (bestIndex, bestScore)
        invariant bestIndex.None? ==> bestMatch.None?
        invariant bestIndex.Some? ==> bestIndex.value < i && bestMatch == Some(keys[bestIndex.value])
      {
        assert keys[..i + 1][..i] == keys[..i];
        var existingType := keys[i];
        var score := CalculateSimilarity(nodeType, existingType);
        if score.Num? && score.value > bestScore && score.value > Threshold {
          bestScore := score.value;
          bestMatch := Some(existingType);
          bestIndex := Some(i);
        }
      }
      assert keys[..|keys|] == keys;
    }

    /** `calculate_similarity`. */
    static method CalculateSimilarity(a: string, b: string) returns (score: Number)
      ensures score == Similarity(a, b)
    {
      var s1 := Text.Lower(a);
      var s2 := Text.Lower(b);
      var distance := LevenshteinDistance(s1, s2);
      var maxLength := Max(|s1|, |s2|);
      if maxLength == 0 {
        score := NaN;
      } else {
        score := Num(1.0 - (distance as real) / (maxLength as real));
      }
    }

    /** `levenshtein_distance`: fills the dynamic-programming table row by row. */
    static method LevenshteinDistance(a: string, b: string) returns (distance: nat)
      ensures distance == Lev(a, b)
    {
      var matrix := new nat[|a| + 1, |b| + 1];
      for i := 0 to |a| + 1
        invariant forall k :: 0 <= k < i ==> matrix[k, 0] == k
      {
        matrix[i, 0] := i;
      }
      for j := 0 to |b| + 1
        invariant forall k :: 0 <= k <= |a| ==> matrix[k, 0] == k
        invariant forall l :: 0 <= l < j ==> matrix[0, l] == l
      {
        matrix[0, j] := j;
      }
      for i := 1 to |a| + 1
        invariant forall k, l :: 0 <= k < i && 0 <= l <= |b| ==> matrix[k, l] == Lev(a[..k], b[..l])
        invariant forall k :: i <= k <= |a| ==> matrix[k, 0] == k
      {
        FillRow(matrix, a, b, i);
      }
      assert a[..|a|] == a && b[..|b|] == b;
      distance := matrix[|a|, |b|];
    }

    /** One pass of the outer fill loop: row `i` of the table from row `i - 1`. */
    static method FillRow(matrix: array2<nat>, a: string, b: string, i: nat)
      requires matrix.Length0 == |a| + 1 && matrix.Length1 == |b| + 1 && 1 <= i <= |a|
      requires forall k, l :: 0 <= k < i && 0 <= l <= |b| ==> matrix[k, l] == Lev(a[..k], b[..l])
      requires matrix[i, 0] == i
      modifies matrix
      ensures forall k, l :: 0 <= k <= i && 0 <= l <= |b| ==> matrix[k, l] == Lev(a[..k], b[..l])
      ensures forall k, l :: 0 <= k < matrix.Length0 && 0 <= l < matrix.Length1 && k != i ==>
                matrix[k, l] == old(matrix[k, l])
    {
      assert matrix[i, 0] == Lev(a[..i], b[..0]);
      for j := 1 to |b| + 1
        invariant forall k, l :: 0 <= k < matrix.Length0 && 0 <= l < matrix.Length1 && k != i ==>
                    matrix[k, l] == old(matrix[k, l])
        invariant forall l :: 0 <= l < j ==> matrix[i, l] == Lev(a[..i], b[..l])
      {
        var cost := if a[i - 1] == b[j - 1] then 0 else 1;
        var deletion, insertion, substitution := matrix[i - 1, j] + 1, matrix[i, j - 1] + 1, matrix[i - 1, j - 1] + cost;
        LevStep(a, b, i, j, deletion, insertion, substitution);
        matrix[i, j] := Min3(deletion, insertion, substitution);
      }
    }
  }
}
