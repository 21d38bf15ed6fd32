/**
 * The node registry of the validator: node descriptors kept in an
 * insertion-ordered map, how a fetched payload is loaded into it, and the
 * hard-coded fallback list used when no catalogue is available.
 */
module NodeRegistry {
  import opened Wrappers
  import opened Seqs

  /** One node type as the validator stores it (`NodeInfo`). */
  datatype NodeInfo = NodeInfo(
    name: string,
    displayName: string,
    description: Option<string>,
    nodeType: Option<string>,
    version: Option<int>)

  /**
   * An insertion-ordered `Map<string, NodeInfo>`: `order` lists the keys in
   * insertion order, `nodes` holds the value of each key.
   */
  datatype Registry = Registry(order: seq<string>, nodes: map<string, NodeInfo>) {

    /** `map.has(key)`. */
    predicate Has(key: string) {
      key in nodes
    }

    /** `map.size`. */
    function Size(): nat {
      |order|
    }

    /** `map.set(key, value)`: a new key goes last, an existing key keeps its place. */
    function Set(key: string, value: NodeInfo): Registry {
      if key in nodes then Registry(order, nodes[key := value])
      else Registry(order + [key], nodes[key := value])
    }

    /** `Array.from(map.values())`. */
    function Values(): (vs: seq<NodeInfo>)
      requires forall k :: k in order ==> k in nodes
      ensures |vs| == |order|
    {
      seq(|order|, i requires 0 <= i < |order| => nodes[order[i]])
    }
  }

  /** A cleared map. */
  const Empty: Registry := Registry([], map[])

  /**
   * The invariant the validator keeps: the key order lists each key once,
   * exactly the keys of the map, and every descriptor is stored under its
   * own non-empty name.
   */
  ghost predicate WellFormed(r: Registry) {
    && Distinct(r.order)
    && (forall k :: k in r.nodes <==> k in r.order)
    && (forall k :: k in r.nodes ==> r.nodes[k].name == k && k != "")
  }

  /** Storing a descriptor under its own non-empty name keeps the invariant. */
  lemma SetWellFormed(r: Registry, info: NodeInfo)
    requires WellFormed(r) && info.name != ""
    ensures WellFormed(r.Set(info.name, info))
    ensures r.Set(info.name, info).Has(info.name)
    ensures forall k :: r.Has(k) ==> r.Set(info.name, info).Has(k)
  {
  }

  /** Under the invariant, size and membership agree, and the values carry the keys. */
  lemma WellFormedValues(r: Registry)
    requires WellFormed(r)
    ensures r.Size() == 0 <==> r.nodes == map[]
    ensures forall i :: 0 <= i < r.Size() ==> r.Values()[i].name == r.order[i]
  {
    if r.Size() > 0 {
      assert r.order[0] in r.nodes;
    }
  }

  /**
   * One element of the `data` array of a node-types payload. `NullEntry` is a
   * `null` element (reading `.name` of it throws); an empty `name` or
   * `displayName` stands for a missing or falsy one.
   */
  datatype RawEntry =
    | NullEntry
    | RawNode(name: string, displayName: string, description: Option<string>,
              nodeType: Option<string>, version: Option<int>)

  /** The descriptor stored for a raw node; the display name defaults to the name. */
  function Describe(e: RawEntry): (info: NodeInfo)
    requires e.RawNode?
  {
    NodeInfo(e.name, if e.displayName != "" then e.displayName else e.name,
             e.description, e.nodeType, e.version)
  }

  /** Names of the entries the loading loop stores, in payload order. */
  function NamesOf(entries: seq<RawEntry>): (names: seq<string>)
    ensures forall k :: k in names ==> k != ""
  {
    if entries == [] then []
    else
      var e := entries[|entries| - 1];
      NamesOf(entries[..|entries| - 1]) + (if e.RawNode? && e.name != "" then [e.name] else [])
  }

  /**
   * The loading loop run on a cleared map: each entry with a name is stored
   * under that name; a `null` entry throws, which ends the loop with the map
   * as it is (the flag says so).
   */
  function LoadEntries(entries: seq<RawEntry>): (Registry, bool) {
    if entries == [] then (Empty, false)
    else
      var (r, threw) := LoadEntries(entries[..|entries| - 1]);
      var e := entries[|entries| - 1];
      if threw || e.NullEntry? then (r, true)
      else if e.name != "" then (r.Set(e.name, Describe(e)), false)
      else (r, false)
  }

  /** Index of the last stored entry named `k`. */
  function LastNamed(entries: seq<RawEntry>, k: string): (i: nat)
    requires k in NamesOf(entries)
    ensures i < |entries| && entries[i].RawNode? && entries[i].name == k
    ensures forall j :: i < j < |entries| ==> !(entries[j].RawNode? && entries[j].name == k)
  {
    var n := |entries| - 1;
    var e := entries[n];
    if e.RawNode? && e.name == k then n
    else
      assert k in NamesOf(entries[..n]);
      var i := LastNamed(entries[..n], k);
      assert entries[..n][i] == entries[i];
      i
  }

  /** Whatever the payload, loading keeps the invariant. */
  lemma {:induction false} LoadWellFormed(entries: seq<RawEntry>)
    ensures WellFormed(LoadEntries(entries).0)
  {
    if entries != [] {
      LoadWellFormed(entries[..|entries| - 1]);
    }
  }

  /** A payload without `null` elements never throws. */
  lemma {:induction false} LoadNoThrow(entries: seq<RawEntry>)
    requires forall i :: 0 <= i < |entries| ==> entries[i].RawNode?
    ensures !LoadEntries(entries).1
  {
    if entries != [] {
      var p := entries[..|entries| - 1];
      assert forall i :: 0 <= i < |p| ==> p[i] == entries[i];
      LoadNoThrow(p);
    }
  }

  /** One step of the loading loop on a payload that has not thrown. */
  lemma LoadLast(entries: seq<RawEntry>)
    requires entries != [] && !LoadEntries(entries[..|entries| - 1]).1
    requires entries[|entries| - 1].RawNode?
    ensures var e := entries[|entries| - 1];
            var prev := LoadEntries(entries[..|entries| - 1]).0;
            && NamesOf(entries) == NamesOf(entries[..|entries| - 1]) + (if e.name != "" then [e.name] else [])
            && LoadEntries(entries).0 == (if e.name != "" then prev.Set(e.name, Describe(e)) else prev)
  {
  }

  /**
   * Loading a payload without `null` elements stores each name once, at
   * its first position: the keys are the named entries.
   */
  lemma {:induction false} LoadKeys(entries: seq<RawEntry>)
    requires forall i :: 0 <= i < |entries| ==> entries[i].RawNode?
    ensures LoadEntries(entries).0.order == Dedup(NamesOf(entries))
    ensures forall k :: k in LoadEntries(entries).0.nodes <==> k in NamesOf(entries)
  {
    LoadNoThrow(entries);
    LoadWellFormed(entries);
    if entries != [] {
      var n := |entries| - 1;
      var p := entries[..n];
      assert forall i :: 0 <= i < |p| ==> p[i] == entries[i];
      LoadNoThrow(p);
      LoadKeys(p);
      LoadLast(entries);
      DedupElements(NamesOf(p));
      var names := NamesOf(entries);
      var prev := LoadEntries(p).0;
      if entries[n].name != "" {
        var k := entries[n].name;
        assert names[..|names| - 1] == NamesOf(p);
        assert Dedup(names) == if k in Dedup(NamesOf(p)) then Dedup(NamesOf(p)) else Dedup(NamesOf(p)) + [k];
        assert k in prev.nodes <==> k in Dedup(NamesOf(p));
        assert LoadEntries(entries).0 == prev.Set(k, Describe(entries[n]));
        assert LoadEntries(entries).0.order == if k in prev.nodes then prev.order else prev.order + [k];
      } else {
        assert names == NamesOf(p);
        assert LoadEntries(entries).0 == prev;
      }
    }
  }

  /** Each stored name holds the descriptor of the last entry of that name. */
  lemma {:induction false} LoadValue(entries: seq<RawEntry>, k: string)
    requires forall i :: 0 <= i < |entries| ==> entries[i].RawNode?
    requires k in NamesOf(entries)
    ensures k in LoadEntries(entries).0.nodes
    ensures LoadEntries(entries).0.nodes[k] == Describe(entries[LastNamed(entries, k)])
  {
    LoadKeys(entries);
    var n := |entries| - 1;
    var p := entries[..n];
    assert forall i :: 0 <= i < |p| ==> p[i] == entries[i];
    LoadNoThrow(p);
    LoadLast(entries);
    var e := entries[n];
    var prev := LoadEntries(p).0;
    if e.name == k {
      assert LastNamed(entries, k) == n;
      assert LoadEntries(entries).0 == prev.Set(k, Describe(e));
    } else {
      assert k in NamesOf(p);
      LoadValue(p, k);
      assert entries[LastNamed(entries, k)] == p[LastNamed(p, k)];
    }
  }

  /** After a throw the rest of the payload is never looked at. */
  lemma {:induction false} LoadStopsAfterThrow(entries: seq<RawEntry>, i: nat)
    requires i <= |entries| && LoadEntries(entries[..i]).1
    ensures LoadEntries(entries) == LoadEntries(entries[..i])
    decreases |entries| - i
  {
    if i < |entries| {
      assert entries[..i + 1][..i] == entries[..i];
      LoadStopsAfterThrow(entries, i + 1);
    } else {
      assert entries[..i] == entries;
    }
  }

  /**
   * A `null` element at index `p` with none before it: loading ends having
   * stored exactly the entries before it.
   */
  lemma LoadStopsAtNull(entries: seq<RawEntry>, p: nat)
    requires p < |entries| && entries[p].NullEntry?
    requires forall i :: 0 <= i < p ==> entries[i].RawNode?
    ensures LoadEntries(entries).1
    ensures LoadEntries(entries).0 == LoadEntries(entries[..p]).0
  {
    var pre := entries[..p];
    assert forall i :: 0 <= i < |pre| ==> pre[i].RawNode?;
    LoadNoThrow(pre);
    assert entries[..p + 1][..p] == pre;
    LoadStopsAfterThrow(entries, p + 1);
  }

  /** Storing each descriptor of `infos` under its own name, in order. */
  function SetAll(r: Registry, infos: seq<NodeInfo>): Registry {
    if infos == [] then r
    else
      var last := infos[|infos| - 1];
      SetAll(r, infos[..|infos| - 1]).Set(last.name, last)
  }

  function InfoNames(infos: seq<NodeInfo>): seq<string> {
    seq(|infos|, i requires 0 <= i < |infos| => infos[i].name)
  }

  /** Storing descriptors with distinct new names appends them in order. */
  lemma {:induction false} SetAllFresh(r: Registry, infos: seq<NodeInfo>)
    requires WellFormed(r) && Distinct(InfoNames(infos))
    requires forall i :: 0 <= i < |infos| ==> infos[i].name != "" && infos[i].name !in r.nodes
    ensures WellFormed(SetAll(r, infos))
    ensures SetAll(r, infos).order == r.order + InfoNames(infos)
  {
    if infos != [] {
      var n := |infos| - 1;
      var p := infos[..n];
      var last := infos[n];
      assert InfoNames(p) == InfoNames(infos)[..n];
      SetAllFresh(r, p);
      assert InfoNames(infos) == InfoNames(p) + [last.name];
      forall i | 0 <= i < n ensures InfoNames(p)[i] != last.name {
        assert InfoNames(p)[i] == InfoNames(infos)[i];
        assert InfoNames(infos)[n] == last.name;
      }
      SetFresh(SetAll(r, p), last);
    }
  }

  /** Each descriptor stored that way sits under its own name. */
  lemma {:induction false} SetAllFreshValue(r: Registry, infos: seq<NodeInfo>, i: nat)
    requires WellFormed(r) && Distinct(InfoNames(infos))
    requires forall i :: 0 <= i < |infos| ==> infos[i].name != "" && infos[i].name !in r.nodes
    requires i < |infos|
    ensures infos[i].name in SetAll(r, infos).nodes
    ensures SetAll(r, infos).nodes[infos[i].name] == infos[i]
  {
    var n := |infos| - 1;
    var p := infos[..n];
    if i < n {
      assert InfoNames(p) == InfoNames(infos)[..n];
      SetAllFreshValue(r, p, i);
      assert p[i] == infos[i];
      assert InfoNames(infos)[i] != InfoNames(infos)[n];
    }
  }

  /** Storing a descriptor under a new non-empty name appends it and keeps the invariant. */
  lemma SetFresh(r: Registry, info: NodeInfo)
    requires WellFormed(r) && info.name != "" && info.name !in r.order
    ensures WellFormed(r.Set(info.name, info))
    ensures r.Set(info.name, info) == Registry(r.order + [info.name], r.nodes[info.name := info])
  {
  }

  /** The fallback node list of `add_fallback_nodes`. */
  const FallbackNodes: seq<NodeInfo> := [
    NodeInfo("n8n-nodes-base.start", "Start", None, None, None),
    NodeInfo("n8n-nodes-base.manualTrigger", "Manual Trigger", None, None, None),
    NodeInfo("n8n-nodes-base.httpRequest", "HTTP Request", None, None, None),
    NodeInfo("n8n-nodes-base.set", "Set", None, None, None),
    NodeInfo("n8n-nodes-base.function", "Function", None, None, None),
    NodeInfo("n8n-nodes-base.if", "IF", None, None, None),
    NodeInfo("n8n-nodes-base.switch", "Switch", None, None, None),
    NodeInfo("n8n-nodes-base.merge", "Merge", None, None, None)
  ]

  const FallbackNames: seq<string> := [
    "n8n-nodes-base.start", "n8n-nodes-base.manualTrigger", "n8n-nodes-base.httpRequest",
    "n8n-nodes-base.set", "n8n-nodes-base.function", "n8n-nodes-base.if",
    "n8n-nodes-base.switch", "n8n-nodes-base.merge"
  ]

  /** Every fallback descriptor has a non-empty name and only a name and a display name. */
  lemma FallbackNodeAt(i: nat)
    requires i < |FallbackNodes|
    ensures FallbackNodes[i].name != ""
    ensures FallbackNodes[i] == NodeInfo(FallbackNodes[i].name, FallbackNodes[i].displayName, None, None, None)
  {
  }

  /**
   * Filling an empty map with the fallback list gives exactly the eight
   * fallback names, in list order, each under its fallback descriptor.
   */
  lemma FallbackRegistry()
    ensures WellFormed(SetAll(Empty, FallbackNodes))
    ensures SetAll(Empty, FallbackNodes).order == FallbackNames
    ensures |FallbackNames| == 8
    ensures forall k :: SetAll(Empty, FallbackNodes).Has(k) <==> k in FallbackNames
    ensures forall i :: 0 <= i < |FallbackNodes| ==>
              SetAll(Empty, FallbackNodes).nodes[FallbackNames[i]] == FallbackNodes[i]
  {
    assert InfoNames(FallbackNodes) == FallbackNames;
    FallbackNamesDistinct();
    SetAllFresh(Empty, FallbackNodes);
    forall i | 0 <= i < |FallbackNodes|
      ensures SetAll(Empty, FallbackNodes).nodes[FallbackNames[i]] == FallbackNodes[i]
    {
      SetAllFreshValue(Empty, FallbackNodes, i);
    }
  }

  lemma FallbackNamesDistinct()
    ensures Distinct(FallbackNames)
  {
    var f := FallbackNames;
    forall i, j | 0 <= i < j < |f| ensures f[i] != f[j] {
      if |f[i]| == |f[j]| {
        assert f[i][15] != f[j][15] || f[i][16] != f[j][16];
      }
    }
  }
}
