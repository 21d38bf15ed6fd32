/**
 * The `list_available_nodes` tool: the catalogue is sorted by name in
 * place, grouped by the category prefix of each name, narrowed to the
 * requested category and rendered at the requested verbosity.
 */
module NodeTools {
  import opened Wrappers
  import opened Seqs
  import opened Text
  import opened NodeRegistry

  // ---------------------------------------------------------------------
  // The order of the sort
  // ---------------------------------------------------------------------

  /** Lexicographic order on Unicode scalar values: the total order the name sort uses. */
  predicate NameLe(a: string, b: string)
    decreases |a|
  {
    a == [] || (b != [] && (a[0] < b[0] || (a[0] == b[0] && NameLe(a[1..], b[1..]))))
  }

  lemma {:induction false} NameLeReflexive(a: string)
    ensures NameLe(a, a)
    decreases |a|
  {
    if a != [] {
      NameLeReflexive(a[1..]);
    }
  }

  lemma {:induction false} NameLeTotal(a: string, b: string)
    ensures NameLe(a, b) || NameLe(b, a)
    decreases |a|
  {
    if a != [] && b != [] && a[0] == b[0] {
      NameLeTotal(a[1..], b[1..]);
    }
  }

  lemma {:induction false} NameLeAntisymmetric(a: string, b: string)
    requires NameLe(a, b) && NameLe(b, a)
    ensures a == b
    decreases |a|
  {
    if a != [] && b != [] {
      NameLeAntisymmetric(a[1..], b[1..]);
      assert a == [a[0]] + a[1..] && b == [b[0]] + b[1..];
    }
  }

  lemma {:induction false} NameLeTransitive(a: string, b: string, c: string)
    requires NameLe(a, b) && NameLe(b, c)
    ensures NameLe(a, c)
    decreases |a|
  {
    if a != [] && a[0] == b[0] && b[0] == c[0] {
      NameLeTransitive(a[1..], b[1..], c[1..]);
    }
  }

  ghost predicate SortedByName(s: seq<NodeInfo>) {
    forall i, j :: 0 <= i < j < |s| ==> NameLe(s[i].name, s[j].name)
  }

  /** Nodes with the same name are the same node, as in a registry listing. */
  ghost predicate NamesDetermineNodes(s: seq<NodeInfo>) {
    forall a, b :: a in s && b in s && a.name == b.name ==> a == b
  }

  /** The listing of a well-formed registry has one node per name. */
  lemma RegistryListingKeyed(r: Registry)
    requires WellFormed(r)
    ensures NamesDetermineNodes(r.Values())
  {
    var vs := r.Values();
    forall a, b | a in vs && b in vs && a.name == b.name
      ensures a == b
    {
      var i :| 0 <= i < |vs| && vs[i] == a;
      var j :| 0 <= j < |vs| && vs[j] == b;
      assert r.order[i] in r.nodes && r.order[j] in r.nodes;
    }
  }

  lemma KeyedPermutation(xs: seq<NodeInfo>, ys: seq<NodeInfo>)
    requires NamesDetermineNodes(xs) && multiset(xs) == multiset(ys)
    ensures NamesDetermineNodes(ys)
  {
    forall a, b | a in ys && b in ys && a.name == b.name
      ensures a == b
    {
      assert a in multiset(ys) && b in multiset(ys);
      assert a in xs && b in xs;
    }
  }

  // ---------------------------------------------------------------------
  // The sort: a reference insertion sort on values, and the in-place one
  // ---------------------------------------------------------------------

  lemma PrependSorted(s: seq<NodeInfo>, x: NodeInfo)
    requires SortedByName(s) && (s == [] || NameLe(x.name, s[0].name))
    ensures SortedByName([x] + s)
  {
    var r := [x] + s;
    forall i, j | 0 <= i < j < |r|
      ensures NameLe(r[i].name, r[j].name)
    {
      if i == 0 && j > 1 {
        NameLeTransitive(x.name, s[0].name, s[j - 1].name);
      }
    }
  }

  lemma SortedTail(s: seq<NodeInfo>)
    requires SortedByName(s) && s != []
    ensures SortedByName(s[1..])
  {
    forall i, j | 0 <= i < j < |s| - 1
      ensures NameLe(s[1..][i].name, s[1..][j].name)
    {
      assert s[1..][i] == s[i + 1] && s[1..][j] == s[j + 1];
    }
  }

  /** Inserts one node into a sorted sequence. */
  function Insert(s: seq<NodeInfo>, x: NodeInfo): (r: seq<NodeInfo>)
    requires SortedByName(s)
    ensures SortedByName(r)
    ensures multiset(r) == multiset(s) + multiset{x}
    decreases |s|
  {
    if s == [] then [x]
    else if NameLe(x.name, s[0].name) then
      PrependSorted(s, x);
      [x] + s
    else
      SortedTail(s);
      var rest := Insert(s[1..], x);
      InsertedHead(s, x, rest);
      PrependSorted(rest, s[0]);
      assert s == [s[0]] + s[1..];
      [s[0]] + rest
  }

  /** The head of a non-empty sorted sequence stays first when a larger node is inserted after it. */
  lemma InsertedHead(s: seq<NodeInfo>, x: NodeInfo, rest: seq<NodeInfo>)
    requires SortedByName(s) && s != [] && !NameLe(x.name, s[0].name)
    requires multiset(rest) == multiset(s[1..]) + multiset{x}
    ensures NameLe(s[0].name, rest[0].name)
  {
    NameLeTotal(x.name, s[0].name);
    assert rest[0] in multiset(rest);
    if rest[0] != x {
      assert rest[0] in multiset(s[1..]);
      var k :| 0 <= k < |s[1..]| && s[1..][k] == rest[0];
      assert s[k + 1] == rest[0];
    }
  }

  /** The reference sort: the nodes ordered by name. */
  function SortedNodes(s: seq<NodeInfo>): (r: seq<NodeInfo>)
    ensures SortedByName(r)
    ensures multiset(r) == multiset(s)
  {
    if s == [] then []
    else
      var n := |s| - 1;
      assert s == s[..n] + [s[n]];
      Insert(SortedNodes(s[..n]), s[n])
  }

  /** Two sorted permutations of one keyed sequence start with the same node. */
  lemma SortedHeads(xs: seq<NodeInfo>, ys: seq<NodeInfo>)
    requires SortedByName(xs) && SortedByName(ys) && xs != [] && ys != []
    requires multiset(xs) == multiset(ys) && NamesDetermineNodes(xs)
    ensures xs[0] == ys[0]
  {
    assert xs[0] in multiset(ys) && ys[0] in multiset(xs);
    var k :| 0 <= k < |ys| && ys[k] == xs[0];
    var m :| 0 <= m < |xs| && xs[m] == ys[0];
    assert NameLe(xs[0].name, ys[0].name) by {
      if m == 0 { NameLeReflexive(xs[0].name); }
    }
    assert NameLe(ys[0].name, xs[0].name) by {
      if k == 0 { NameLeReflexive(ys[0].name); }
    }
    NameLeAntisymmetric(xs[0].name, ys[0].name);
    assert ys[0] in xs;
  }

  lemma MultisetTails<T>(xs: seq<T>, ys: seq<T>)
    requires xs != [] && ys != [] && xs[0] == ys[0] && multiset(xs) == multiset(ys)
    ensures multiset(xs[1..]) == multiset(ys[1..])
  {
    assert xs == [xs[0]] + xs[1..] && ys == [ys[0]] + ys[1..];
    assert multiset(xs[1..]) == multiset(xs) - multiset{xs[0]};
    assert multiset(ys[1..]) == multiset(ys) - multiset{ys[0]};
  }

  lemma KeyedTail(xs: seq<NodeInfo>)
    requires xs != [] && NamesDetermineNodes(xs)
    ensures NamesDetermineNodes(xs[1..])
  {
    forall a, b | a in xs[1..] && b in xs[1..] && a.name == b.name
      ensures a == b
    {
      assert a in xs && b in xs;
    }
  }

  /**
   * When names determine nodes, a sequence has exactly one sorted
   * permutation: any sort produces the reference order.
   */
  lemma {:induction false} SortedUnique(xs: seq<NodeInfo>, ys: seq<NodeInfo>)
    requires SortedByName(xs) && SortedByName(ys)
    requires multiset(xs) == multiset(ys) && NamesDetermineNodes(xs)
    ensures xs == ys
    decreases |xs|
  {
    assert |xs| == |multiset(xs)| == |ys|;
    if xs != [] {
      SortedHeads(xs, ys);
      MultisetTails(xs, ys);
      KeyedTail(xs);
      SortedTail(xs);
      SortedTail(ys);
      SortedUnique(xs[1..], ys[1..]);
      assert xs == [xs[0]] + xs[1..] && ys == [ys[0]] + ys[1..];
    }
  }

  /** `nodes.sort(...)` by name, in place (an insertion sort). */
  method SortByName(a: array<NodeInfo>)
    modifies a
    ensures SortedByName(a[..])
    ensures multiset(a[..]) == multiset(old(a[..]))
  {
    for i := 0 to a.Length
      invariant SortedByName(a[..i])
      invariant multiset(a[..]) == multiset(old(a[..]))
    {
      InsertIntoPrefix(a, i);
    }
    assert a[..a.Length] == a[..];
  }

  /**
   * The state of one insertion pass over `a[..i + 1]`: the node moving
   * down sits at `j`, and the others are sorted and not below it after `j`.
   */
  ghost predicate Sifting(s: seq<NodeInfo>, i: nat, j: nat) {
    && j <= i < |s|
    && (forall p, q :: 0 <= p < q <= i && p != j && q != j ==> NameLe(s[p].name, s[q].name))
    && (forall q :: j < q <= i ==> NameLe(s[j].name, s[q].name))
  }

  /** Swapping the moving node with a greater left neighbour keeps the pass going. */
  lemma SiftStep(s: seq<NodeInfo>, i: nat, j: nat)
    requires Sifting(s, i, j) && 0 < j && !NameLe(s[j - 1].name, s[j].name)
    ensures Sifting(s[j - 1 := s[j]][j := s[j - 1]], i, j - 1)
    ensures multiset(s[j - 1 := s[j]][j := s[j - 1]]) == multiset(s)
  {
    NameLeTotal(s[j - 1].name, s[j].name);
  }

  /** A pass that stops at its place leaves `s[..i + 1]` sorted. */
  lemma SiftDone(s: seq<NodeInfo>, i: nat, j: nat)
    requires Sifting(s, i, j) && (j == 0 || NameLe(s[j - 1].name, s[j].name))
    ensures SortedByName(s[..i + 1])
  {
    forall p | 0 <= p < j
      ensures NameLe(s[p].name, s[j].name)
    {
      if p < j - 1 {
        NameLeTransitive(s[p].name, s[j - 1].name, s[j].name);
      }
    }
    var t := s[..i + 1];
    forall p, q | 0 <= p < q <= i
      ensures NameLe(t[p].name, t[q].name)
    {
    }
  }

  /** One pass of the insertion sort: moves `a[i]` down into the sorted prefix. */
  method InsertIntoPrefix(a: array<NodeInfo>, i: nat)
    requires i < a.Length && SortedByName(a[..i])
    modifies a
    ensures SortedByName(a[..i + 1])
    ensures multiset(a[..]) == multiset(old(a[..]))
  {
    var j: nat := i;
    assert Sifting(a[..], i, j) by {
      forall p, q | 0 <= p < q <= i && p != j && q != j
        ensures NameLe(a[p].name, a[q].name)
      {
        assert a[..i][p] == a[p] && a[..i][q] == a[q];
      }
    }
    while j > 0 && !NameLe(a[j - 1].name, a[j].name)
      invariant Sifting(a[..], i, j)
      invariant multiset(a[..]) == multiset(old(a[..]))
    {
      SiftStep(a[..], i, j);
      a[j - 1], a[j] := a[j], a[j - 1];
      j := j - 1;
    }
    SiftDone(a[..], i, j);
  }

  // ---------------------------------------------------------------------
  // Categories and grouping
  // ---------------------------------------------------------------------

  /** The record pushed for each node into its category's group. */
  datatype Entry = Entry(name: string, displayName: string, description: Option<string>)

  function EntryOf(n: NodeInfo): Entry {
    Entry(n.name, n.displayName, n.description)
  }

  /** The category of a node name: the first `.`-separated part, or "other". */
  function Category(name: string): string {
    var parts := Split(name, '.');
    if |parts| > 1 then parts[0] else "other"
  }

  /** The category is the text before the first `.`, and "other" for a name without one. */
  lemma CategoryOfName(name: string)
    ensures '.' in name ==> Category(name) == name[..FirstIndex(name, '.')]
    ensures '.' !in name ==> Category(name) == "other"
  {
    SplitHead(name, '.');
  }

  function Categories(nodes: seq<NodeInfo>): (cats: seq<string>)
    ensures |cats| == |nodes|
  {
    seq(|nodes|, i requires 0 <= i < |nodes| => Category(nodes[i].name))
  }

  function Entries(nodes: seq<NodeInfo>): (es: seq<Entry>)
    ensures |es| == |nodes|
  {
    seq(|nodes|, i requires 0 <= i < |nodes| => EntryOf(nodes[i]))
  }

  /** The group of category `c`: its nodes' entries, in the order of `nodes`. */
  function Members(nodes: seq<NodeInfo>, c: string): seq<Entry> {
    if nodes == [] then []
    else
      var n := |nodes| - 1;
      Members(nodes[..n], c) + (if Category(nodes[n].name) == c then [EntryOf(nodes[n])] else [])
  }

  /** `Object.entries` of the grouping record: categories in first-appearance order. */
  function Grouped(nodes: seq<NodeInfo>): seq<(string, seq<Entry>)> {
    Groups(nodes, Dedup(Categories(nodes)))
  }

  function Groups(nodes: seq<NodeInfo>, cats: seq<string>): (gs: seq<(string, seq<Entry>)>)
    ensures |gs| == |cats|
  {
    seq(|cats|, i requires 0 <= i < |cats| => (cats[i], Members(nodes, cats[i])))
  }

  /** The number of entries over all groups. */
  function Total(gs: seq<(string, seq<Entry>)>): nat {
    if gs == [] then 0 else Total(gs[..|gs| - 1]) + |gs[|gs| - 1].1|
  }

  lemma CategoriesPrefix(nodes: seq<NodeInfo>, n: nat)
    requires n <= |nodes|
    ensures Categories(nodes[..n]) == Categories(nodes)[..n]
    ensures Entries(nodes[..n]) == Entries(nodes)[..n]
  {
  }

  lemma CategoriesAppend(nodes: seq<NodeInfo>, x: NodeInfo)
    ensures Categories(nodes + [x]) == Categories(nodes) + [Category(x.name)]
    ensures Dedup(Categories(nodes + [x]))
              == var d := Dedup(Categories(nodes));
                 if Category(x.name) in d then d else d + [Category(x.name)]
  {
    assert Categories(nodes + [x]) == Categories(nodes) + [Category(x.name)];
    assert (Categories(nodes) + [Category(x.name)])[..|nodes|] == Categories(nodes);
  }

  lemma MembersAppend(nodes: seq<NodeInfo>, x: NodeInfo, c: string)
    ensures Members(nodes + [x], c) == Members(nodes, c) + (if Category(x.name) == c then [EntryOf(x)] else [])
  {
    assert (nodes + [x])[..|nodes|] == nodes;
  }

  /** A group holds exactly the entries of the nodes of its category. */
  lemma {:induction false} MembersExactly(nodes: seq<NodeInfo>, c: string)
    ensures forall e :: e in Members(nodes, c) <==> e in Entries(nodes) && Category(e.name) == c
  {
    if nodes != [] {
      var n := |nodes| - 1;
      MembersExactly(nodes[..n], c);
      CategoriesPrefix(nodes, n);
      assert Entries(nodes) == Entries(nodes[..n]) + [EntryOf(nodes[n])];
    }
  }

  lemma {:induction false} MembersAbsent(nodes: seq<NodeInfo>, c: string)
    requires c !in Categories(nodes)
    ensures Members(nodes, c) == []
  {
    if nodes != [] {
      var n := |nodes| - 1;
      CategoriesPrefix(nodes, n);
      assert Categories(nodes)[n] == Category(nodes[n].name);
      MembersAbsent(nodes[..n], c);
    }
  }

  /** Within a group the nodes keep the sorted-by-name order. */
  lemma {:induction false} MembersSorted(nodes: seq<NodeInfo>, c: string)
    requires SortedByName(nodes)
    ensures forall i, j :: 0 <= i < j < |Members(nodes, c)| ==>
              NameLe(Members(nodes, c)[i].name, Members(nodes, c)[j].name)
  {
    if nodes != [] {
      var n := |nodes| - 1;
      var p := nodes[..n];
      assert SortedByName(p);
      MembersSorted(p, c);
      MembersExactly(p, c);
      var ms := Members(p, c);
      forall i | 0 <= i < |ms|
        ensures NameLe(ms[i].name, nodes[n].name)
      {
        assert ms[i] in Entries(p);
        var k :| 0 <= k < |p| && Entries(p)[k] == ms[i];
        assert nodes[k] == p[k];
      }
    }
  }

  /** Adding one node adds one entry to its own category's group and none to the others. */
  lemma {:induction false} TotalAddNode(nodes: seq<NodeInfo>, x: NodeInfo, cats: seq<string>)
    requires Distinct(cats)
    ensures Total(Groups(nodes + [x], cats))
              == Total(Groups(nodes, cats)) + (if Category(x.name) in cats then 1 else 0)
  {
    if cats != [] {
      var n := |cats| - 1;
      var cs := cats[..n];
      assert cats == cs + [cats[n]];
      assert Distinct(cs) && cats[n] !in cs;
      TotalAddNode(nodes, x, cs);
      GroupsSnoc(nodes + [x], cs, cats[n]);
      GroupsSnoc(nodes, cs, cats[n]);
      MembersAppend(nodes, x, cats[n]);
    }
  }

  /** The total of a group list whose key list grows by one key. */
  lemma GroupsSnoc(nodes: seq<NodeInfo>, cs: seq<string>, c: string)
    ensures Total(Groups(nodes, cs + [c])) == Total(Groups(nodes, cs)) + |Members(nodes, c)|
  {
    var gs := Groups(nodes, cs + [c]);
    assert gs[..|cs|] == Groups(nodes, cs);
  }

  /** Grouping is a partition: the group sizes add up to the node count. */
  lemma {:induction false} GroupSizesSum(nodes: seq<NodeInfo>)
    ensures Total(Grouped(nodes)) == |nodes|
  {
    if nodes != [] {
      var n := |nodes| - 1;
      var p := nodes[..n];
      var x := nodes[n];
      var k := Category(x.name);
      var d := Dedup(Categories(p));
      assert nodes == p + [x];
      GroupSizesSum(p);
      CategoriesAppend(p, x);
      DedupDistinct(Categories(p));
      TotalAddNode(p, x, d);
      if k !in d {
        NewGroupTotal(p, x, d);
      }
    }
  }

  /** A node of a new category opens a group of one entry at the end. */
  lemma NewGroupTotal(p: seq<NodeInfo>, x: NodeInfo, d: seq<string>)
    requires d == Dedup(Categories(p)) && Category(x.name) !in d
    ensures Total(Groups(p + [x], d + [Category(x.name)])) == Total(Groups(p + [x], d)) + 1
  {
    var k := Category(x.name);
    assert Groups(p + [x], d + [k])[..|d|] == Groups(p + [x], d);
    DedupElements(Categories(p));
    MembersAbsent(p, k);
    MembersAppend(p, x, k);
  }

  /**
   * Every node lies in the group of its own category and in no other,
   * and that category occurs exactly once among the groups.
   */
  lemma NodeInExactlyOneGroup(nodes: seq<NodeInfo>, i: nat)
    requires i < |nodes|
    ensures var gs := Grouped(nodes);
            (forall g :: 0 <= g < |gs| ==>
               (EntryOf(nodes[i]) in gs[g].1 <==> gs[g].0 == Category(nodes[i].name)))
            && (exists g :: 0 <= g < |gs| && gs[g].0 == Category(nodes[i].name))
            && (forall g, h :: 0 <= g < h < |gs| ==> gs[g].0 != gs[h].0)
  {
    var cats := Categories(nodes);
    var d := Dedup(cats);
    var gs := Grouped(nodes);
    DedupElements(cats);
    DedupDistinct(cats);
    assert cats[i] == Category(nodes[i].name);
    assert Entries(nodes)[i] == EntryOf(nodes[i]);
    forall g | 0 <= g < |gs|
      ensures EntryOf(nodes[i]) in gs[g].1 <==> gs[g].0 == Category(nodes[i].name)
    {
      MembersExactly(nodes, d[g]);
    }
    var g := FirstIndex(d, Category(nodes[i].name));
    assert gs[g].0 == Category(nodes[i].name);
  }

  /** Groups appear in the order in which their categories first occur. */
  lemma GroupsInFirstAppearanceOrder(nodes: seq<NodeInfo>)
    ensures var gs := Grouped(nodes);
            forall g :: 0 <= g < |gs| ==> gs[g].0 in Categories(nodes)
    ensures var gs := Grouped(nodes);
            forall g, h :: 0 <= g < h < |gs| ==>
              FirstIndex(Categories(nodes), gs[g].0) < FirstIndex(Categories(nodes), gs[h].0)
  {
    DedupElements(Categories(nodes));
    DedupFirstAppearanceOrder(Categories(nodes));
  }

  /** The grouping record after the loop has gone through `prefix`. */
  ghost predicate GroupingOf(prefix: seq<NodeInfo>, keys: seq<string>, groups: map<string, seq<Entry>>) {
    && keys == Dedup(Categories(prefix))
    && (forall c :: c in groups <==> c in keys)
    && (forall c :: c in groups ==> groups[c] == Members(prefix, c))
  }

  /** One turn of the grouping loop: create the group if missing, then push. */
  lemma GroupStep(prefix: seq<NodeInfo>, node: NodeInfo, keys: seq<string>, groups: map<string, seq<Entry>>)
    requires GroupingOf(prefix, keys, groups)
    ensures var c := Category(node.name);
            var keys' := if c in groups then keys else keys + [c];
            var created := if c in groups then groups else groups[c := []];
            GroupingOf(prefix + [node], keys', created[c := created[c] + [EntryOf(node)]])
  {
    var c := Category(node.name);
    var created := if c in groups then groups else groups[c := []];
    CategoriesAppend(prefix, node);
    if c !in groups {
      DedupElements(Categories(prefix));
      MembersAbsent(prefix, c);
    }
    assert created[c] == Members(prefix, c);
    var groups' := created[c := created[c] + [EntryOf(node)]];
    forall k | k in groups'
      ensures groups'[k] == Members(prefix + [node], k)
    {
      MembersAppend(prefix, node, k);
    }
  }

  /** The grouping loop over the sorted array, then `Object.entries`. */
  method GroupByCategory(nodes: array<NodeInfo>) returns (grouped: seq<(string, seq<Entry>)>)
    ensures grouped == Grouped(nodes[..])
  {
    var keys: seq<string> := [];
    var groups: map<string, seq<Entry>> := map[];
    for i := 0 to nodes.Length
      invariant GroupingOf(nodes[..i], keys, groups)
    {
      var node := nodes[i];
      var parts := Split(node.name, '.');
      var category := if |parts| > 1 then parts[0] else "other";
      GroupStep(nodes[..i], node, keys, groups);
      assert nodes[..i + 1] == nodes[..i] + [node];
      if category !in groups {
        groups := groups[category := []];
        keys := keys + [category];
      }
      groups := groups[category := groups[category] + [EntryOf(node)]];
    }
    assert nodes[..nodes.Length] == nodes[..];
    grouped := seq(|keys|, k requires 0 <= k < |keys| => (keys[k], groups[keys[k]]));
  }

  // ---------------------------------------------------------------------
  // The category filter
  // ---------------------------------------------------------------------

  /** `params.category` is given and non-empty (truthy). */
  predicate Given(category: Option<string>) {
    category.Some? && category.value != ""
  }

  /** The groups whose category equals `wanted` ignoring case, in their order. */
  function KeepCategory(gs: seq<(string, seq<Entry>)>, wanted: string): (kept: seq<(string, seq<Entry>)>)
    ensures |kept| <= |gs|
    ensures forall g :: g in kept <==> g in gs && Lower(g.0) == Lower(wanted)
  {
    if gs == [] then []
    else (if Lower(gs[0].0) == Lower(wanted) then [gs[0]] else []) + KeepCategory(gs[1..], wanted)
  }

  /** The filter step: a given category keeps only its own groups, otherwise all stay. */
  function FilterCategory(gs: seq<(string, seq<Entry>)>, category: Option<string>): (kept: seq<(string, seq<Entry>)>)
    ensures !Given(category) ==> kept == gs
    ensures Given(category) ==> forall g :: g in kept <==> g in gs && Lower(g.0) == Lower(category.value)
  {
    if Given(category) then KeepCategory(gs, category.value) else gs
  }

  /** Filtering a concatenation filters each part: the kept groups keep their order. */
  lemma {:induction false} KeepConcat(xs: seq<(string, seq<Entry>)>, ys: seq<(string, seq<Entry>)>, wanted: string)
    ensures KeepCategory(xs + ys, wanted) == KeepCategory(xs, wanted) + KeepCategory(ys, wanted)
  {
    if xs == [] {
      assert xs + ys == ys;
    } else {
      var head := if Lower(xs[0].0) == Lower(wanted) then [xs[0]] else [];
      assert (xs + ys)[0] == xs[0];
      assert (xs + ys)[1..] == xs[1..] + ys;
      calc {
        KeepCategory(xs + ys, wanted);
        head + KeepCategory(xs[1..] + ys, wanted);
        { KeepConcat(xs[1..], ys, wanted); }
        head + (KeepCategory(xs[1..], wanted) + KeepCategory(ys, wanted));
        KeepCategory(xs, wanted) + KeepCategory(ys, wanted);
      }
    }
  }

  /** Every group's category occurs in `cats`, and the groups follow its first occurrences. */
  ghost predicate InFirstOrder(gs: seq<(string, seq<Entry>)>, cats: seq<string>) {
    && (forall g :: 0 <= g < |gs| ==> gs[g].0 in cats)
    && (forall g, h :: 0 <= g < h < |gs| ==> FirstIndex(cats, gs[g].0) < FirstIndex(cats, gs[h].0))
  }

  /** Groups ordered by the first position of their category stay so ordered when filtered. */
  lemma {:induction false} KeepOrdered(gs: seq<(string, seq<Entry>)>, wanted: string, cats: seq<string>)
    requires InFirstOrder(gs, cats)
    ensures InFirstOrder(KeepCategory(gs, wanted), cats)
  {
    if gs != [] {
      var tail := gs[1..];
      var rest := KeepCategory(tail, wanted);
      assert InFirstOrder(tail, cats) by {
        forall g | 0 <= g < |tail| ensures tail[g] == gs[g + 1] { }
      }
      KeepOrdered(tail, wanted, cats);
      if Lower(gs[0].0) == Lower(wanted) {
        var first := FirstIndex(cats, gs[0].0);
        forall h | 0 <= h < |rest| ensures first < FirstIndex(cats, rest[h].0) {
          assert rest[h] in tail;
          var m :| 0 <= m < |tail| && tail[m] == rest[h];
          assert gs[m + 1] == rest[h];
        }
        ConsInFirstOrder(gs[0], rest, cats);
      }
    }
  }

  /** A group before all of an ordered sequence's first positions extends it. */
  lemma ConsInFirstOrder(x: (string, seq<Entry>), rest: seq<(string, seq<Entry>)>, cats: seq<string>)
    requires x.0 in cats && InFirstOrder(rest, cats)
    requires forall h :: 0 <= h < |rest| ==> FirstIndex(cats, x.0) < FirstIndex(cats, rest[h].0)
    ensures InFirstOrder([x] + rest, cats)
  {
    var s := [x] + rest;
    forall g, h | 0 <= g < h < |s| ensures FirstIndex(cats, s[g].0) < FirstIndex(cats, s[h].0) {
      assert s[h] == rest[h - 1];
      if g > 0 {
        assert s[g] == rest[g - 1];
      }
    }
  }

  /**
   * The groups the listing shows are the groups of categories that occur in
   * the sorted catalogue, in the order their categories first occur there.
   */
  lemma KeptInFirstAppearanceOrder(params: ListParams, nodes: seq<NodeInfo>)
    ensures var cats := Categories(SortedNodes(nodes));
            var kept := Kept(params, nodes);
            (forall g :: 0 <= g < |kept| ==> kept[g].0 in cats)
            && (forall g, h :: 0 <= g < h < |kept| ==> FirstIndex(cats, kept[g].0) < FirstIndex(cats, kept[h].0))
  {
    var sorted := SortedNodes(nodes);
    var gs := Grouped(sorted);
    GroupsInFirstAppearanceOrder(sorted);
    assert InFirstOrder(gs, Categories(sorted));
    if Given(params.category) {
      KeepOrdered(gs, params.category.value, Categories(sorted));
    }
    assert InFirstOrder(Kept(params, nodes), Categories(sorted));
  }

  // ---------------------------------------------------------------------
  // Rendering
  // ---------------------------------------------------------------------

  datatype Verbosity = Concise | Summary | Full

  /** The tool parameters; an absent field is `None`. */
  datatype ListParams = ListParams(verbosity: Option<Verbosity>, category: Option<string>)

  /** `params.verbosity || 'concise'`. */
  function VerbosityOf(params: ListParams): Verbosity {
    if params.verbosity.Some? then params.verbosity.value else Concise
  }

  function Header(count: nat): string {
    "Found " + NatToString(count) + " available nodes in the n8n instance.\n\n"
    + "When creating workflows, use these exact node types to ensure compatibility.\n\n"
  }

  const SummaryTitle: string := "Node counts by category:\n\n"
  const ListTitle: string := "Available nodes by category:\n\n"

  /** The summary line of one group, without its line break. */
  function CountLine(g: (string, seq<Entry>)): string {
    "- " + g.0 + ": " + NatToString(|g.1|) + " nodes"
  }

  function CountLineList(gs: seq<(string, seq<Entry>)>): (lines: seq<string>)
    ensures |lines| == |gs|
  {
    seq(|gs|, i requires 0 <= i < |gs| => CountLine(gs[i]))
  }

  /** The summary lines of the groups, each followed by a line break. */
  function CountLines(gs: seq<(string, seq<Entry>)>): string {
    if gs == [] then "" else CountLine(gs[0]) + "\n" + CountLines(gs[1..])
  }

  /** `node.description` is truthy. */
  predicate HasDescription(e: Entry) {
    e.description.Some? && e.description.value != ""
  }

  function NodeLine(e: Entry, v: Verbosity): string {
    "- `" + e.name + "`: " + e.displayName
    + (if v == Full && HasDescription(e) then " - " + e.description.value else "")
  }

  function NodeLines(es: seq<Entry>, v: Verbosity): (lines: seq<string>)
    ensures |lines| == |es|
  {
    seq(|es|, i requires 0 <= i < |es| => NodeLine(es[i], v))
  }

  function Section(g: (string, seq<Entry>), v: Verbosity): string {
    "## " + g.0 + "\n\n" + Join(NodeLines(g.1, v), "\n")
  }

  function Sections(gs: seq<(string, seq<Entry>)>, v: Verbosity): (texts: seq<string>)
    ensures |texts| == |gs|
  {
    seq(|gs|, i requires 0 <= i < |gs| => Section(gs[i], v))
  }

  /** The groups the listing shows. */
  function Kept(params: ListParams, nodes: seq<NodeInfo>): seq<(string, seq<Entry>)> {
    FilterCategory(Grouped(SortedNodes(nodes)), params.category)
  }

  /** What follows the header: the counts, or the sections of node lines. */
  function Body(v: Verbosity, kept: seq<(string, seq<Entry>)>): string {
    if v == Summary then SummaryTitle + CountLines(kept)
    else ListTitle + Join(Sections(kept, v), "\n\n")
  }

  /** The listing text for a verbosity, a header count and the shown groups. */
  function Render(v: Verbosity, count: nat, kept: seq<(string, seq<Entry>)>): string {
    Header(count) + Body(v, kept)
  }

  /** The text `list_available_nodes` answers with for the catalogue `nodes`. */
  function Listing(params: ListParams, nodes: seq<NodeInfo>): string {
    Render(VerbosityOf(params), |nodes|, Kept(params, nodes))
  }

  lemma PrefixOfConcat<T>(a: seq<T>, b: seq<T>)
    ensures a <= a + b
  {
    assert (a + b)[..|a|] == a;
  }

  lemma {:induction false} CountLinesAppend(gs: seq<(string, seq<Entry>)>, g: (string, seq<Entry>))
    ensures CountLines(gs + [g]) == CountLines(gs) + CountLine(g) + "\n"
  {
    if gs == [] {
      assert [g][1..] == [];
    } else {
      assert (gs + [g])[1..] == gs[1..] + [g];
      CountLinesAppend(gs[1..], g);
    }
  }

  /**
   * The summary body has one line per group, `- category: n nodes`, when no
   * category name contains a line break.
   */
  lemma {:induction false} CountLinesAreLines(gs: seq<(string, seq<Entry>)>)
    requires forall i :: 0 <= i < |gs| ==> '\n' !in gs[i].0
    ensures Split(CountLines(gs), '\n') == CountLineList(gs) + [""]
  {
    if gs != [] {
      var g := gs[0];
      NatToStringDigits(|g.1|);
      assert '\n' !in NatToString(|g.1|);
      assert '\n' !in CountLine(g);
      CountLinesAreLines(gs[1..]);
      SplitAfterPiece(CountLine(g), CountLines(gs[1..]), '\n');
    }
  }

  /** Whatever the filter and verbosity, the header counts every node, grouped or not. */
  lemma ListingHeader(params: ListParams, nodes: seq<NodeInfo>)
    ensures Header(|nodes|) <= Listing(params, nodes)
    ensures Total(Grouped(SortedNodes(nodes))) == |nodes|
  {
    PrefixOfConcat(Header(|nodes|), Body(VerbosityOf(params), Kept(params, nodes)));
    var sorted := SortedNodes(nodes);
    GroupSizesSum(sorted);
    assert |sorted| == |multiset(sorted)| == |multiset(nodes)| == |nodes|;
  }

  lemma ConcatAssoc<T>(a: seq<T>, b: seq<T>, c: seq<T>)
    ensures (a + b) + c == a + (b + c)
  {
  }

  /** A group shown by the listing is the whole group of a category some node has. */
  lemma KeptGroup(params: ListParams, nodes: seq<NodeInfo>, g: (string, seq<Entry>))
    requires g in Kept(params, nodes)
    ensures exists n :: n in nodes && Category(n.name) == g.0
    ensures g.1 == Members(SortedNodes(nodes), g.0)
  {
    var sorted := SortedNodes(nodes);
    var cats := Categories(sorted);
    assert g in Grouped(sorted);
    var i :| 0 <= i < |Dedup(cats)| && Grouped(sorted)[i] == g;
    DedupElements(cats);
    assert g.0 in cats;
    var j :| 0 <= j < |cats| && cats[j] == g.0;
    assert sorted[j] in multiset(nodes);
  }

  /**
   * At `'summary'` the listing is the header, the counts title and one
   * `- category: n nodes` line per shown group, where n is the size of that
   * category's group.
   */
  lemma SummaryListing(params: ListParams, nodes: seq<NodeInfo>)
    requires VerbosityOf(params) == Summary
    requires forall n :: n in nodes ==> '\n' !in n.name
    ensures Listing(params, nodes) == Header(|nodes|) + Body(Summary, Kept(params, nodes))
    ensures var kept := Kept(params, nodes);
            && Split(CountLines(kept), '\n') == CountLineList(kept) + [""]
            && forall i :: 0 <= i < |kept| ==> |kept[i].1| == |Members(SortedNodes(nodes), kept[i].0)|
  {
    var kept := Kept(params, nodes);
    forall i | 0 <= i < |kept|
      ensures '\n' !in kept[i].0
      ensures |kept[i].1| == |Members(SortedNodes(nodes), kept[i].0)|
    {
      KeptGroupKey(params, nodes, kept[i]);
    }
    CountLinesAreLines(kept);
  }

  lemma KeptGroupKey(params: ListParams, nodes: seq<NodeInfo>, g: (string, seq<Entry>))
    requires forall n :: n in nodes ==> '\n' !in n.name
    requires g in Kept(params, nodes)
    ensures '\n' !in g.0
    ensures |g.1| == |Members(SortedNodes(nodes), g.0)|
  {
    KeptGroup(params, nodes, g);
    var n :| n in nodes && Category(n.name) == g.0;
    CategoryOfName(n.name);
  }

  /** Without a verbosity the listing is the concise one. */
  lemma DefaultIsConcise(params: ListParams, nodes: seq<NodeInfo>)
    requires params.verbosity.None?
    ensures Listing(params, nodes) == Listing(params.(verbosity := Some(Concise)), nodes)
    ensures VerbosityOf(params) != Summary
  {
  }

  /** A concise section shows names and display names only: descriptions never change it. */
  lemma ConciseOmitsDescriptions(g: (string, seq<Entry>), h: (string, seq<Entry>))
    requires g.0 == h.0 && |g.1| == |h.1|
    requires forall i :: 0 <= i < |g.1| ==> g.1[i].name == h.1[i].name && g.1[i].displayName == h.1[i].displayName
    ensures Section(g, Concise) == Section(h, Concise)
  {
    assert NodeLines(g.1, Concise) == NodeLines(h.1, Concise);
  }

  /** A full line is the concise line with ` - description` added exactly when one is present. */
  lemma FullAddsPresentDescription(e: Entry)
    ensures HasDescription(e) ==> NodeLine(e, Full) == NodeLine(e, Concise) + " - " + e.description.value
    ensures !HasDescription(e) ==> NodeLine(e, Full) == NodeLine(e, Concise)
  {
  }

  /** A group without descriptions reads the same at `'full'` as at `'concise'`. */
  lemma FullWithoutDescriptionsIsConcise(g: (string, seq<Entry>))
    requires forall i :: 0 <= i < |g.1| ==> !HasDescription(g.1[i])
    ensures Section(g, Full) == Section(g, Concise)
  {
    assert NodeLines(g.1, Full) == NodeLines(g.1, Concise);
  }

  // ---------------------------------------------------------------------
  // The handler
  // ---------------------------------------------------------------------

  /** A fresh array holding the catalogue, sorted in place by name. */
  method SortedCatalogue(available: seq<NodeInfo>) returns (nodes: array<NodeInfo>)
    requires NamesDetermineNodes(available)
    ensures fresh(nodes) && nodes.Length == |available|
    ensures nodes[..] == SortedNodes(available)
  {
    nodes := new NodeInfo[|available|](i requires 0 <= i < |available| => available[i]);
    assert nodes[..] == available;
    SortByName(nodes);
    KeyedPermutation(available, nodes[..]);
    SortedUnique(nodes[..], SortedNodes(available));
  }

  /** The `forEach` of the summary branch: one count line per group, appended to `output`. */
  method AppendCountLines(output: string, groups: seq<(string, seq<Entry>)>) returns (result: string)
    ensures result == output + CountLines(groups)
  {
    result := output;
    for k := 0 to |groups|
      invariant result == output + CountLines(groups[..k])
    {
      CountLinesAppend(groups[..k], groups[k]);
      assert groups[..k + 1] == groups[..k] + [groups[k]];
      ConcatAssoc(output, CountLines(groups[..k]), CountLine(groups[k]));
      ConcatAssoc(output, CountLines(groups[..k]) + CountLine(groups[k]), "\n");
      result := result + CountLine(groups[k]) + "\n";
    }
    assert groups[..|groups|] == groups;
  }

  /** The `output +=` steps of the handler, from the header on. */
  method BuildOutput(verbosity: Verbosity, count: nat, filtered: seq<(string, seq<Entry>)>) returns (output: string)
    ensures output == Render(verbosity, count, filtered)
  {
    output := "";
    output := output + Header(count);
    assert output == Header(count);
    if verbosity == Summary {
      output := output + SummaryTitle;
      output := AppendCountLines(output, filtered);
      ConcatAssoc(Header(count), SummaryTitle, CountLines(filtered));
      return;
    }
    output := output + ListTitle;
    ghost var sections := Sections(filtered, verbosity);
    assert seq(|filtered|, k requires 0 <= k < |filtered| => Section(filtered[k], verbosity)) == sections;
    output := output + Join(seq(|filtered|, k requires 0 <= k < |filtered| => Section(filtered[k], verbosity)), "\n\n");
    ConcatAssoc(Header(count), ListTitle, Join(sections, "\n\n"));
  }

  /**
   * `handle_list_available_nodes` over the catalogue `available` (the
   * validator's node listing, in which names determine nodes).
   */
  method HandleListAvailableNodes(params: ListParams, available: seq<NodeInfo>) returns (text: string)
    requires NamesDetermineNodes(available)
    ensures text == Listing(params, available)
  {
    var nodes := SortedCatalogue(available);
    var grouped := GroupByCategory(nodes);
    var filtered := FilterCategory(grouped, params.category);
    var verbosity := if params.verbosity.Some? then params.verbosity.value else Concise;
    text := BuildOutput(verbosity, nodes.Length, filtered);
  }
}
