/** One node of an extension's dependency tree (the `ExtensionDependencies`
    class). A node holds the extension it denotes, the catalog that maps
    `publisher.name` identifiers to extensions, and the node it was expanded
    from. Its children are recomputed from the catalog on every access: there
    is no memoisation, no de-duplication and no cycle guard, so a bounded
    unfolding (`Unfold`) stands for "traverse the tree to a given depth". */
module ExtensionDependencies {
  import opened Wrappers
  import opened ExtensionModel

  /** The known extensions, keyed by `publisher.name`. */
  type Catalog = map<string, Extension>

  /** A tree node; `dependent` is the node whose dependency this one is, absent at the root. */
  datatype DepNode = DepNode(extension: Extension, catalog: Catalog, dependent: Option<DepNode>)

  /** The constructor with its default parent: the root of a tree. */
  function Root(e: Extension, catalog: Catalog): (n: DepNode)
    ensures n.extension == e && n.catalog == catalog
    ensures n.dependent == None && Lineage(n) == [e]
  {
    DepNode(e, catalog, None)
  }

  /** The root of `n`'s tree: the node reached by following `dependent` to its end. */
  function RootOf(n: DepNode): (r: DepNode)
    ensures r.dependent.None?
    ensures n.dependent.None? ==> r == n
    decreases n
  {
    match n.dependent
    case None => n
    case Some(p) => RootOf(p)
  }

  /** The extensions from the root of `n`'s tree down to `n` itself, following `dependent`. */
  function Lineage(n: DepNode): (r: seq<Extension>)
    ensures |r| >= 1 && r[|r| - 1] == n.extension
    ensures r[0] == RootOf(n).extension
    ensures n.dependent.None? <==> |r| == 1
    decreases n
  {
    match n.dependent
    case None => [n.extension]
    case Some(p) => Lineage(p) + [n.extension]
  }

  /** The identifiers `n`'s extension declares in its gallery record. */
  function DeclaredIds(n: DepNode): seq<string>
    requires GalleryOf(n.extension).Some?
  {
    GalleryOf(n.extension).value.dependencies
  }

  /** `hasDependencies`: the gallery record declares at least one dependency. The
      getter reads the gallery record unguarded, so one must be present. */
  function HasDependencies(n: DepNode): (r: bool)
    requires GalleryOf(n.extension).Some?
    ensures r <==> |DeclaredIds(n)| > 0
    ensures r == ExtensionModel.HasDependencies(n.extension)
  {
    |GalleryOf(n.extension).value.dependencies| > 0
  }

  /** `dependencies` can be computed: the gallery record is present and every
      declared identifier is a catalog key (the getter looks each one up unguarded). */
  predicate Resolvable(n: DepNode)
  {
    GalleryOf(n.extension).Some? &&
    forall i :: 0 <= i < |DeclaredIds(n)| ==> DeclaredIds(n)[i] in n.catalog
  }

  /** `dependencies`: one new child per declared identifier, in declaration order
      and with duplicates kept; child `i` denotes the catalog entry of the `i`-th
      identifier, shares the catalog, and has this node as its `dependent`. */
  function Dependencies(n: DepNode): (r: seq<DepNode>)
    requires Resolvable(n)
    ensures |r| == |DeclaredIds(n)|
    ensures forall i :: 0 <= i < |r| ==>
      r[i].extension == n.catalog[DeclaredIds(n)[i]] && r[i].catalog == n.catalog && r[i].dependent == Some(n)
    ensures forall i, j :: 0 <= i < |r| && 0 <= j < |r| && DeclaredIds(n)[i] == DeclaredIds(n)[j] ==> r[i] == r[j]
  {
    var ids := DeclaredIds(n);
    seq(|ids|, i requires 0 <= i < |ids| => DepNode(n.catalog[ids[i]], n.catalog, Some(n)))
  }

  /** A node has children exactly when it reports dependencies. */
  lemma HasDependenciesIffChildren(n: DepNode)
    requires Resolvable(n)
    ensures HasDependencies(n) <==> |Dependencies(n)| > 0
  {
  }

  /** Each child's lineage is its parent's lineage extended by the child's extension. */
  lemma ChildLineage(n: DepNode, i: nat)
    requires Resolvable(n) && i < |Dependencies(n)|
    ensures Lineage(Dependencies(n)[i]) == Lineage(n) + [n.catalog[DeclaredIds(n)[i]]]
  {
  }

  // ---------------------------------------------------------------------
  // Bounded unfolding

  /** Every node met when unfolding `e` to depth `fuel` can list its
      dependencies: enough for the source not to fail on the way. */
  predicate Expandable(e: Extension, catalog: Catalog, fuel: nat)
    decreases fuel
  {
    fuel == 0 ||
    (GalleryOf(e).Some? &&
     var ids := GalleryOf(e).value.dependencies;
     (forall i :: 0 <= i < |ids| ==> ids[i] in catalog) &&
     (forall i :: 0 <= i < |ids| ==> Expandable(catalog[ids[i]], catalog, fuel - 1)))
  }

  /** A traversal of the tree: a node whose children were listed, or one the
      traversal stopped at because its depth bound was reached. */
  datatype Tree = Expanded(node: DepNode, children: seq<Tree>) | Unexpanded(node: DepNode)

  /** The tree below `n`, listing children down to depth `fuel`. */
  function Unfold(n: DepNode, fuel: nat): (t: Tree)
    requires Expandable(n.extension, n.catalog, fuel)
    ensures t.node == n
    ensures t.Unexpanded? <==> fuel == 0
    ensures t.Expanded? ==> Resolvable(n) && |t.children| == |Dependencies(n)|
    ensures t.Expanded? ==> forall i :: 0 <= i < |t.children| ==> t.children[i].node == Dependencies(n)[i]
    decreases fuel
  {
    if fuel == 0 then Unexpanded(n)
    else
      var kids := Dependencies(n);
      Expanded(n, seq(|kids|, i requires 0 <= i < |kids| => Unfold(kids[i], fuel - 1)))
  }

  /** Every listed node's children are exactly that node's `dependencies`. */
  ghost predicate Faithful(t: Tree)
    decreases t
  {
    match t
    case Unexpanded(_) => true
    case Expanded(n, cs) =>
      Resolvable(n) && |cs| == |Dependencies(n)| &&
      forall i :: 0 <= i < |cs| ==> cs[i].node == Dependencies(n)[i] && Faithful(cs[i])
  }

  /** Every child in the tree points back at its parent and shares its catalog. */
  ghost predicate Linked(t: Tree)
    decreases t
  {
    match t
    case Unexpanded(_) => true
    case Expanded(n, cs) =>
      forall i :: 0 <= i < |cs| ==>
        cs[i].node.dependent == Some(n) && cs[i].node.catalog == n.catalog && Linked(cs[i])
  }

  /** `t` is `u` cut off at some nodes: same nodes, with `u` possibly listing
      children where `t` stopped. */
  ghost predicate Prefix(t: Tree, u: Tree)
    decreases t
  {
    t.node == u.node &&
    match t
    case Unexpanded(_) => true
    case Expanded(_, cs) =>
      u.Expanded? && |cs| == |u.children| &&
      forall i :: 0 <= i < |cs| ==> Prefix(cs[i], u.children[i])
  }

  /** No branch of `t` lists children more than `depth` levels down. */
  ghost predicate DepthAtMost(t: Tree, depth: nat)
    decreases t
  {
    match t
    case Unexpanded(_) => true
    case Expanded(_, cs) => depth > 0 && forall i :: 0 <= i < |cs| ==> DepthAtMost(cs[i], depth - 1)
  }

  /** `t` is a single branch of exactly `depth` listed levels, every node
      denoting the same extension, ending where the traversal stopped. */
  ghost predicate Chain(t: Tree, depth: nat)
    decreases depth
  {
    if depth == 0 then t.Unexpanded?
    else
      t.Expanded? && |t.children| == 1 &&
      t.children[0].node.extension == t.node.extension && Chain(t.children[0], depth - 1)
  }

  /** The unfolded tree lists children exactly as `dependencies` does, at every level. */
  lemma {:induction false} UnfoldIsFaithful(n: DepNode, fuel: nat)
    requires Expandable(n.extension, n.catalog, fuel)
    ensures Faithful(Unfold(n, fuel))
    decreases fuel
  {
    if fuel > 0 {
      var t := Unfold(n, fuel);
      var kids := Dependencies(n);
      forall i | 0 <= i < |t.children|
        ensures Faithful(t.children[i])
      {
        UnfoldIsFaithful(kids[i], fuel - 1);
      }
    }
  }

  /** A faithful tree is linked: every child's `dependent` is its parent node. */
  lemma {:induction false} FaithfulIsLinked(t: Tree)
    requires Faithful(t)
    ensures Linked(t)
    decreases t
  {
    match t
    case Unexpanded(_) =>
    case Expanded(n, cs) =>
      forall i | 0 <= i < |cs|
        ensures cs[i].node.dependent == Some(n) && cs[i].node.catalog == n.catalog && Linked(cs[i])
      {
        FaithfulIsLinked(cs[i]);
      }
  }

  /** A node that can be unfolded to some depth can be unfolded to any smaller depth. */
  lemma {:induction false} ExpandableMonotone(e: Extension, catalog: Catalog, fuel: nat, less: nat)
    requires Expandable(e, catalog, fuel) && less <= fuel
    ensures Expandable(e, catalog, less)
    decreases fuel
  {
    if less > 0 {
      var ids := GalleryOf(e).value.dependencies;
      forall i | 0 <= i < |ids|
        ensures Expandable(catalog[ids[i]], catalog, less - 1)
      {
        ExpandableMonotone(catalog[ids[i]], catalog, fuel - 1, less - 1);
      }
    }
  }

  /** More fuel only extends the traversal: the shallower tree is a prefix of the deeper one. */
  lemma {:induction false} UnfoldMonotone(n: DepNode, fuel: nat, less: nat)
    requires Expandable(n.extension, n.catalog, fuel) && less <= fuel
    ensures Expandable(n.extension, n.catalog, less)
    ensures Prefix(Unfold(n, less), Unfold(n, fuel))
    decreases less
  {
    ExpandableMonotone(n.extension, n.catalog, fuel, less);
    if less > 0 {
      var t, u := Unfold(n, less), Unfold(n, fuel);
      var kids := Dependencies(n);
      forall i | 0 <= i < |t.children|
        ensures Prefix(t.children[i], u.children[i])
      {
        UnfoldMonotone(kids[i], fuel - 1, less - 1);
      }
    }
  }

  /** The children of a traversal with fuel are traversals of the node's
      dependencies with one less fuel. */
  lemma UnfoldChildren(n: DepNode, fuel: nat)
    requires fuel > 0 && Expandable(n.extension, n.catalog, fuel)
    ensures Resolvable(n)
    ensures forall i :: 0 <= i < |Dependencies(n)| ==>
      Expandable(Dependencies(n)[i].extension, n.catalog, fuel - 1) &&
      Unfold(n, fuel).children[i] == Unfold(Dependencies(n)[i], fuel - 1)
  {
  }

  /** A traversal with fuel `fuel` never goes deeper than `fuel` levels. */
  lemma {:induction false} UnfoldDepthBounded(n: DepNode, fuel: nat)
    requires Expandable(n.extension, n.catalog, fuel)
    ensures DepthAtMost(Unfold(n, fuel), fuel)
    decreases fuel
  {
    if fuel > 0 {
      var t := Unfold(n, fuel);
      UnfoldChildren(n, fuel);
      forall i | 0 <= i < |t.children|
        ensures DepthAtMost(t.children[i], fuel - 1)
      {
        UnfoldDepthBounded(Dependencies(n)[i], fuel - 1);
      }
    }
  }

  /** An extension whose only declared dependency is its own catalog key. */
  predicate SelfDependent(e: Extension, catalog: Catalog, key: string)
  {
    key in catalog && catalog[key] == e && GalleryOf(e).Some? && GalleryOf(e).value.dependencies == [key]
  }

  /** An extension whose only dependency is itself can be unfolded to every depth. */
  lemma {:induction false} SelfDependentExpandable(e: Extension, catalog: Catalog, key: string, fuel: nat)
    requires SelfDependent(e, catalog, key)
    ensures Expandable(e, catalog, fuel)
    decreases fuel
  {
    if fuel > 0 {
      SelfDependentExpandable(e, catalog, key, fuel - 1);
    }
  }

  /** Without a cycle guard, the traversal of an extension whose only
      dependency is itself is a single chain of itself that always runs into
      the depth bound. */
  lemma {:induction false} SelfDependencyNeverEnds(n: DepNode, key: string, fuel: nat)
    requires SelfDependent(n.extension, n.catalog, key)
    ensures Expandable(n.extension, n.catalog, fuel)
    ensures Chain(Unfold(n, fuel), fuel)
    decreases fuel
  {
    SelfDependentExpandable(n.extension, n.catalog, key, fuel);
    if fuel > 0 {
      var t := Unfold(n, fuel);
      var child := Dependencies(n)[0];
      assert child.extension == n.extension && child.catalog == n.catalog;
      SelfDependencyNeverEnds(child, key, fuel - 1);
      assert t.children == [Unfold(child, fuel - 1)];
    }
  }

  /** Following the child positions in `path` from the top of `t` passes
      through listed nodes only and ends at a node where the traversal stopped. */
  ghost predicate EndsAt(t: Tree, path: seq<nat>)
    decreases |path|
  {
    if |path| == 0 then t.Unexpanded?
    else t.Expanded? && path[0] < |t.children| && EndsAt(t.children[path[0]], path[1..])
  }

  /** The catalog entries under `keys` form a cycle: each has a gallery record
      declaring at least one identifier that is again among `keys`. A self
      reference (`keys == {k}`) and a loop A, B, A are both cycles. */
  ghost predicate Cycle(catalog: Catalog, keys: set<string>)
  {
    forall k {:trigger OnCycle(keys, k)} :: OnCycle(keys, k) ==>
      k in catalog && GalleryOf(catalog[k]).Some? &&
      exists j :: 0 <= j < |GalleryOf(catalog[k]).value.dependencies| &&
        GalleryOf(catalog[k]).value.dependencies[j] in keys
  }

  /** `k` is one of the cycle's keys; named so that the cycle's defining
      quantifier is instantiated only for the keys a proof asks about. */
  predicate OnCycle(keys: set<string>, k: string)
  {
    k in keys
  }

  /** An extension that lists its own key, among any other identifiers, is a cycle on its own. */
  lemma SelfReferenceIsCycle(catalog: Catalog, key: string, j: nat)
    requires key in catalog && GalleryOf(catalog[key]).Some?
    requires j < |GalleryOf(catalog[key]).value.dependencies|
    requires GalleryOf(catalog[key]).value.dependencies[j] == key
    ensures Cycle(catalog, {key})
  {
  }

  /** Child `i` of a traversal with fuel is the traversal, one level
      shallower, of the `i`-th node `dependencies` returns. */
  lemma UnfoldChild(n: DepNode, fuel: nat, i: nat) returns (child: DepNode)
    requires fuel > 0 && Expandable(n.extension, n.catalog, fuel)
    requires GalleryOf(n.extension).Some? ==> i < |DeclaredIds(n)|
    ensures Resolvable(n) && i < |Dependencies(n)| && child == Dependencies(n)[i]
    ensures child.extension == n.catalog[DeclaredIds(n)[i]] && child.catalog == n.catalog
    ensures Expandable(child.extension, child.catalog, fuel - 1)
    ensures Unfold(n, fuel).children[i] == Unfold(child, fuel - 1)
  {
    child := Dependencies(n)[i];
  }

  /** A node on a cycle declares, at some position `j`, a key of the cycle. */
  lemma CycleStep(n: DepNode, catalog: Catalog, keys: set<string>, key: string) returns (j: nat)
    requires Cycle(catalog, keys) && key in keys && key in catalog
    requires n.catalog == catalog && n.extension == catalog[key]
    ensures GalleryOf(n.extension).Some? && j < |DeclaredIds(n)| && DeclaredIds(n)[j] in keys
  {
    assert OnCycle(keys, key);
    j :| 0 <= j < |DeclaredIds(n)| && DeclaredIds(n)[j] in keys;
  }

  /** A branch of `fuel` listed levels through the traversal of an extension
      on a cycle, found by following a key of the cycle at every level. */
  lemma {:induction false} CyclePath(n: DepNode, catalog: Catalog, keys: set<string>, key: string, fuel: nat)
    returns (path: seq<nat>)
    requires Cycle(catalog, keys) && key in keys && key in catalog
    requires n.catalog == catalog && n.extension == catalog[key]
    requires Expandable(n.extension, catalog, fuel)
    ensures |path| == fuel && EndsAt(Unfold(n, fuel), path)
    decreases fuel
  {
    if fuel == 0 {
      path := [];
    } else {
      var j := CycleStep(n, catalog, keys, key);
      var child := UnfoldChild(n, fuel, j);
      var rest := CyclePath(child, catalog, keys, DeclaredIds(n)[j], fuel - 1);
      path := [j] + rest;
      assert path[1..] == rest;
    }
  }

  /** Without a cycle guard, the traversal of any extension on a cycle of
      `catalog` has a branch of `fuel` listed levels that runs into the depth
      bound, whatever the bound: a traversal with no bound would not end. */
  lemma CycleNeverEnds(n: DepNode, catalog: Catalog, keys: set<string>, key: string, fuel: nat)
    requires Cycle(catalog, keys) && key in keys && key in catalog
    requires n.catalog == catalog && n.extension == catalog[key]
    requires Expandable(n.extension, catalog, fuel)
    ensures exists path :: |path| == fuel && EndsAt(Unfold(n, fuel), path)
  {
    var path := CyclePath(n, catalog, keys, key, fuel);
  }
}
