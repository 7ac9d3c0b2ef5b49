/** The fixtures of the extension tests and the scenarios built from them,
    stated as lemmas about the model. */
module ExtensionsTest {
  import opened Wrappers
  import opened ExtensionManagement
  import opened ExtensionModel
  import opened ExtensionDependencies

  /** Assets of a fixture: the tests leave them unset. */
  const NoAssets: GalleryAssets := GalleryAssets("", "", "", "", "", "")

  /** A gallery-only fixture extension with the given identity and declared dependencies. */
  function AExtension(name: string, publisher: string, dependencies: seq<string>): (e: Extension)
    ensures e.GalleryOnly? && Name(e) == name && Publisher(e) == publisher
    ensures GalleryOf(e).value.dependencies == dependencies
  {
    GalleryOnly(GalleryExtension(name, "", publisher, "", "", "", 0, 0.0, 0, NoAssets, dependencies))
  }

  /** The catalog key of an extension: `publisher.name`. */
  function CatalogKey(e: Extension): string
  {
    Publisher(e) + "." + Name(e)
  }

  /** No two fixtures share a catalog key. */
  predicate DistinctKeys(exts: seq<Extension>)
  {
    forall i, j :: 0 <= i < j < |exts| ==> CatalogKey(exts[i]) != CatalogKey(exts[j])
  }

  /** The catalog the fixtures build by inserting the extensions in order
      under their keys. Which of two extensions sharing a key is kept is not
      promised (see `BuildCatalogFindsEach`). */
  function BuildCatalog(exts: seq<Extension>): (c: Catalog)
    ensures forall e :: e in exts ==> CatalogKey(e) in c
    ensures forall k :: k in c ==> c[k] in exts && CatalogKey(c[k]) == k
  {
    if |exts| == 0 then map[]
    else
      var init := exts[..|exts| - 1];
      var last := exts[|exts| - 1];
      assert exts == init + [last];
      BuildCatalog(init)[CatalogKey(last) := last]
  }

  /** With distinct keys, every fixture is found under its own key. */
  lemma {:induction false} BuildCatalogFindsEach(exts: seq<Extension>)
    requires DistinctKeys(exts)
    ensures forall i :: 0 <= i < |exts| ==> BuildCatalog(exts)[CatalogKey(exts[i])] == exts[i]
  {
    if |exts| > 0 {
      var init, last := exts[..|exts| - 1], exts[|exts| - 1];
      assert DistinctKeys(init);
      BuildCatalogFindsEach(init);
      forall i | 0 <= i < |exts|
        ensures BuildCatalog(exts)[CatalogKey(exts[i])] == exts[i]
      {
        if i < |exts| - 1 {
          assert exts[i] == init[i];
          assert CatalogKey(exts[i]) != CatalogKey(last);
        }
      }
    }
  }

  /** The root node the fixtures build for `e` over a catalog of `exts`. */
  function AExtensionDependencies(e: Extension, exts: seq<Extension>): (n: DepNode)
    ensures n.extension == e && n.dependent == None
    ensures forall k :: k in n.catalog ==> n.catalog[k] in exts && CatalogKey(n.catalog[k]) == k
  {
    Root(e, BuildCatalog(exts))
  }

  /** An extension that declares no dependencies reports none, and its node has no children. */
  lemma NoDeclaredDependencies(name: string, publisher: string, exts: seq<Extension>)
    ensures !ExtensionDependencies.HasDependencies(AExtensionDependencies(AExtension(name, publisher, []), exts))
    ensures Dependencies(AExtensionDependencies(AExtension(name, publisher, []), exts)) == []
  {
    var n := AExtensionDependencies(AExtension(name, publisher, []), exts);
    assert DeclaredIds(n) == [];
  }

  /** A two-extension example: with `A` declaring nothing and `B`
      declaring `A`, the tree of `B` has one child, which denotes `A`, points
      back at `B`'s node, and has no dependencies of its own. */
  lemma TwoLevelExample()
    ensures
      var a := AExtension("a", "p", []);
      var b := AExtension("b", "p", ["p.a"]);
      var root := AExtensionDependencies(b, [a, b]);
      && Resolvable(root)
      && ExtensionDependencies.HasDependencies(root)
      && Dependencies(root) == [DepNode(a, root.catalog, Some(root))]
      && !ExtensionDependencies.HasDependencies(Dependencies(root)[0])
      && Expandable(b, root.catalog, 2)
      && Unfold(root, 2) == Expanded(root, [Expanded(Dependencies(root)[0], [])])
  {
    var a := AExtension("a", "p", []);
    var b := AExtension("b", "p", ["p.a"]);
    var root := AExtensionDependencies(b, [a, b]);
    assert CatalogKey(a) == "p.a";
    assert CatalogKey(b) == "p.b";
    assert [a, b][..1] == [a] && [a][..0] == [];
    assert root.catalog == map["p.a" := a, "p.b" := b];
    assert DeclaredIds(root) == ["p.a"];
    assert Expandable(a, root.catalog, 1);
    var child := Dependencies(root)[0];
    assert Unfold(child, 1) == Expanded(child, []);
  }
}
