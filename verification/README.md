# Extension records and dependency trees

A Dafny model of the extension-record layer of the workbench's extension
management (`src/vs/workbench/parts/extensions/common/extensions.ts`):

- **`Extension`**, the merged view of one extension. It is built from a
  record of the extension as installed on disk ("local"), a record of the
  extension as published in the marketplace ("gallery"), or both. Each getter
  is a pure function of those records. Identity, description and `version`
  read the local record first. `latestVersion`, the statistics, the licence
  and `hasDependencies` read the gallery record. The icon, readme and
  changelog locations follow fixed precedence chains. The asynchronous
  `getManifest`, `getReadme` and `getChangelog` are modelled by the action
  they choose: return the embedded manifest, fail with "not available", read
  a local file, or fetch a gallery asset.
- **`ExtensionDependencies`**, one node of an extension's dependency tree.
  A node holds the extension, the catalog mapping `publisher.name` to
  extensions, and its parent (`dependent`). Its `dependencies` are new child
  nodes, one per declared identifier, in order and with duplicates kept.
  Nothing is memoised and nothing guards against cycles. A traversal is
  therefore modelled as an unfolding bounded by a depth (fuel).

Modules:

| file | module | contents |
|---|---|---|
| wrappers.dfy | `Wrappers` | `Option`, standing for nullable values |
| extension_management.dfy | `ExtensionManagement` | local and gallery records, reduced to the fields the view reads |
| uris.dfy | `Uris` | small stand-ins for the URI/path helpers: scheme, file-system path, file URI, path join, default icon |
| extension.dfy | `ExtensionModel` | the three-way record union `LocalOnly \| GalleryOnly \| Both`, every getter, the content actions, and lemmas relating them |
| extension_dependencies.dfy | `ExtensionDependencies` | tree nodes, `hasDependencies`, `dependencies`, lineage, the bounded unfolding and its lemmas |
| extensions_test.dfy | `ExtensionsTest` | the test fixtures and the scenarios they describe |

Conventions:

- A string field that the source tests for truthiness (`||`, `&&`, `!x`) is
  a `string`. The empty string stands for JavaScript's `null`, `undefined`
  and `""`, which all behave the same there.
- A getter that returns `null` when a record is missing returns an
  `Option`. These are `type`, `installCount`, `rating`, `ratingCount` and
  `licenseUrl`.
- The source dereferences the gallery record whenever the local one is
  null. So "at least one record is present" is built into the datatype,
  and `New` requires it.
- `semver.gt` is a parameter `gt` of `Outdated`. Lemmas that need it to be
  irreflexive say so.

## Model

| member | source | states |
|---|---|---|
| `ExtensionModel.New` | src/vs/workbench/parts/extensions/common/extensions.ts:97-102 | the view's `local` and `gallery` fields are exactly the records it was built from; at least one must be present |
| `ExtensionModel.NewOfFields` | src/vs/workbench/parts/extensions/common/extensions.ts:97-102 | a view is determined by its two fields: rebuilding it from them gives the same view |
| `ExtensionModel.LocalOf` | src/vs/workbench/parts/extensions/common/extensions.ts:100 | the `local` field is absent exactly for a gallery-only view, and is otherwise its local record |
| `ExtensionModel.GalleryOf` | src/vs/workbench/parts/extensions/common/extensions.ts:101 | the `gallery` field is absent exactly for a local-only view, and is otherwise its gallery record |
| `ExtensionModel.Type` | src/vs/workbench/parts/extensions/common/extensions.ts:104-106 | `type` is present exactly when a local record is, and is then that record's type |
| `ExtensionModel.Name` | src/vs/workbench/parts/extensions/common/extensions.ts:108-110 | `name` is the local manifest's name when installed, the gallery name otherwise |
| `ExtensionModel.DisplayName` | src/vs/workbench/parts/extensions/common/extensions.ts:112-118 | `displayName` is the display name the chosen record declares (local first), and falls back to `name` when none is declared |
| `ExtensionModel.Publisher` | src/vs/workbench/parts/extensions/common/extensions.ts:120-122 | `publisher` is the local manifest's publisher when installed, the gallery publisher otherwise |
| `ExtensionModel.PublisherDisplayName` | src/vs/workbench/parts/extensions/common/extensions.ts:124-134 | the fallback order is: local metadata display name, then local manifest publisher; without a local record, gallery display name, then gallery publisher |
| `ExtensionModel.Version` | src/vs/workbench/parts/extensions/common/extensions.ts:136-138 | `version` is the installed version when installed, the published one otherwise |
| `ExtensionModel.LatestVersion` | src/vs/workbench/parts/extensions/common/extensions.ts:140-142 | `latestVersion` is the published version when there is a gallery record, the installed one otherwise |
| `ExtensionModel.Description` | src/vs/workbench/parts/extensions/common/extensions.ts:144-146 | `description` is local-first with gallery fallback |
| `ExtensionModel.ReadmeUrl` | src/vs/workbench/parts/extensions/common/extensions.ts:148-154 | a non-empty local readme URL wins over the gallery readme asset; with neither, there is no URL |
| `ExtensionModel.ChangelogUrl` | src/vs/workbench/parts/extensions/common/extensions.ts:156-162 | a non-empty local changelog URL wins over the gallery changelog asset; with neither, there is no URL |
| `ExtensionModel.IconUrl` | src/vs/workbench/parts/extensions/common/extensions.ts:164-166 | `iconUrl` is the local icon, else the gallery icon, else the default icon, and is never empty |
| `ExtensionModel.IconUrlFallback` | src/vs/workbench/parts/extensions/common/extensions.ts:168-170 | `iconUrlFallback` is the same chain with the gallery's fallback icon in the middle, and is never empty |
| `ExtensionModel.LocalIconUrl` | src/vs/workbench/parts/extensions/common/extensions.ts:172-175 | there is a local icon URL exactly when the installed manifest declares an icon |
| `ExtensionModel.GalleryIconUrl` | src/vs/workbench/parts/extensions/common/extensions.ts:177-179 | the gallery's icon asset with a gallery record, absent without one |
| `ExtensionModel.GalleryIconUrlFallback` | src/vs/workbench/parts/extensions/common/extensions.ts:181-183 | the gallery's fallback icon asset with a gallery record, absent without one |
| `ExtensionModel.LicenseUrl` | src/vs/workbench/parts/extensions/common/extensions.ts:189-191 | `licenseUrl` is present exactly with a gallery record and is its licence asset |
| `ExtensionModel.InstallCount` | src/vs/workbench/parts/extensions/common/extensions.ts:197-199 | `installCount` is null without a gallery record, the gallery's count otherwise |
| `ExtensionModel.Rating` | src/vs/workbench/parts/extensions/common/extensions.ts:201-203 | `rating` is null without a gallery record, the gallery's rating otherwise |
| `ExtensionModel.RatingCount` | src/vs/workbench/parts/extensions/common/extensions.ts:205-207 | `ratingCount` is null without a gallery record, the gallery's count otherwise |
| `ExtensionModel.Outdated` | src/vs/workbench/parts/extensions/common/extensions.ts:209-211 | never outdated without a local record; local-only: outdated exactly when user-installed and `gt` holds between its installed version and itself; with both records: outdated exactly when user-installed and the published version is `gt` the installed one |
| `ExtensionModel.GetManifest` | src/vs/workbench/parts/extensions/common/extensions.ts:223-231 | with a local record, the embedded manifest is returned and nothing is fetched; without one, the gallery manifest asset is fetched and parsed |
| `ExtensionModel.GetReadme` | src/vs/workbench/parts/extensions/common/extensions.ts:233-247 | "not available" exactly when no readme URL resolves; a local read exactly for a `file` URL, of its file-system path; otherwise a fetch of that URL |
| `ExtensionModel.HasChangelog` | src/vs/workbench/parts/extensions/common/extensions.ts:249-251 | true exactly when the local record has a non-empty changelog URL or the gallery record has a non-empty changelog asset |
| `ExtensionModel.GetChangelog` | src/vs/workbench/parts/extensions/common/extensions.ts:253-267 | never a remote fetch; a local read exactly when a changelog exists and its URL has the `file` scheme; "not available" otherwise |
| `ExtensionModel.HasDependencies` | src/vs/workbench/parts/extensions/common/extensions.ts:269-275 | true exactly when there is a gallery record whose dependency list is non-empty |
| `ExtensionModel.LocalShadowsGallery` | src/vs/workbench/parts/extensions/common/extensions.ts:104-146 | with both records, the local-first getters and `getManifest` answer as if there were no gallery record |
| `ExtensionModel.GalleryShadowsLocal` | src/vs/workbench/parts/extensions/common/extensions.ts:140-207 | with both records, `latestVersion`, licence and statistics answer as if there were no local record |
| `ExtensionModel.VersionsOfBoth` | src/vs/workbench/parts/extensions/common/extensions.ts:136-142 | with both records, `version` is the local version and `latestVersion` the gallery version |
| `ExtensionModel.SingleRecordVersionsAgree` | src/vs/workbench/parts/extensions/common/extensions.ts:136-142 | with only one record, `version == latestVersion` |
| `ExtensionModel.OnlyUserExtensionsAreOutdated` | src/vs/workbench/parts/extensions/common/extensions.ts:209-211 | gallery-only and built-in extensions are never outdated, whatever the version order |
| `ExtensionModel.LocalOnlyNeverOutdated` | src/vs/workbench/parts/extensions/common/extensions.ts:209-211 | a local-only extension is never outdated when the version order is irreflexive |
| `ExtensionModel.OutdatedWithBoth` | src/vs/workbench/parts/extensions/common/extensions.ts:209-211 | with both records, outdated exactly when user-installed and the gallery version is newer than the local one |
| `ExtensionModel.LocalIconWins` | src/vs/workbench/parts/extensions/common/extensions.ts:164-175 | with a declared local icon the two icon URLs are equal, and both are the file URI of the icon inside the installation folder |
| `ExtensionModel.IconChainsDifferOnlyInGalleryChoice` | src/vs/workbench/parts/extensions/common/extensions.ts:164-183 | the two icon URLs differ only when there is no local icon and the gallery icon and fallback icon differ |
| `ExtensionModel.NoGalleryNoStatistics` | src/vs/workbench/parts/extensions/common/extensions.ts:189-207 | without a gallery record: no install count, rating, rating count or licence |
| `ExtensionModel.LocalReadmeIsReadFromDisk` | src/vs/workbench/parts/extensions/common/extensions.ts:233-243 | a local readme URL that is a file URI makes `getReadme` read that file, whatever the gallery offers |
| `ExtensionModel.LocalChangelogIsReadFromDisk` | src/vs/workbench/parts/extensions/common/extensions.ts:249-263 | a local changelog URL that is a file URI makes `hasChangelog` true and `getChangelog` read that file |
| `ExtensionModel.ReadmeAndChangelogAgree` | src/vs/workbench/parts/extensions/common/extensions.ts:233-267 | for the same URL, readme and changelog choose the same action, except that a non-file readme is fetched where the changelog is "not available" |
| `Uris.Scheme` | src/vs/workbench/parts/extensions/common/extensions.ts:240-242 | the scheme compared with `file` is a run of characters other than `:/?#` followed by `:` at the start of the URL; it is empty only when no such run exists, that is when every `:` after the first character has one of `:/?#` before it |
| `Uris.FileUri` | src/vs/workbench/parts/extensions/common/extensions.ts:172-175 | the string form of a file URI has the `file` scheme |
| `Uris.FileUriRoundTrip` | src/vs/workbench/parts/extensions/common/extensions.ts:172-175 | parsing the file URI of a path gives back that path, made absolute |
| `ExtensionDependencies.Root` | src/vs/workbench/parts/extensions/common/extensions.ts:280-292 | a root node returns its constructor arguments, has no `dependent`, and its lineage is the extension alone |
| `ExtensionDependencies.Lineage` | src/vs/workbench/parts/extensions/common/extensions.ts:290-292 | following `dependent` from a node lists the extensions from its root (`RootOf`, the node with no `dependent`) first to the node's own extension last |
| `ExtensionDependencies.HasDependencies` | src/vs/workbench/parts/extensions/common/extensions.ts:282-284 | a node has dependencies exactly when its gallery record declares some, which is the extension's own `hasDependencies` |
| `ExtensionDependencies.Dependencies` | src/vs/workbench/parts/extensions/common/extensions.ts:294-296 | one child per declared id, same length and order, duplicates kept (equal ids give equal children, as values: the source creates a distinct object on every access, and object identity is not modelled); child `i` denotes `catalog[ids[i]]`, shares the catalog and has this node as `dependent` |
| `ExtensionDependencies.HasDependenciesIffChildren` | src/vs/workbench/parts/extensions/common/extensions.ts:282-296 | a node reports dependencies exactly when its `dependencies` list is non-empty |
| `ExtensionDependencies.ChildLineage` | src/vs/workbench/parts/extensions/common/extensions.ts:290-296 | a child's lineage is its parent's lineage followed by the child's extension |
| `ExtensionDependencies.Unfold` | src/vs/workbench/parts/extensions/common/extensions.ts:294-296 | a traversal to depth `fuel` stops exactly when the fuel is exhausted; otherwise its children are the node's `dependencies`, in order |
| `ExtensionDependencies.UnfoldIsFaithful` | src/vs/workbench/parts/extensions/common/extensions.ts:294-296 | at every level of a traversal, each node's children are exactly that node's `dependencies` |
| `ExtensionDependencies.FaithfulIsLinked` | src/vs/workbench/parts/extensions/common/extensions.ts:294-296 | in such a traversal, every child's `dependent` is its parent node and all nodes share one catalog |
| `ExtensionDependencies.ExpandableMonotone` | src/vs/workbench/parts/extensions/common/extensions.ts:294-296 | a node that can be traversed to some depth can be traversed to any smaller depth |
| `ExtensionDependencies.UnfoldMonotone` | src/vs/workbench/parts/extensions/common/extensions.ts:294-296 | nodes are recomputed identically on every access, so a shallower traversal is a prefix of a deeper one |
| `ExtensionDependencies.UnfoldChildren` | src/vs/workbench/parts/extensions/common/extensions.ts:294-296 | the children of a traversal are traversals, one level shallower, of the nodes `dependencies` returns |
| `ExtensionDependencies.UnfoldDepthBounded` | src/vs/workbench/parts/extensions/common/extensions.ts:294-296 | a traversal with fuel `fuel` lists children at most `fuel` levels deep |
| `ExtensionDependencies.SelfDependentExpandable` | src/vs/workbench/parts/extensions/common/extensions.ts:294-296 | an extension whose only declared dependency is its own key can be traversed to every depth |
| `ExtensionDependencies.SelfDependencyNeverEnds` | src/vs/workbench/parts/extensions/common/extensions.ts:294-296 | with no cycle guard, the traversal of an extension whose only declared dependency is its own key is one chain of itself that always runs into the depth bound |
| `ExtensionDependencies.SelfReferenceIsCycle` | src/vs/workbench/parts/extensions/common/extensions.ts:294-296 | an extension that lists its own key anywhere among its dependencies forms a cycle on its own |
| `ExtensionDependencies.CycleNeverEnds` | src/vs/workbench/parts/extensions/common/extensions.ts:294-296 | with no cycle guard, the traversal of any extension on a cycle of the catalog (a self-reference among other ids, or a loop such as A, B, A) has a branch of exactly as many listed levels as the depth bound, ending where the bound stopped it, whatever the bound: a traversal with no bound never ends |
| `ExtensionsTest.AExtension` | src/vs/workbench/parts/extensions/test/common/extensions.test.ts:34-54 | a fixture is a gallery-only extension with the given name, publisher and dependency list |
| `ExtensionsTest.BuildCatalog` | src/vs/workbench/parts/extensions/test/common/extensions.test.ts:26-30 | every fixture is reachable under `publisher.name`; every entry is a fixture stored under its own key |
| `ExtensionsTest.BuildCatalogFindsEach` | src/vs/workbench/parts/extensions/test/common/extensions.test.ts:26-30 | with distinct keys, every fixture is found under its own `publisher.name` key |
| `ExtensionsTest.AExtensionDependencies` | src/vs/workbench/parts/extensions/test/common/extensions.test.ts:26-32 | the fixture tree is a root node over the fixture catalog |
| `ExtensionsTest.NoDeclaredDependencies` | src/vs/workbench/parts/extensions/test/common/extensions.test.ts:14-18 | an extension declaring no dependencies has `hasDependencies == false` and no children |
| `ExtensionsTest.TwoLevelExample` | src/vs/workbench/parts/extensions/common/extensions.ts:280-296 | for the catalog `{p.a: a (no dependencies), p.b: b (depends on p.a)}`, `b`'s node has dependencies and its only child denotes `a`, has `b`'s node as parent, and has none; the traversal to depth 2 stops there |

## Left out

- `state` and the injected state provider (extensions.ts:193-195) are left out. They only delegate to a callback owned by the service.
- The unused `needsRestart` field is left out.
- `telemetryData` (extensions.ts:213-221) is left out. The telemetry shapers are external.
- The service, viewlet and configuration declarations (extensions.ts:20-91) are left out. They contain no logic.
- The titlebar part is left out. It is an empty class.
- The I/O behind the content actions is left out. This covers reading a file, fetching an asset, converting it to text, and parsing JSON. Fetch and parse failures are the I/O's own errors, so they are not modelled either.
- `ExtensionModel.Outdated`: the semantic-version order is a parameter `gt` and is not implemented. The source's `semver.gt` is assumed only where a lemma states it, as irreflexivity.
- `Uris.Scheme`, `Uris.FsPath`, `Uris.FileUri` and `Uris.JoinPath` are simplified stand-ins for the URI and path libraries. They do no percent-encoding, no Windows drive-letter handling and no `.`/`..` normalisation. The default icon location is a non-empty constant.
- Numbers are unbounded: `installCount` and `ratingCount` are `int`, and `rating` is `real`. Floating-point behaviour is not modelled.
- A record field that is `null` at run time is modelled as `""`. The source's getters never tell `null` and `""` apart except by returning them. For example, a missing `description` is reported as `""`.
- `ExtensionDependencies.HasDependencies` and `ExtensionDependencies.Dependencies` require a gallery record. `Dependencies` also requires every declared id to be a catalog key. Without a gallery record, the source's `hasDependencies` and `dependencies` fail when they dereference it. The code fails there, and the model follows the code. For an id that is not a catalog key, the source builds a child whose extension is null and fails only when that child is queried; the model excludes this case. `ExtensionDependencies.Expandable` likewise excludes missing ids at the last listed level, which the source never dereferences.
- `ExtensionDependencies.Unfold`: a traversal is bounded by fuel. What lies beyond the bound is not listed. A catalog with a cycle makes the source recurse forever when fully traversed, and `CycleNeverEnds` states this instead of modelling it: at every bound, some branch runs into the bound.
- The second fixture test (extensions.test.ts:20-24) is not encoded. It expects `hasDependencies == true` for an extension that declares no dependencies. The code (extensions.ts:283) gives `false` there, and so does the model (`ExtensionsTest.NoDeclaredDependencies`).
- `ExtensionsTest.BuildCatalog`: the fixture catalog is a `LinkedMap`, whose `set` is not part of this model. Which of two fixtures sharing a key is kept is therefore not promised; the body keeps the later one, and `BuildCatalogFindsEach` states the lookup only for distinct keys.
- `ExtensionsTest.AExtension`: the fixtures set `assets`, `installCount`, `rating` and `ratingCount` to `null`. The model gives them empty assets and zero counts, because the gallery record's fields are not nullable here. So on a fixture, `IconUrl` yields the default icon where the source would fail reading `gallery.assets.icon`, and `InstallCount` is `Some(0)` where the source gives `null`.
