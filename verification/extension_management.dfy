/** The two descriptors an extension view is built from: the record of an
    extension installed on disk and the record of an extension published in
    the gallery. Only the fields the view reads are kept. A string field the
    view tests for truthiness uses "" for "absent". */
module ExtensionManagement {
  import opened Wrappers

  /** Whether an installed extension ships with the product or was installed by the user. */
  datatype ExtensionType = System | User

  /** The parts of an installed extension's package manifest the view reads. */
  datatype Manifest = Manifest(
    name: string,
    publisher: string,
    version: string,
    displayName: string,
    description: string,
    icon: string)

  /** Gallery metadata remembered for an installed extension. */
  datatype Metadata = Metadata(publisherDisplayName: string)

  /** An extension installed on disk; `path` is its installation folder and
      the two URLs point at its bundled readme and changelog, when it has them. */
  datatype LocalExtension = LocalExtension(
    kind: ExtensionType,
    manifest: Manifest,
    metadata: Option<Metadata>,
    path: string,
    readmeUrl: string,
    changelogUrl: string)

  /** Locators of the files the gallery serves for one published version. */
  datatype GalleryAssets = GalleryAssets(
    manifest: string,
    readme: string,
    changelog: string,
    icon: string,
    iconFallback: string,
    license: string)

  /** An extension as the gallery publishes it; `dependencies` lists the
      `publisher.name` identifiers it declares, in declaration order. */
  datatype GalleryExtension = GalleryExtension(
    name: string,
    displayName: string,
    publisher: string,
    publisherDisplayName: string,
    version: string,
    description: string,
    installCount: int,
    rating: real,
    ratingCount: int,
    assets: GalleryAssets,
    dependencies: seq<string>)
}
