/** The merged view of one extension (the `Extension` class): every getter is
    a pure function of an optional local record and an optional gallery
    record, at least one of which is present. The asynchronous content
    getters are modelled by the action they choose; the reading, fetching
    and parsing themselves are not part of this model. */
module ExtensionModel {
  import opened Wrappers
  import opened ExtensionManagement
  import Uris

  /** The records a view is built from. */
  datatype Extension =
    | LocalOnly(local: LocalExtension)
    | GalleryOnly(gallery: GalleryExtension)
    | Both(local: LocalExtension, gallery: GalleryExtension)

  /** The `local` field as the getters see it: absent for a gallery-only extension. */
  function LocalOf(e: Extension): (r: Option<LocalExtension>)
    ensures r.None? <==> e.GalleryOnly?
    ensures r.Some? ==> r.value == e.local
  {
    if e.GalleryOnly? then None else Some(e.local)
  }

  /** The `gallery` field as the getters see it: absent for a local-only extension. */
  function GalleryOf(e: Extension): (r: Option<GalleryExtension>)
    ensures r.None? <==> e.LocalOnly?
    ensures r.Some? ==> r.value == e.gallery
  {
    if e.LocalOnly? then None else Some(e.gallery)
  }

  /** The constructor: a view over the given records, of which at least one is present. */
  function New(local: Option<LocalExtension>, gallery: Option<GalleryExtension>): (e: Extension)
    requires local.Some? || gallery.Some?
    ensures LocalOf(e) == local && GalleryOf(e) == gallery
  {
    if local.None? then GalleryOnly(gallery.value)
    else if gallery.None? then LocalOnly(local.value)
    else Both(local.value, gallery.value)
  }

  /** Rebuilding a view from its two fields gives back the same view. */
  lemma NewOfFields(e: Extension)
    ensures New(LocalOf(e), GalleryOf(e)) == e
  {
  }

  /** The `||` of two possibly-absent strings: the first unless it is absent. */
  function Or(a: string, b: string): string
  {
    if a != "" then a else b
  }

  // ---------------------------------------------------------------------
  // Identity

  /** `type`: only an installed extension has one. */
  function Type(e: Extension): (r: Option<ExtensionType>)
    ensures r.Some? <==> LocalOf(e).Some?
    ensures r.Some? ==> r.value == LocalOf(e).value.kind
  {
    if e.GalleryOnly? then None else Some(e.local.kind)
  }

  /** `name`: the installed manifest's name, else the gallery's. */
  function Name(e: Extension): (r: string)
    ensures LocalOf(e).Some? ==> r == LocalOf(e).value.manifest.name
    ensures LocalOf(e).None? ==> r == GalleryOf(e).value.name
  {
    match e
    case GalleryOnly(g) => g.name
    case _ => e.local.manifest.name
  }

  /** The display name the chosen record declares, possibly absent. */
  function DeclaredDisplayName(e: Extension): (r: string)
    ensures LocalOf(e).Some? ==> r == LocalOf(e).value.manifest.displayName
    ensures LocalOf(e).None? ==> r == GalleryOf(e).value.displayName
  {
    if e.GalleryOnly? then e.gallery.displayName else e.local.manifest.displayName
  }

  /** `displayName`: the declared display name, local record first, falling back to `name`. */
  function DisplayName(e: Extension): (r: string)
    ensures DeclaredDisplayName(e) != "" ==> r == DeclaredDisplayName(e)
    ensures DeclaredDisplayName(e) == "" ==> r == Name(e)
  {
    match e
    case GalleryOnly(g) => Or(g.displayName, g.name)
    case _ => Or(e.local.manifest.displayName, e.local.manifest.name)
  }

  /** `publisher`: the installed manifest's publisher, else the gallery's. */
  function Publisher(e: Extension): (r: string)
    ensures LocalOf(e).Some? ==> r == LocalOf(e).value.manifest.publisher
    ensures LocalOf(e).None? ==> r == GalleryOf(e).value.publisher
  {
    match e
    case GalleryOnly(g) => g.publisher
    case _ => e.local.manifest.publisher
  }

  /** The publisher display name the chosen record supplies, possibly absent:
      the remembered gallery metadata for an installed extension. */
  function DeclaredPublisherDisplayName(e: Extension): (r: string)
    ensures LocalOf(e).Some? && LocalOf(e).value.metadata.Some? ==>
      r == LocalOf(e).value.metadata.value.publisherDisplayName
    ensures LocalOf(e).Some? && LocalOf(e).value.metadata.None? ==> r == ""
    ensures LocalOf(e).None? ==> r == GalleryOf(e).value.publisherDisplayName
  {
    match e
    case GalleryOnly(g) => g.publisherDisplayName
    case _ => if e.local.metadata.Some? then e.local.metadata.value.publisherDisplayName else ""
  }

  /** `publisherDisplayName`: the supplied display name, local record first,
      falling back to `publisher`. */
  function PublisherDisplayName(e: Extension): (r: string)
    ensures DeclaredPublisherDisplayName(e) != "" ==> r == DeclaredPublisherDisplayName(e)
    ensures DeclaredPublisherDisplayName(e) == "" ==> r == Publisher(e)
  {
    match e
    case GalleryOnly(g) => Or(g.publisherDisplayName, g.publisher)
    case _ =>
      var l := e.local;
      if l.metadata.Some? && l.metadata.value.publisherDisplayName != "" then l.metadata.value.publisherDisplayName
      else l.manifest.publisher
  }

  /** `description`: the installed manifest's description, else the gallery's. */
  function Description(e: Extension): (r: string)
    ensures LocalOf(e).Some? ==> r == LocalOf(e).value.manifest.description
    ensures LocalOf(e).None? ==> r == GalleryOf(e).value.description
  {
    match e
    case GalleryOnly(g) => g.description
    case _ => e.local.manifest.description
  }

  // ---------------------------------------------------------------------
  // Versions

  /** `version`: the installed version when installed, else the published one. */
  function Version(e: Extension): (r: string)
    ensures LocalOf(e).Some? ==> r == LocalOf(e).value.manifest.version
    ensures LocalOf(e).None? ==> r == GalleryOf(e).value.version
  {
    match e
    case GalleryOnly(g) => g.version
    case _ => e.local.manifest.version
  }

  /** `latestVersion`: the published version when published, else the installed one. */
  function LatestVersion(e: Extension): (r: string)
    ensures GalleryOf(e).Some? ==> r == GalleryOf(e).value.version
    ensures GalleryOf(e).None? ==> r == LocalOf(e).value.manifest.version
  {
    match e
    case LocalOnly(l) => l.manifest.version
    case _ => e.gallery.version
  }

  /** `outdated`, for the version order `gt` ("strictly newer than"): a
      user-installed extension whose latest version is newer than its own.
      Without a gallery record the installed version is compared with itself. */
  function Outdated(e: Extension, gt: (string, string) -> bool): (r: bool)
    ensures LocalOf(e).None? ==> !r
    ensures e.LocalOnly? ==>
      (r <==> e.local.kind == User && gt(e.local.manifest.version, e.local.manifest.version))
    ensures e.Both? ==>
      (r <==> e.local.kind == User && gt(e.gallery.version, e.local.manifest.version))
  {
    Type(e) == Some(User) && gt(LatestVersion(e), Version(e))
  }

  /** `gt` never holds between a version and itself. */
  ghost predicate Irreflexive(gt: (string, string) -> bool)
  {
    forall v :: !gt(v, v)
  }

  // ---------------------------------------------------------------------
  // Icons

  /** The file URI of the icon an installed manifest declares, or absent. */
  function LocalIconUrl(e: Extension): (r: string)
    ensures r != "" <==> LocalOf(e).Some? && LocalOf(e).value.manifest.icon != ""
  {
    if !e.GalleryOnly? && e.local.manifest.icon != "" then
      Uris.FileUri(Uris.JoinPath(e.local.path, e.local.manifest.icon))
    else ""
  }

  /** The gallery's icon asset, or absent. */
  function GalleryIconUrl(e: Extension): (r: string)
    ensures GalleryOf(e).Some? ==> r == GalleryOf(e).value.assets.icon
    ensures GalleryOf(e).None? ==> r == ""
  {
    if e.LocalOnly? then "" else e.gallery.assets.icon
  }

  /** The gallery's fallback icon asset, or absent. */
  function GalleryIconUrlFallback(e: Extension): (r: string)
    ensures GalleryOf(e).Some? ==> r == GalleryOf(e).value.assets.iconFallback
    ensures GalleryOf(e).None? ==> r == ""
  {
    if e.LocalOnly? then "" else e.gallery.assets.iconFallback
  }

  /** `iconUrl`: the local icon, else the gallery icon, else the default icon; never empty. */
  function IconUrl(e: Extension): (r: string)
    ensures r != ""
    ensures LocalIconUrl(e) != "" ==> r == LocalIconUrl(e)
    ensures LocalIconUrl(e) == "" && GalleryIconUrl(e) != "" ==> r == GalleryIconUrl(e)
    ensures LocalIconUrl(e) == "" && GalleryIconUrl(e) == "" ==> r == Uris.DefaultIconUrl
  {
    Or(LocalIconUrl(e), Or(GalleryIconUrl(e), Uris.DefaultIconUrl))
  }

  /** `iconUrlFallback`: as `iconUrl`, with the gallery's fallback icon in the middle. */
  function IconUrlFallback(e: Extension): (r: string)
    ensures r != ""
    ensures LocalIconUrl(e) != "" ==> r == LocalIconUrl(e)
    ensures LocalIconUrl(e) == "" && GalleryIconUrlFallback(e) != "" ==> r == GalleryIconUrlFallback(e)
    ensures LocalIconUrl(e) == "" && GalleryIconUrlFallback(e) == "" ==> r == Uris.DefaultIconUrl
  {
    Or(LocalIconUrl(e), Or(GalleryIconUrlFallback(e), Uris.DefaultIconUrl))
  }

  // ---------------------------------------------------------------------
  // Gallery statistics and dependencies

  /** `licenseUrl`: the gallery's licence asset; absent without a gallery record. */
  function LicenseUrl(e: Extension): (r: Option<string>)
    ensures r.Some? <==> GalleryOf(e).Some?
    ensures r.Some? ==> r.value == GalleryOf(e).value.assets.license
  {
    if e.LocalOnly? then None else Some(e.gallery.assets.license)
  }

  /** `installCount`: the gallery's count; absent without a gallery record. */
  function InstallCount(e: Extension): (r: Option<int>)
    ensures r.Some? <==> GalleryOf(e).Some?
    ensures r.Some? ==> r.value == GalleryOf(e).value.installCount
  {
    if e.LocalOnly? then None else Some(e.gallery.installCount)
  }

  /** `rating`: the gallery's average rating; absent without a gallery record. */
  function Rating(e: Extension): (r: Option<real>)
    ensures r.Some? <==> GalleryOf(e).Some?
    ensures r.Some? ==> r.value == GalleryOf(e).value.rating
  {
    if e.LocalOnly? then None else Some(e.gallery.rating)
  }

  /** `ratingCount`: the gallery's number of ratings; absent without a gallery record. */
  function RatingCount(e: Extension): (r: Option<int>)
    ensures r.Some? <==> GalleryOf(e).Some?
    ensures r.Some? ==> r.value == GalleryOf(e).value.ratingCount
  {
    if e.LocalOnly? then None else Some(e.gallery.ratingCount)
  }

  /** `hasDependencies`: the gallery record declares at least one dependency. */
  function HasDependencies(e: Extension): (r: bool)
    ensures r <==> GalleryOf(e).Some? && |GalleryOf(e).value.dependencies| > 0
  {
    match e
    case LocalOnly(_) => false
    case _ => |e.gallery.dependencies| != 0
  }

  // ---------------------------------------------------------------------
  // Readme, changelog and manifest

  /** The readme location: a non-empty local URL, else the gallery asset, else absent. */
  function ReadmeUrl(e: Extension): (r: string)
    ensures LocalOf(e).Some? && LocalOf(e).value.readmeUrl != "" ==> r == LocalOf(e).value.readmeUrl
    ensures (LocalOf(e).None? || LocalOf(e).value.readmeUrl == "") && GalleryOf(e).Some? ==>
      r == GalleryOf(e).value.assets.readme
    ensures r != "" ==> GalleryOf(e).Some? || LocalOf(e).value.readmeUrl == r
  {
    if !e.GalleryOnly? && e.local.readmeUrl != "" then e.local.readmeUrl
    else if e.LocalOnly? then ""
    else e.gallery.assets.readme
  }

  /** The changelog location: a non-empty local URL, else the gallery asset, else absent. */
  function ChangelogUrl(e: Extension): (r: string)
    ensures LocalOf(e).Some? && LocalOf(e).value.changelogUrl != "" ==> r == LocalOf(e).value.changelogUrl
    ensures (LocalOf(e).None? || LocalOf(e).value.changelogUrl == "") && GalleryOf(e).Some? ==>
      r == GalleryOf(e).value.assets.changelog
    ensures r != "" ==> GalleryOf(e).Some? || LocalOf(e).value.changelogUrl == r
  {
    if !e.GalleryOnly? && e.local.changelogUrl != "" then e.local.changelogUrl
    else if e.LocalOnly? then ""
    else e.gallery.assets.changelog
  }

  /** What `getReadme`/`getChangelog` do: fail with "not available", read a
      local file, or fetch a gallery asset as text. */
  datatype ContentAction = NotAvailable | ReadFile(path: string) | FetchAsset(url: string)

  /** What `getManifest` does: return the embedded manifest, or fetch the
      gallery's manifest asset and parse it. */
  datatype ManifestAction = Embedded(manifest: Manifest) | FetchAndParse(asset: string)

  /** `getManifest`: an installed extension answers with its own manifest and
      never fetches; otherwise the gallery's manifest asset is fetched. */
  function GetManifest(e: Extension): (r: ManifestAction)
    ensures LocalOf(e).Some? ==> r == Embedded(LocalOf(e).value.manifest)
    ensures LocalOf(e).None? ==> r == FetchAndParse(GalleryOf(e).value.assets.manifest)
  {
    match e
    case GalleryOnly(g) => FetchAndParse(g.assets.manifest)
    case _ => Embedded(e.local.manifest)
  }

  /** `getReadme`: no URL means "not available"; a file URL is read from disk;
      any other URL is fetched from the gallery. */
  function GetReadme(e: Extension): (r: ContentAction)
    ensures r.NotAvailable? <==> ReadmeUrl(e) == ""
    ensures r.ReadFile? <==> ReadmeUrl(e) != "" && Uris.Scheme(ReadmeUrl(e)) == "file"
    ensures r.ReadFile? ==> r.path == Uris.FsPath(ReadmeUrl(e))
    ensures r.FetchAsset? ==> r.url == ReadmeUrl(e)
  {
    var url := ReadmeUrl(e);
    if url == "" then NotAvailable
    else if Uris.Scheme(url) == "file" then ReadFile(Uris.FsPath(url))
    else FetchAsset(url)
  }

  /** `hasChangelog`: a changelog location resolves. */
  function HasChangelog(e: Extension): (r: bool)
    ensures r <==> (LocalOf(e).Some? && LocalOf(e).value.changelogUrl != "") ||
                   (GalleryOf(e).Some? && GalleryOf(e).value.assets.changelog != "")
  {
    ChangelogUrl(e) != ""
  }

  /** `getChangelog`: only a file URL is ever read; everything else is "not
      available", so the changelog is never fetched from the gallery. */
  function GetChangelog(e: Extension): (r: ContentAction)
    ensures !r.FetchAsset?
    ensures r.ReadFile? <==> HasChangelog(e) && Uris.Scheme(ChangelogUrl(e)) == "file"
    ensures r.ReadFile? ==> r.path == Uris.FsPath(ChangelogUrl(e))
  {
    var url := ChangelogUrl(e);
    if url == "" then NotAvailable
    else if Uris.Scheme(url) == "file" then ReadFile(Uris.FsPath(url))
    else NotAvailable
  }

  // ---------------------------------------------------------------------
  // Properties relating several getters

  /** With both records, every local-first getter answers as if the gallery record were absent. */
  lemma LocalShadowsGallery(l: LocalExtension, g: GalleryExtension)
    ensures Type(Both(l, g)) == Type(LocalOnly(l))
    ensures Name(Both(l, g)) == Name(LocalOnly(l))
    ensures DisplayName(Both(l, g)) == DisplayName(LocalOnly(l))
    ensures Publisher(Both(l, g)) == Publisher(LocalOnly(l))
    ensures PublisherDisplayName(Both(l, g)) == PublisherDisplayName(LocalOnly(l))
    ensures Description(Both(l, g)) == Description(LocalOnly(l))
    ensures Version(Both(l, g)) == Version(LocalOnly(l))
    ensures GetManifest(Both(l, g)) == GetManifest(LocalOnly(l))
  {
  }

  /** With both records, every gallery-first getter answers as if the local record were absent. */
  lemma GalleryShadowsLocal(l: LocalExtension, g: GalleryExtension)
    ensures LatestVersion(Both(l, g)) == LatestVersion(GalleryOnly(g))
    ensures LicenseUrl(Both(l, g)) == LicenseUrl(GalleryOnly(g))
    ensures InstallCount(Both(l, g)) == InstallCount(GalleryOnly(g))
    ensures Rating(Both(l, g)) == Rating(GalleryOnly(g))
    ensures RatingCount(Both(l, g)) == RatingCount(GalleryOnly(g))
  {
  }

  /** With both records, `version` is the installed version and `latestVersion` the published one. */
  lemma VersionsOfBoth(l: LocalExtension, g: GalleryExtension)
    ensures Version(Both(l, g)) == l.manifest.version
    ensures LatestVersion(Both(l, g)) == g.version
  {
  }

  /** With a single record there is only one version to report. */
  lemma SingleRecordVersionsAgree(e: Extension)
    requires !e.Both?
    ensures Version(e) == LatestVersion(e)
  {
  }

  /** Neither a gallery-only nor a built-in extension is ever outdated. */
  lemma OnlyUserExtensionsAreOutdated(e: Extension, gt: (string, string) -> bool)
    requires LocalOf(e).None? || LocalOf(e).value.kind == System
    ensures !Outdated(e, gt)
  {
  }

  /** A local-only extension compares its version with itself, so it is never
      outdated when the version order is irreflexive. */
  lemma LocalOnlyNeverOutdated(l: LocalExtension, gt: (string, string) -> bool)
    requires Irreflexive(gt)
    ensures !Outdated(LocalOnly(l), gt)
  {
  }

  /** A user-installed extension with a gallery record is outdated exactly when
      the published version is newer than the installed one. */
  lemma OutdatedWithBoth(l: LocalExtension, g: GalleryExtension, gt: (string, string) -> bool)
    ensures Outdated(Both(l, g), gt) <==> l.kind == User && gt(g.version, l.manifest.version)
  {
  }

  /** A declared local icon wins in both icon chains, and it is a file URI
      naming the icon inside the installation folder. */
  lemma LocalIconWins(e: Extension)
    requires LocalOf(e).Some? && LocalOf(e).value.manifest.icon != ""
    requires Uris.PlainPath(LocalOf(e).value.path) && Uris.PlainPath(LocalOf(e).value.manifest.icon)
    ensures IconUrl(e) == IconUrlFallback(e)
    ensures Uris.Scheme(IconUrl(e)) == "file"
    ensures Uris.FsPath(IconUrl(e)) == Uris.Absolute(Uris.JoinPath(LocalOf(e).value.path, LocalOf(e).value.manifest.icon))
  {
    var l := LocalOf(e).value;
    JoinPlainPath(l.path, l.manifest.icon);
    Uris.FileUriRoundTrip(Uris.JoinPath(l.path, l.manifest.icon));
  }

  /** Joining two plain paths gives a plain path. */
  lemma JoinPlainPath(dir: string, file: string)
    requires Uris.PlainPath(dir) && Uris.PlainPath(file)
    ensures Uris.PlainPath(Uris.JoinPath(dir, file))
  {
  }

  /** The two icon chains disagree only when there is no local icon and the
      gallery's icon and fallback icon differ. */
  lemma IconChainsDifferOnlyInGalleryChoice(e: Extension)
    requires IconUrl(e) != IconUrlFallback(e)
    ensures LocalIconUrl(e) == "" && GalleryOf(e).Some?
    ensures GalleryOf(e).value.assets.icon != GalleryOf(e).value.assets.iconFallback
  {
  }

  /** Without a gallery record there are no statistics, no licence and no dependencies. */
  lemma NoGalleryNoStatistics(e: Extension)
    requires GalleryOf(e).None?
    ensures InstallCount(e) == None && Rating(e) == None && RatingCount(e) == None
    ensures LicenseUrl(e) == None
    ensures !HasDependencies(e)
  {
  }

  /** An installed extension whose readme URL is the file URI of a plain path
      has that path read from disk, whatever the gallery offers. */
  lemma LocalReadmeIsReadFromDisk(e: Extension, p: string)
    requires LocalOf(e).Some? && LocalOf(e).value.readmeUrl == Uris.FileUri(p)
    requires Uris.PlainPath(p)
    ensures GetReadme(e) == ReadFile(Uris.Absolute(p))
  {
    Uris.FileUriRoundTrip(p);
  }

  /** An installed extension whose changelog URL is the file URI of a plain
      path has that path read from disk; a gallery changelog is never read. */
  lemma LocalChangelogIsReadFromDisk(e: Extension, p: string)
    requires LocalOf(e).Some? && LocalOf(e).value.changelogUrl == Uris.FileUri(p)
    requires Uris.PlainPath(p)
    ensures HasChangelog(e)
    ensures GetChangelog(e) == ReadFile(Uris.Absolute(p))
  {
    Uris.FileUriRoundTrip(p);
  }

  /** Readme and changelog resolve URLs the same way, so for the same URL they
      choose the same action, except that a non-file readme is fetched where
      the changelog is "not available". */
  lemma ReadmeAndChangelogAgree(e: Extension)
    requires ReadmeUrl(e) == ChangelogUrl(e)
    ensures GetReadme(e).FetchAsset? ==> GetChangelog(e) == NotAvailable
    ensures !GetReadme(e).FetchAsset? ==> GetReadme(e) == GetChangelog(e)
  {
  }
}
