/** Minimal stand-ins for the URI and path helpers the extension view calls:
    the scheme and file-system path of a parsed URI, the string form of a
    file URI, `path.join`, and the location of the bundled default icon.
    They keep only the structure the view's decisions depend on: no
    percent-encoding, no Windows drive letters, no `.`/`..` normalisation. */
module Uris {

  /** Resolved location of the bundled default icon; only its non-emptiness matters. */
  const DefaultIconUrl: string := "media/defaultIcon.png"

  /** The first index at or after `from` whose character is one of `stops`, or `|s|` if none is. */
  function IndexOfAny(s: string, from: nat, stops: string): (k: nat)
    requires from <= |s|
    ensures from <= k <= |s|
    ensures forall j :: from <= j < k ==> s[j] !in stops
    ensures k < |s| ==> s[k] in stops
    decreases |s| - from
  {
    if from == |s| || s[from] in stops then from else IndexOfAny(s, from + 1, stops)
  }

  /** The scheme of a URI reference: the non-empty run of characters other than
      ":/?#" that is followed by ':' at the very start; empty when there is none. */
  function Scheme(url: string): (r: string)
    ensures r != "" ==> |r| < |url| && url[..|r|] == r && url[|r|] == ':'
    ensures forall j :: 0 <= j < |r| ==> r[j] !in ":/?#"
    ensures r == "" ==> forall k :: 0 < k < |url| && url[k] == ':' ==> exists j :: 0 <= j < k && url[j] in ":/?#"
  {
    var k := IndexOfAny(url, 0, ":/?#");
    if 0 < k < |url| && url[k] == ':' then url[..k]
    else ""
  }

  /** A path with the leading '/' a file URI's path always has. */
  function Absolute(p: string): (r: string)
    ensures |r| > 0 && r[0] == '/'
    ensures r == p || r == "/" + p
  {
    if |p| > 0 && p[0] == '/' then p else "/" + p
  }

  /** Joining a directory and a relative file name with exactly one separator between them. */
  function JoinPath(dir: string, file: string): (r: string)
    ensures |r| >= |dir| + |file|
    ensures r[..|dir|] == dir && r[|r| - |file|..] == file
  {
    if dir == "" || dir[|dir| - 1] == '/' then dir + file else dir + "/" + file
  }

  /** The string form of the file URI for path `p`. */
  function FileUri(p: string): (r: string)
    ensures Scheme(r) == "file"
  {
    var r := "file://" + Absolute(p);
    assert IndexOfAny(r, 0, ":/?#") == 4 by {
      assert r[4] == ':';
      assert forall j :: 0 <= j < 4 ==> r[j] == "file"[j];
    }
    r
  }

  /** The file-system path a URI denotes: its path component, prefixed by
      `//authority` when the authority is non-empty (a UNC path). */
  function FsPath(url: string): string
  {
    var s := Scheme(url);
    var rest := if s == "" then url else url[|s| + 1..];
    if |rest| >= 2 && rest[..2] == "//" then
      var a := IndexOfAny(rest, 2, "/?#");
      var path := rest[a..IndexOfAny(rest, a, "?#")];
      if a > 2 then "//" + rest[2..a] + path else path
    else
      rest[..IndexOfAny(rest, 0, "?#")]
  }

  /** No character of `p` would end a URI's path. */
  predicate PlainPath(p: string)
  {
    forall j :: 0 <= j < |p| ==> p[j] != '?' && p[j] != '#'
  }

  /** Parsing the file URI of a plain path gives back the path, made absolute. */
  lemma FileUriRoundTrip(p: string)
    requires PlainPath(p)
    ensures Scheme(FileUri(p)) == "file"
    ensures FsPath(FileUri(p)) == Absolute(p)
  {
    var abs := Absolute(p);
    var rest := FileUri(p)[5..];
    assert rest == "//" + abs;
    assert IndexOfAny(rest, 2, "/?#") == 2;
    assert forall j :: 2 <= j < |rest| ==> rest[j] == abs[j - 2];
    assert IndexOfAny(rest, 2, "?#") == |rest|;
    assert rest[2..] == abs;
  }
}
