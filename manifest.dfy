/** The manifest model of Manifest.kt: decoding one buildpack reference
    (`VersionedBuildpack.create`), version equality, and resolving the newest
    release from the release index's answer (`getLatestBuildpack`).

    The source decodes with three regular expressions searched with `find`
    over single-line text. Their meaning is written out here by hand:
    - the host marker is `github`, then ANY one character (the `.` of
      `github.com` is not escaped), then `com/`;
    - the url and name captures start from the LAST marker and stop at the
      FIRST `#v` after it, or run to the end of the text;
    - the version capture is what follows the LAST `#v` of the text, provided
      that `#v` starts after the end of some marker; otherwise the version is
      `Latest`. */
module Manifest {
  import opened Results
  import opened Strings

  /** `sealed class Version`: a raw, unparsed version text, or the floating
      marker `Latest`. */
  datatype Version = SemanticVersion(versionString: string) | Latest

  datatype VersionedBuildpack = VersionedBuildpack(name: string, url: string, version: Version)

  /** One decoded manifest: its buildpacks in order, duplicates kept. */
  datatype CFApplication = CFApplication(buildpacks: seq<VersionedBuildpack>)

  /** The exception thrown by `create`: "Cannot parse buildpack URL: <input>". */
  datatype ManifestError = CannotParseBuildpackUrl(input: string)

  /** The two exceptions thrown by `getLatestBuildpack`:
      "Unexpected response from GitHub for URL <url>: <status>; <body>" and
      "Couldn't get latest version of buildpack <name>". */
  datatype ResolveError =
    | UnexpectedResponse(url: string, status: int, body: string)
    | NoLatestVersion(name: string)

  /** What the HTTP client answered: status code and body text. */
  datatype HttpResponse = HttpResponse(status: int, body: string)

  // ---------------------------------------------------------------------
  // Version equality

  /** `equals` as the source defines it: the data class `SemanticVersion`
      compares its raw text, and `Latest` equals every `Latest` and nothing
      else. It coincides with structural equality of the datatype. */
  function VersionEquals(a: Version, b: Version): (r: bool)
    ensures r <==> a == b
    ensures a.Latest? ==> (r <==> b.Latest?)
    ensures a.SemanticVersion? && b.SemanticVersion? ==> (r <==> a.versionString == b.versionString)
  {
    match a
    case Latest => b.Latest?
    case SemanticVersion(x) => b.SemanticVersion? && b.versionString == x
  }

  /** `toSemVer` hands `versionString.trimStart('v')` to the semantic-version
      parser (the parser itself is not modelled): the text without its
      leading run of `v`s. */
  function SemVerText(versionString: string): (r: string)
    ensures |r| <= |versionString| && r == versionString[|versionString| - |r|..]
    ensures forall i :: 0 <= i < |versionString| - |r| ==> versionString[i] == 'v'
    ensures r == [] || r[0] != 'v'
  {
    if versionString != [] && versionString[0] == 'v' then SemVerText(versionString[1..])
    else versionString
  }

  // ---------------------------------------------------------------------
  // Decoding one manifest entry

  /** Length of the host marker `github?com/`. */
  const MarkerLength := 11

  /** `github`, any one character, `com/` starts at `i`. */
  predicate MarkerAt(s: string, i: int) {
    && 0 <= i && i + MarkerLength <= |s|
    && s[i] == 'g' && s[i + 1] == 'i' && s[i + 2] == 't'
    && s[i + 3] == 'h' && s[i + 4] == 'u' && s[i + 5] == 'b'
    && s[i + 7] == 'c' && s[i + 8] == 'o' && s[i + 9] == 'm' && s[i + 10] == '/'
  }

  /** A version fragment `#v` starts at `i`. */
  predicate HashVAt(s: string, i: int) {
    0 <= i && i + 2 <= |s| && s[i] == '#' && s[i + 1] == 'v'
  }

  /** `p` is the last marker of `s`. */
  ghost predicate LastMarkerAt(s: string, p: int) {
    MarkerAt(s, p) && forall q :: p < q ==> !MarkerAt(s, q)
  }

  /** The captures of `(.*github.com/.*?)(?:#v.*)?$` and
      `.*github.com/(.*?)(?:#v.*)?$`: the last marker starts at `p`, and the
      capture ends at `e`, the first `#v` at or after the marker's end, or the
      end of the text when there is none. */
  ghost predicate UrlCapture(s: string, p: int, e: int) {
    && LastMarkerAt(s, p)
    && p + MarkerLength <= e <= |s|
    && (e == |s| || HashVAt(s, e))
    && forall j :: p + MarkerLength <= j < e ==> !HashVAt(s, j)
  }

  /** The capture of `.*github.com/.*#v(.*)$` starts right after the `#v` at
      `j`: the last `#v` of the text, which starts after the end of a marker. */
  ghost predicate VersionCapture(s: string, j: int) {
    && HashVAt(s, j)
    && (forall j' :: j < j' ==> !HashVAt(s, j'))
    && exists q :: MarkerAt(s, q) && q + MarkerLength <= j
  }

  /** The last marker starting below `n`. */
  function LastMarkerBelow(s: string, n: nat): (r: Option<nat>)
    requires n <= |s|
    ensures r.Some? ==> r.value < n && MarkerAt(s, r.value)
    ensures r.Some? ==> forall q :: r.value < q < n ==> !MarkerAt(s, q)
    ensures r.None? ==> forall q :: q < n ==> !MarkerAt(s, q)
    decreases n
  {
    if n == 0 then None
    else if MarkerAt(s, n - 1) then Some(n - 1)
    else LastMarkerBelow(s, n - 1)
  }

  /** The first marker starting at or after `k`. */
  function FirstMarkerFrom(s: string, k: nat): (r: Option<nat>)
    requires k <= |s|
    ensures r.Some? ==> k <= r.value && MarkerAt(s, r.value)
    ensures r.Some? ==> forall q :: k <= q < r.value ==> !MarkerAt(s, q)
    ensures r.None? ==> forall q :: k <= q ==> !MarkerAt(s, q)
    decreases |s| - k
  {
    if k == |s| then None
    else if MarkerAt(s, k) then Some(k)
    else FirstMarkerFrom(s, k + 1)
  }

  /** The first `#v` at or after `k`, or the length of `s` when there is none. */
  function FirstHashVFrom(s: string, k: nat): (e: nat)
    requires k <= |s|
    ensures k <= e <= |s|
    ensures e == |s| || HashVAt(s, e)
    ensures forall j :: k <= j < e ==> !HashVAt(s, j)
    decreases |s| - k
  {
    if k == |s| || HashVAt(s, k) then k
    else FirstHashVFrom(s, k + 1)
  }

  /** The last `#v` starting in the range `[k, n)`. */
  function LastHashVBetween(s: string, k: nat, n: nat): (r: Option<nat>)
    requires k <= n <= |s|
    ensures r.Some? ==> k <= r.value < n && HashVAt(s, r.value)
    ensures r.Some? ==> forall j :: r.value < j < n ==> !HashVAt(s, j)
    ensures r.None? ==> forall j :: k <= j < n ==> !HashVAt(s, j)
    decreases n - k
  {
    if n == k then None
    else if HashVAt(s, n - 1) then Some(n - 1)
    else LastHashVBetween(s, k, n - 1)
  }

  /** Where the name capture starts and where the url and name captures end,
      or `None` when the text has no marker. */
  function CaptureBounds(s: string): (r: Option<(nat, nat)>)
    ensures r.None? <==> forall q :: !MarkerAt(s, q)
    ensures r.Some? ==> r.value.0 >= MarkerLength && UrlCapture(s, r.value.0 - MarkerLength, r.value.1)
  {
    match LastMarkerBelow(s, |s|)
    case None => None
    case Some(p) => Some((p + MarkerLength, FirstHashVFrom(s, p + MarkerLength)))
  }

  /** `String.buildpackUrl()`: everything up to the first `#v` after the last
      marker; an input without a marker is rejected. */
  function BuildpackUrl(value: string): (r: Result<string, ManifestError>)
    ensures r.Failure? <==> forall q :: !MarkerAt(value, q)
    ensures r.Failure? ==> r.error == CannotParseBuildpackUrl(value)
    ensures r.Success? ==> |r.value| <= |value| && r.value == value[..|r.value|]
    ensures r.Success? ==> exists p :: UrlCapture(value, p, |r.value|)
  {
    match CaptureBounds(value)
    case None => Failure(CannotParseBuildpackUrl(value))
    case Some((b, e)) =>
      assert UrlCapture(value, b - MarkerLength, e);
      Success(value[..e])
  }

  /** `String.name()`: the text after the last marker, cut at the same place
      as the url; an input without a marker is rejected. */
  function BuildpackName(value: string): (r: Result<string, ManifestError>)
    ensures r.Failure? <==> forall q :: !MarkerAt(value, q)
    ensures r.Failure? ==> r.error == CannotParseBuildpackUrl(value)
    ensures r.Success? ==> exists p ::
      && LastMarkerAt(value, p)
      && UrlCapture(value, p, p + MarkerLength + |r.value|)
      && r.value == value[p + MarkerLength..p + MarkerLength + |r.value|]
  {
    match CaptureBounds(value)
    case None => Failure(CannotParseBuildpackUrl(value))
    case Some((b, e)) =>
      assert LastMarkerAt(value, b - MarkerLength);
      assert UrlCapture(value, b - MarkerLength, b + |value[b..e]|);
      Success(value[b..e])
  }

  /** `String.buildpackVersion()`: the text after the last `#v` that follows
      a marker; `Latest` when there is none. Never fails. */
  function BuildpackVersion(value: string): (v: Version)
    ensures v.Latest? <==> forall j :: !VersionCapture(value, j)
    ensures v.SemanticVersion? ==> exists j :: VersionCapture(value, j) && v.versionString == value[j + 2..]
  {
    match FirstMarkerFrom(value, 0)
    case None => Latest
    case Some(q) =>
      match LastHashVBetween(value, q + MarkerLength, |value|)
      case None => Latest
      case Some(j) =>
        assert VersionCapture(value, j) by {
          assert MarkerAt(value, q) && q + MarkerLength <= j;
        }
        SemanticVersion(value[j + 2..])
  }

  /** `VersionedBuildpack.create`: name, url and version of one manifest
      entry. It fails exactly when the text has no marker; the url is a prefix
      of the input whose remainder is empty or starts with `#v`, and it is the
      input up to the end of its last marker followed by the name. */
  function Create(value: string): (r: Result<VersionedBuildpack, ManifestError>)
    ensures r.Failure? <==> forall q :: !MarkerAt(value, q)
    ensures r.Failure? ==> r.error == CannotParseBuildpackUrl(value)
    ensures r.Success? ==>
      var url := r.value.url;
      && |url| <= |value| && url == value[..|url|]
      && (|url| == |value| || HashVAt(value, |url|))
    ensures r.Success? ==> exists p ::
      && UrlCapture(value, p, |r.value.url|)
      && r.value.url == value[..p + MarkerLength] + r.value.name
    ensures r.Success? ==> r.value.version == BuildpackVersion(value)
  {
    match BuildpackName(value)
    case Failure(err) => Failure(err)
    case Success(name) =>
      match BuildpackUrl(value)
      case Failure(err) => Failure(err)
      case Success(url) =>
        var b, e :| CaptureBounds(value) == Some((b, e));
        assert name == value[b..e] && url == value[..e];
        assert url == value[..b] + name;
        assert UrlCapture(value, b - MarkerLength, |url|);
        Success(VersionedBuildpack(name, url, BuildpackVersion(value)))
  }

  /** The url and name captures are unique: for any last marker `p` and end
      `e` that the regular expressions admit, `create` returns exactly that
      url and name. */
  lemma CreateFromCapture(s: string, p: int, e: int)
    requires UrlCapture(s, p, e)
    ensures Create(s).Success?
    ensures Create(s).value.url == s[..e] && Create(s).value.name == s[p + MarkerLength..e]
  {
    var b, e' :| CaptureBounds(s) == Some((b, e'));
  }

  /** The version capture is unique: when the last `#v` starts at `j`, after
      a marker, the version is the text after it. */
  lemma VersionFromCapture(s: string, j: int)
    requires VersionCapture(s, j)
    ensures BuildpackVersion(s) == SemanticVersion(s[j + 2..])
  {
    var v := BuildpackVersion(s);
    var j' :| VersionCapture(s, j') && v.versionString == s[j' + 2..];
  }

  /** Together, the captures the regular expressions admit determine the
      whole decoded entry. */
  lemma CreatePinnedFromCaptures(s: string, p: int, e: int, j: int)
    requires UrlCapture(s, p, e) && VersionCapture(s, j)
    ensures Create(s) == Success(VersionedBuildpack(s[p + MarkerLength..e], s[..e], SemanticVersion(s[j + 2..])))
  {
    CreateFromCapture(s, p, e);
    VersionFromCapture(s, j);
  }

  /** A `#v` after the end of a marker pins the version. */
  lemma FragmentAfterMarkerPins(s: string, p: int, e: int)
    requires MarkerAt(s, p) && p + MarkerLength <= e && HashVAt(s, e)
    ensures BuildpackVersion(s).SemanticVersion?
  {
    var last := LastHashVBetween(s, e, |s|);
    assert VersionCapture(s, last.value) by {
      assert MarkerAt(s, p) && p + MarkerLength <= last.value;
    }
  }

  /** A `Latest` entry carries its whole input text as url: no `#v` follows
      any marker, so none follows the last one. */
  lemma LatestKeepsWholeUrl(s: string)
    requires Create(s).Success? && Create(s).value.version == Latest
    ensures Create(s).value.url == s
  {
    var url := Create(s).value.url;
    var p :| UrlCapture(s, p, |url|);
    if |url| < |s| {
      FragmentAfterMarkerPins(s, p, |url|);
    }
  }

  lemma HostMarker(prefix: string, rest: string)
    ensures MarkerAt(prefix + "github.com/" + rest, |prefix|)
  {
  }

  /** No `#v` starts inside `x` or on its last character when `x` is followed
      by `#`. */
  lemma NoHashVBeforeHash(a: string, x: string, b: string)
    requires forall j :: !HashVAt(x, j)
    requires b != [] && b[0] == '#'
    ensures forall j :: |a| <= j < |a| + |x| ==> !HashVAt(a + x + b, j)
  {
    var s := a + x + b;
    forall j | |a| <= j < |a| + |x|
      ensures !HashVAt(s, j)
    {
      if j + 1 < |a| + |x| {
        assert s[j] == x[j - |a|] && s[j + 1] == x[j + 1 - |a|];
        assert !HashVAt(x, j - |a|);
      } else {
        assert s[j + 1] == b[0];
      }
    }
  }

  /** No `#v` starts after the `#v` that opens `"#v" + x` when `x` holds none. */
  lemma NoHashVAfterFragment(a: string, x: string)
    requires forall j :: !HashVAt(x, j)
    ensures forall j :: |a| < j ==> !HashVAt(a + "#v" + x, j)
  {
    var s := a + "#v" + x;
    forall j | |a| < j
      ensures !HashVAt(s, j)
    {
      if |a| + 2 <= j && j + 2 <= |s| {
        assert s[j] == x[j - |a| - 2] && s[j + 1] == x[j + 1 - |a| - 2];
        assert !HashVAt(x, j - |a| - 2);
      } else if j == |a| + 1 {
        assert s[j] == 'v';
      }
    }
  }

  /** A pinned entry `<prefix>github.com/<path>#v<ver>`, with no marker after
      the one shown and no `#v` inside `path` or `ver`, decodes to name
      `path`, url `<prefix>github.com/<path>` and version `ver`. */
  lemma CreatePinned(prefix: string, path: string, ver: string)
    requires forall q :: |prefix| < q ==> !MarkerAt(prefix + "github.com/" + path + "#v" + ver, q)
    requires forall j :: !HashVAt(path, j)
    requires forall j :: !HashVAt(ver, j)
    ensures Create(prefix + "github.com/" + path + "#v" + ver)
         == Success(VersionedBuildpack(path, prefix + "github.com/" + path, SemanticVersion(ver)))
  {
    var a := prefix + "github.com/";
    var url := a + path;
    var s := url + "#v" + ver;
    assert s == prefix + "github.com/" + path + "#v" + ver;
    var p := |prefix|;
    var e := |url|;
    assert s[..e] == url;
    assert s[p + MarkerLength..e] == path;
    assert s[e + 2..] == ver;
    HostMarker(prefix, path + "#v" + ver);
    assert prefix + "github.com/" + (path + "#v" + ver) == s;
    NoHashVBeforeHash(a, path, "#v" + ver);
    assert a + path + ("#v" + ver) == s;
    assert HashVAt(s, e);
    assert UrlCapture(s, p, e);
    CreateFromCapture(s, p, e);
    NoHashVAfterFragment(url, ver);
    assert VersionCapture(s, e);
    VersionFromCapture(s, e);
  }

  /** Url and name stop at the FIRST `#v` after the marker while the version
      is read after the LAST one. */
  lemma FirstFragmentCutsUrlLastGivesVersion()
    ensures Create("github.com/x#v1#v2")
         == Success(VersionedBuildpack("x", "github.com/x", SemanticVersion("2")))
  {
    var s := "github.com/x#v1#v2";
    assert s[..12] == "github.com/x" && s[11..12] == "x" && s[17..] == "2";
    assert VersionCapture(s, 15) by {
      assert MarkerAt(s, 0);
    }
    assert UrlCapture(s, 0, 12) by {
      assert LastMarkerAt(s, 0);
    }
    CreatePinnedFromCaptures(s, 0, 12, 15);
  }

  /** The version is anchored at the first marker and the url at the last:
      with a `#v` between two markers the entry is pinned while its url still
      contains that `#v`. */
  lemma PinnedVersionBeforeLastMarker(s: string)
    requires s == "github.com/a#v1/github.com/b"
    ensures Create(s) == Success(VersionedBuildpack("b", s, SemanticVersion("1/github.com/b")))
  {
    assert s[..28] == s && s[27..28] == "b" && s[14..] == "1/github.com/b";
    VersionAfterFirstMarker(s);
    UrlFromSecondMarker(s);
    CreatePinnedFromCaptures(s, 16, 28, 12);
  }

  lemma VersionAfterFirstMarker(s: string)
    requires s == "github.com/a#v1/github.com/b"
    ensures VersionCapture(s, 12)
  {
    assert MarkerAt(s, 0);
    assert forall j' :: 12 < j' < |s| ==> s[j'] != '#';
  }

  lemma UrlFromSecondMarker(s: string)
    requires s == "github.com/a#v1/github.com/b"
    ensures UrlCapture(s, 16, 28)
  {
    assert MarkerAt(s, 16) && s[17] == 'i';
  }

  // ---------------------------------------------------------------------
  // Resolving the newest release

  /** The literal key `"tag_name":` of the release-index answer. */
  const TagKey := "\"tag_name\":"

  /** What `\s` matches: space, tab, line feed, vertical tab, form feed and
      carriage return. */
  predicate IsRegexSpace(c: char) {
    c == ' ' || c == '\t' || c == '\n' || c == '\U{B}' || c == '\U{C}' || c == '\r'
  }

  /** The key `"tag_name":` starts at `i`. */
  predicate TagKeyAt(s: string, i: int) {
    0 <= i && i + |TagKey| <= |s| && s[i..i + |TagKey|] == TagKey
  }

  /** `"tag_name":\s*"v([^"]+)"` matches at `i`, the whitespace ending at `k`
      and the capture being `t`. Because `"` is neither whitespace nor inside
      the capture, a match at `i` has exactly one `k` and one `t`. */
  predicate TagMatch(s: string, i: int, k: int, t: string) {
    && TagKeyAt(s, i) && i + |TagKey| <= k && k + 2 + |t| < |s|
    && (forall m :: i + |TagKey| <= m < k ==> IsRegexSpace(s[m]))
    && s[k] == '"' && s[k + 1] == 'v'
    && |t| > 0 && s[k + 2..k + 2 + |t|] == t && '"' !in t
    && s[k + 2 + |t|] == '"'
  }

  /** The pattern matches at `i` with capture `t`. */
  ghost predicate TagMatchesAt(s: string, i: int, t: string) {
    exists k :: TagMatch(s, i, k, t)
  }

  /** The leftmost match of the pattern starts at `i` and captures `t`: what
      `Regex.find` returns. */
  ghost predicate FirstTagMatch(s: string, i: int, t: string) {
    TagMatchesAt(s, i, t) && forall i', t' :: 0 <= i' < i ==> !TagMatchesAt(s, i', t')
  }

  /** The first index at or after `k` that is not `\s`, or the length. */
  function SkipRegexSpace(s: string, k: nat): (r: nat)
    requires k <= |s|
    ensures k <= r <= |s|
    ensures forall m :: k <= m < r ==> IsRegexSpace(s[m])
    ensures r < |s| ==> !IsRegexSpace(s[r])
    decreases |s| - k
  {
    if k == |s| || !IsRegexSpace(s[k]) then k else SkipRegexSpace(s, k + 1)
  }

  /** The first `"` at or after `k`, or the length. */
  function NextQuote(s: string, k: nat): (r: nat)
    requires k <= |s|
    ensures k <= r <= |s|
    ensures forall m :: k <= m < r ==> s[m] != '"'
    ensures r < |s| ==> s[r] == '"'
    decreases |s| - k
  {
    if k == |s| || s[k] == '"' then k else NextQuote(s, k + 1)
  }

  /** Tries the pattern at `i` alone: the greedy `\s*` runs to the first
      non-space, which must open `"v`; the greedy `[^"]+` runs to the next
      quote, which must exist and leave a non-empty capture. */
  function TagAt(s: string, i: nat): (r: Option<string>)
    requires i <= |s|
    ensures r.Some? ==> TagMatchesAt(s, i, r.value)
    ensures forall t :: TagMatchesAt(s, i, t) ==> r == Some(t)
  {
    if TagKeyAt(s, i) then
      var k := SkipRegexSpace(s, i + |TagKey|);
      if k + 2 <= |s| && s[k] == '"' && s[k + 1] == 'v' then
        var e := NextQuote(s, k + 2);
        if k + 2 < e < |s| then
          var t := s[k + 2..e];
          assert TagMatch(s, i, k, t) by {
            assert forall c :: c in t ==> c != '"';
          }
          Some(t)
        else None
      else None
    else None
  }

  /** The leftmost match starting at or after `i`. */
  function FindTagFrom(s: string, i: nat): (r: Option<string>)
    requires i <= |s|
    ensures r.Some? ==> exists j :: i <= j && TagMatchesAt(s, j, r.value)
                                   && forall i', t' :: i <= i' < j ==> !TagMatchesAt(s, i', t')
    ensures r.None? ==> forall i', t' :: i <= i' ==> !TagMatchesAt(s, i', t')
    decreases |s| - i
  {
    match TagAt(s, i)
    case Some(t) => Some(t)
    case None =>
      if i == |s| then None
      else
        var r := FindTagFrom(s, i + 1);
        NoMatchHereDefers(s, i, r);
        r
  }

  /** When the pattern does not match at `i`, the leftmost match from `i`
      is the leftmost match from `i + 1`. */
  lemma NoMatchHereDefers(s: string, i: nat, r: Option<string>)
    requires i < |s| && forall t :: !TagMatchesAt(s, i, t)
    requires r.Some? ==> exists j :: i + 1 <= j && TagMatchesAt(s, j, r.value)
                                   && forall i', t' :: i + 1 <= i' < j ==> !TagMatchesAt(s, i', t')
    requires r.None? ==> forall i', t' :: i + 1 <= i' ==> !TagMatchesAt(s, i', t')
    ensures r.Some? ==> exists j :: i <= j && TagMatchesAt(s, j, r.value)
                                  && forall i', t' :: i <= i' < j ==> !TagMatchesAt(s, i', t')
    ensures r.None? ==> forall i', t' :: i <= i' ==> !TagMatchesAt(s, i', t')
  {
    if r.Some? {
      var j :| i + 1 <= j && TagMatchesAt(s, j, r.value)
             && forall i', t' :: i + 1 <= i' < j ==> !TagMatchesAt(s, i', t');
      assert forall i', t' :: i <= i' < j ==> !TagMatchesAt(s, i', t');
    }
  }

  /** `Regex.find` of `"tag_name":\s*"v([^"]+)"` over the body: the capture
      of the leftmost match, or `None` when the pattern matches nowhere. */
  function FindTag(body: string): (r: Option<string>)
    ensures r.Some? ==> exists i :: FirstTagMatch(body, i, r.value)
    ensures r.None? <==> forall i, t :: !TagMatchesAt(body, i, t)
  {
    var r := FindTagFrom(body, 0);
    assert r.Some? ==> exists i :: FirstTagMatch(body, i, r.value) by {
      if r.Some? {
        var j :| 0 <= j && TagMatchesAt(body, j, r.value)
              && forall i', t' :: 0 <= i' < j ==> !TagMatchesAt(body, i', t');
        assert FirstTagMatch(body, j, r.value);
      }
    }
    r
  }

  /** The request URL: the configured API base, `/repos/`, the buildpack
      name and `/releases/latest`. */
  function LatestReleaseUrl(apiBase: string, name: string): (r: string)
    ensures |r| == |apiBase| + |name| + 23
    ensures r[..|apiBase|] == apiBase && r[|apiBase|..|apiBase| + 7] == "/repos/"
    ensures r[|apiBase| + 7..|r| - 16] == name && r[|r| - 16..] == "/releases/latest"
  {
    apiBase + "/repos/" + name + "/releases/latest"
  }

  /** `getLatestBuildpack`, given what the client answered for the request
      URL: any status but 200 is an error carrying URL, status and body; with
      200, the leftmost `"tag_name": "v..."` gives the new version and a body
      without one is an error; on success only the version changes. */
  function GetLatestBuildpack(bp: VersionedBuildpack, apiBase: string, response: HttpResponse)
    : (r: Result<VersionedBuildpack, ResolveError>)
    ensures response.status != 200 ==>
      r == Failure(UnexpectedResponse(LatestReleaseUrl(apiBase, bp.name), response.status, response.body))
    ensures response.status == 200 ==>
      (r.Failure? <==> forall i, t :: !TagMatchesAt(response.body, i, t))
    ensures response.status == 200 && r.Failure? ==> r.error == NoLatestVersion(bp.name)
    ensures r.Success? ==>
      && r.value.name == bp.name && r.value.url == bp.url
      && r.value.version.SemanticVersion?
      && exists i :: FirstTagMatch(response.body, i, r.value.version.versionString)
  {
    if response.status != 200 then
      Failure(UnexpectedResponse(LatestReleaseUrl(apiBase, bp.name), response.status, response.body))
    else
      match FindTag(response.body)
      case Some(t) => Success(bp.(version := SemanticVersion(t)))
      case None => Failure(NoLatestVersion(bp.name))
  }

  /** The leftmost match is unique, so a 200 answer whose leftmost match
      captures `t` resolves to the same buildpack with version `t`. */
  lemma ResolveFromFirstMatch(bp: VersionedBuildpack, apiBase: string, body: string, i: int, t: string)
    requires FirstTagMatch(body, i, t)
    ensures GetLatestBuildpack(bp, apiBase, HttpResponse(200, body))
         == Success(bp.(version := SemanticVersion(t)))
  {
    var r := GetLatestBuildpack(bp, apiBase, HttpResponse(200, body));
    var t' := r.value.version.versionString;
    var i' :| FirstTagMatch(body, i', t');
    assert TagAt(body, i) == Some(t) && TagAt(body, i) == Some(t');
  }

  /** A body without the key `"tag_name":` yields no version. */
  lemma ResolveWithoutTagKey(bp: VersionedBuildpack, apiBase: string, body: string)
    requires forall i :: !TagKeyAt(body, i)
    ensures GetLatestBuildpack(bp, apiBase, HttpResponse(200, body)) == Failure(NoLatestVersion(bp.name))
  {
  }

  /** An answer `{"tag_name": "v2.0.0"}` resolves a `Latest` entry to
      version `2.0.0` and leaves name and url alone. */
  lemma ResolveExample(body: string)
    requires body == "{\"tag_name\": \"v2.0.0\"}"
    ensures GetLatestBuildpack(VersionedBuildpack("acme/widget", "https://github.com/acme/widget", Latest),
                               "https://api.github.com", HttpResponse(200, body))
         == Success(VersionedBuildpack("acme/widget", "https://github.com/acme/widget", SemanticVersion("2.0.0")))
  {
    assert body[1..12] == TagKey && body[15..20] == "2.0.0";
    assert TagMatch(body, 1, 13, "2.0.0");
    assert FirstTagMatch(body, 1, "2.0.0") by {
      forall i', t' | 0 <= i' < 1
        ensures !TagMatchesAt(body, i', t')
      {
        assert body[0] == '{';
      }
    }
    ResolveFromFirstMatch(VersionedBuildpack("acme/widget", "https://github.com/acme/widget", Latest),
                          "https://api.github.com", body, 1, "2.0.0");
  }
}
