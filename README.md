# Buildpack manifest and shell engine, in Dafny

A model of the two pieces of logic in the buildpack-update helper:

- **Manifest** (`manifest.dfy`, from `Manifest.kt`): decoding one buildpack
  reference such as `https://github.com/owner/repo#v1.2.3` into name, url
  and version (`VersionedBuildpack.create`); the `Version` variants
  `SemanticVersion` and `Latest` and their equality; and resolving the newest
  release (`getLatestBuildpack`). Resolution builds the request URL from the
  API base and the name. It rejects any status but 200. It takes the leftmost
  `"tag_name": "v…"` of the body. On success it copies the buildpack with only
  its version replaced.
- **Shell** (`shell.dfy`, from `Shell.kt`): the command description written
  to the log, the two stream readers of `LogAndCollectOutputs` (a class whose
  methods append each line to that stream's buffer), the buffers joined with
  line feeds, and `retrieveOutputOrThrow`. That rule returns the trimmed
  standard output unless the exit code is non-zero AND the trimmed standard
  error is non-empty. So a non-zero exit with blank standard error still
  succeeds.
- **Strings** (`strings.dfy`): the Kotlin string functions the two rely on
  (`joinToString`, `trim`, `Char.isWhitespace`). The core never splits text.
  `Split` is here only as the inverse of joining, so that the line-feed-joined
  output buffers can be shown to keep their lines (`SplitJoin`, `JoinSplit`).
- **Results** (`results.dfy`): `Option` and `Result`, standing for nullable
  values and thrown exceptions.

The four regexes are replaced by hand-written scans. Their meaning is
stated as predicates that describe the match the regex engine finds:

- `UrlCapture` stands for the url and the name regexes.
- `VersionCapture` stands for the version regex.
- `TagMatch`, `TagMatchesAt` and `FirstTagMatch` stand for the tag regex of
  the release lookup.

The functions are proved to return exactly that match:

- The host marker is `github`, any one character, `com/`. The `.` in
  `github.com` is not escaped in the source.
- Url and name start from the LAST marker. They stop at the FIRST `#v` after
  it, or at the end of the text.
- The version is the text after the LAST `#v` of the whole input, provided
  that `#v` starts after the end of some marker. Otherwise it is `Latest`.
  Because the version is anchored at the first marker and the url at the
  last, `github.com/a#v1/github.com/b` decodes to name `b`, the whole input
  as url, and version `1/github.com/b` (`PinnedVersionBeforeLastMarker`).

Version equality follows the code. `SemanticVersion` is a data class, so two
versions are equal when their raw texts are equal; the text is not parsed
when a version is built. `Latest` equals every `Latest` and nothing else.

## Model

| member | source | states |
|---|---|---|
| `Manifest.VersionEquals` | src/main/kotlin/com/springernature/newversion/Manifest.kt:50-60 | `equals` holds exactly for structurally equal versions: `Latest` equals every `Latest` and never a `SemanticVersion`; two `SemanticVersion`s are equal iff their raw texts are |
| `Manifest.SemVerText` | src/main/kotlin/com/springernature/newversion/Manifest.kt:51 | `trimStart('v')` yields a suffix of the text that does not start with `v`, and everything removed is `v` |
| `Manifest.BuildpackUrl` | src/main/kotlin/com/springernature/newversion/Manifest.kt:35-37 | fails with "Cannot parse buildpack URL" iff there is no marker; otherwise the url is a prefix of the input ending where the regex capture ends: the first `#v` after the last marker, or the end |
| `Manifest.BuildpackName` | src/main/kotlin/com/springernature/newversion/Manifest.kt:43-45 | fails iff there is no marker; otherwise the name is the text from the end of the last marker to the first `#v` after it, or to the end |
| `Manifest.BuildpackVersion` | src/main/kotlin/com/springernature/newversion/Manifest.kt:39-41 | `Latest` iff no `#v` follows a marker; otherwise `SemanticVersion` of the text after the last such `#v` |
| `Manifest.Create` | src/main/kotlin/com/springernature/newversion/Manifest.kt:32-45 | fails iff the input has no marker; url is a prefix of the input whose remainder is empty or starts with `#v`; url = input up to the end of the last marker, then the name; version as `BuildpackVersion` |
| `Manifest.CreateFromCapture` | src/main/kotlin/com/springernature/newversion/Manifest.kt:35-45 | the url and name captures are unique: any last marker and end the regexes admit give exactly the url and name `create` returns |
| `Manifest.VersionFromCapture` | src/main/kotlin/com/springernature/newversion/Manifest.kt:39-41 | the version capture is unique: the last `#v` after a marker determines the version |
| `Manifest.CreatePinnedFromCaptures` | src/main/kotlin/com/springernature/newversion/Manifest.kt:32-45 | the three captures together determine the whole decoded entry |
| `Manifest.FragmentAfterMarkerPins` | src/main/kotlin/com/springernature/newversion/Manifest.kt:39-41 | any `#v` after the end of a marker makes the version a `SemanticVersion` |
| `Manifest.LatestKeepsWholeUrl` | src/main/kotlin/com/springernature/newversion/Manifest.kt:35-41 | when the version is `Latest`, the url is the whole input |
| `Manifest.CreatePinned` | src/main/kotlin/com/springernature/newversion/Manifest.kt:32-45 | `<prefix>github.com/<path>#v<ver>` with no later marker and no `#v` inside `path` or `ver` decodes to name `path`, url `<prefix>github.com/<path>` and version `ver` |
| `Manifest.FirstFragmentCutsUrlLastGivesVersion` | src/main/kotlin/com/springernature/newversion/Manifest.kt:36-44 | `github.com/x#v1#v2` gives name `x`, url `github.com/x` and version `2`: url and name stop at the first `#v`, the version follows the last |
| `Manifest.PinnedVersionBeforeLastMarker` | src/main/kotlin/com/springernature/newversion/Manifest.kt:36-44 | with a `#v` between two markers, the entry is pinned while its url still contains that `#v` |
| `Manifest.TagAt` | src/main/kotlin/com/springernature/newversion/Manifest.kt:23 | trying the tag pattern at one position returns a capture iff the pattern matches there, and then the only capture it can have |
| `Manifest.FindTag` | src/main/kotlin/com/springernature/newversion/Manifest.kt:23 | `find` returns the capture of the leftmost match of `"tag_name":\s*"v([^"]+)"`, and nothing iff the pattern matches nowhere |
| `Manifest.LatestReleaseUrl` | src/main/kotlin/com/springernature/newversion/Manifest.kt:16 | the request URL is the API base, `/repos/`, the buildpack name and `/releases/latest`, and the name can be read back from it; `GetLatestBuildpack` returns this URL inside `UnexpectedResponse` |
| `Manifest.GetLatestBuildpack` | src/main/kotlin/com/springernature/newversion/Manifest.kt:15-26 | a status other than 200 fails with the request URL `<base>/repos/<name>/releases/latest`, the status and the body; with 200 it fails with the buildpack name iff no tag matches; a success keeps name and url and sets the version to the leftmost tag's text |
| `Manifest.ResolveFromFirstMatch` | src/main/kotlin/com/springernature/newversion/Manifest.kt:22-25 | a 200 answer whose leftmost match captures `t` resolves to the same buildpack with version `t` |
| `Manifest.ResolveWithoutTagKey` | src/main/kotlin/com/springernature/newversion/Manifest.kt:23-25 | a 200 answer without the key `"tag_name":` fails with "Couldn't get latest version" |
| `Manifest.ResolveExample` | src/main/kotlin/com/springernature/newversion/Manifest.kt:15-25 | `{"tag_name": "v2.0.0"}` resolves `acme/widget` from `Latest` to `2.0.0`, keeping name and url |
| `Shell.CommandDescription` | src/main/kotlin/com/springernature/newversion/Shell.kt:32 | the description starts with the command and one space; with no arguments it is exactly that. Each argument is wrapped in double quotes by `Shell.Quote`, and `DescriptionOfOneMore` fixes the rest of the text one argument at a time |
| `Shell.DescriptionOfOneMore` | src/main/kotlin/com/springernature/newversion/Shell.kt:32 | one more argument appends a space (unless it is the first) and the argument in double quotes |
| `Shell.RetrieveOutputOrThrow` | src/main/kotlin/com/springernature/newversion/Shell.kt:40-52 | fails iff the exit code is non-zero and standard error is not blank, with that exit code and the trimmed, non-empty standard error; otherwise returns the trimmed standard output, which has no leading or trailing whitespace |
| `Shell.LogAndCollectOutputs.constructor` | src/main/kotlin/com/springernature/newversion/Shell.kt:60-62 | both buffers start empty; the description is kept |
| `Shell.LogAndCollectOutputs.ReadStdOut` | src/main/kotlin/com/springernature/newversion/Shell.kt:65-72 | after draining, `stdOut` is its old value followed by every line of the stream in order; nothing else changes |
| `Shell.LogAndCollectOutputs.ReadStdErr` | src/main/kotlin/com/springernature/newversion/Shell.kt:73-80 | after draining, `stdErr` is its old value followed by every line of the stream in order; nothing else changes |
| `Shell.LogAndCollectOutputs.OnProcessStart` | src/main/kotlin/com/springernature/newversion/Shell.kt:64-84 | once both readers are done, each buffer holds exactly its own stream's lines, in order |
| `Shell.LogAndCollectOutputs.CollectedStdOut` | src/main/kotlin/com/springernature/newversion/Shell.kt:86 | the joined text is empty for no lines, and splitting it on line feeds gives the lines back otherwise |
| `Shell.LogAndCollectOutputs.CollectedStdErr` | src/main/kotlin/com/springernature/newversion/Shell.kt:87 | the same for standard error |
| `Shell.Command` | src/main/kotlin/com/springernature/newversion/Shell.kt:30-38 | running a command fails iff the exit code is non-zero and some standard-error line has a non-whitespace character; otherwise it returns the trimmed, line-feed-joined standard output |
| `Strings.IsWhitespace` | src/main/kotlin/com/springernature/newversion/Shell.kt:44-47 | `Char.isWhitespace`, which decides what `trim()` cuts and so whether the trimmed text is empty, holds exactly when `Character.isWhitespace` or `Character.isSpaceChar` holds (its two independent definitions `IsJavaWhitespace` and `IsSpaceChar`), so the non-breaking spaces count; no other ASCII character than space, tab to carriage return and U+001C to U+001F is whitespace |
| `Strings.Trim` | src/main/kotlin/com/springernature/newversion/Shell.kt:44 | `trim()` yields a contiguous middle part of the text with no surrounding whitespace, and everything cut off is whitespace |
| `Strings.TrimUnique` | src/main/kotlin/com/springernature/newversion/Shell.kt:44-46 | blank text + `r` + blank text trims to exactly `r` when `r` has no surrounding whitespace |
| `Strings.TrimIdempotent` | src/main/kotlin/com/springernature/newversion/Shell.kt:44 | trimming twice is trimming once |
| `Strings.TrimEmptyIffBlank` | src/main/kotlin/com/springernature/newversion/Shell.kt:46-47 | the trimmed text is empty iff the text is blank |
| `Strings.Join` | src/main/kotlin/com/springernature/newversion/Shell.kt:86-87 | `joinToString` (here and in the command description) of no elements is empty, and otherwise starts with the first element; its partners are `JoinSnoc` (one more element), `SplitJoin` and `JoinSplit` (splitting undoes it) |
| `Strings.JoinBlankIffAllBlank` | src/main/kotlin/com/springernature/newversion/Shell.kt:86-87 | text joined with a blank separator is blank iff every element is blank |
| `Strings.JoinSnoc` | src/main/kotlin/com/springernature/newversion/Shell.kt:32 | joining a list with one more element appends the separator (unless the list was empty) and the element |
| `Strings.SplitJoin` | src/main/kotlin/com/springernature/newversion/Shell.kt:86-87 | a non-empty list of delimiter-free strings, joined on the delimiter and split again, gives the list back |
| `Strings.JoinSplit` | src/main/kotlin/com/springernature/newversion/Shell.kt:86-87 | any text split on the delimiter and joined again is the text itself |

## Left out

- The HTTP transport (`HttpClient.send`) is network I/O. The answer is an input `(status, body)`.
- `GetLatestBuildpack` assumes the request was sent. `URI.create` and `HttpRequest.Builder.uri` reject a request URL that is not a valid URI, for example one built from a name holding a space, `"` or `<`, which `Create` accepts. That failure, which happens before any request is sent, is not modelled.
- The settings lookup of the API base URL: `Settings` is not part of this model, so the base URL is a parameter.
- `SemVer.parse` is a foreign library. Only the `trimStart('v')` step before it is modelled.
- The Jackson `@JsonCreator` wiring is a foreign library. `CFApplication` is only a datatype.
- `Latest.hashCode` (always 1) is not modelled. Equality is.
- The exception messages are modelled as error values carrying the same data (input text; URL, status and body; buildpack name), not as rendered strings.
- Manifest inputs containing line terminators: the regex `.` and `$` do not cross them, but the model treats every character alike. It is faithful for single-line input only.
- Kotlin characters are UTF-16 code units while Dafny's are Unicode scalar values. `IsWhitespace` is Kotlin's `Char.isWhitespace` (`Character.isWhitespace || Character.isSpaceChar`) for current Unicode.
- Process spawning, turtle's `shellRun` and `commandStreaming`, the working directory, and the `Shell`/`Script`/`TurtleShell.run` plumbing are OS and library code. The finished process is an input: exit code and the lines of both streams.
- The two reader threads, `join`, and the synchronized lists' thread safety cannot be modelled. The readers run one after the other; each writes only its own buffer.
- The SLF4J logging calls are side effects only. The command description is built and kept, but nothing is logged.
