# opensafely codelists and pull, modelled in Dafny

This project models two commands of the `opensafely` command-line tool.

- `opensafely codelists`:
  - `update` reads the specification `codelists/codelists.txt`.
  - It downloads every codelist it names into `codelists/`.
  - It records each download (id, address, time, SHA-1 of the
    line-ending-normalised content) in the manifest `codelists/codelists.json`.
  - It keeps a recorded download time when the content has not changed.
  - It deletes `.csv` files the specification no longer names.
  - `check` verifies that specification, manifest and files still agree.
  - Under GitHub Actions, with no manifest, `check` first builds a temporary
    one with `update`.
- `opensafely pull`:
  - picks the docker images to pull (all, one, or those a project's actions
    run);
  - reads the installed images from `docker images`;
  - pulls the selected images, stopping at the first failure;
  - when something was pulled, runs the deprecated-tag removal (which, given
    the current-registry tags `main` passes it, removes nothing; see
    `MainRemovesNothing`) and prunes;
  - `check_version` reports installed images whose digest differs from the
    registry's.

Modules:

- `Wrappers`: `Option` and `Result`.
- `Text`: the Python string operations the code relies on, generic over the
  element type where bytes and text share them: `strip`, `rstrip`, `split`,
  `split("=", 1)`, `partition`, `join` and `splitlines`.
- `ContentHash`: `hash_bytes`. SHA-1 itself is a parameter `sha1`.
- `Codelists`: the specification parser, the manifest, `update` and `check`.
  - The codelists folder is the class `Folder`, which `update` changes in
    place.
  - Each method is proved equal to a function of the folder state
    (`UpdateSpec`, `CheckSpec`).
  - Downloads (`fetch`), the clock (`now`, the time of the j-th download)
    and the `GITHUB_WORKFLOW` variable (`workflow`) are parameters.
- `CodelistsProperties`: what `update` and `check` promise together.
- `Pull`: the decisions of `pull.py`.
  - Docker is modelled by its inputs and outputs:
    - the outcome of the preflight check;
    - the text `docker images` prints;
    - a predicate `ok` saying which checked commands succeed;
    - the list of commands run.
  - The registry's digests are a parameter `remote`.
  - The parsed `project.yaml` is a parameter.
  - `Config` holds `config.DOCKER_REGISTRY` and `IMAGES`, the list of
    `config.ALLOWED_IMAGES` after `IMAGES.sort()`; callers pass the images
    already sorted.
- `PullProperties`: what `main` promises, plus the examples of
  `tests/test_pull.py`.

## Model

| member | source | states |
|---|---|---|
| Text.StripEmpty | opensafely/pull.py:132 | `line.strip()` is empty exactly when every character is white space, so blank lines are those made only of white space |
| Text.Strip | opensafely/codelists.py:179 | `strip()` gives the input less its leading white space and less a run of trailing white space, ending with a character that is not white space |
| Text.RStrip | opensafely/codelists.py:179 | `rstrip("/")` gives a prefix of the input that does not end with `/`, and only `/` characters are removed |
| Text.Split | opensafely/codelists.py:182 | `split("/")` gives one more part than there are separators; no part holds a separator; the parts rejoin to the input |
| Text.Before | opensafely/pull.py:108 | the head of `partition(":")` is the longest separator-free prefix, followed by the separator unless it is the whole string |
| Text.SplitOnce | opensafely/pull.py:133 | `split("=", 1)` yields a pair exactly when there is an `=`; the key has no `=` and key + `=` + value is the line |
| Text.SplitLines | opensafely/codelists.py:178 | `splitlines()` yields lines free of every line boundary, never more lines than characters |
| Text.SplitLinesOfJoin | opensafely/codelists.py:219 | lines joined with LF, CR LF or CR split back into the same lines when the last line is not empty |
| Text.SplitLinesTrailingEnding | opensafely/codelists.py:219 | a single final line ending adds no line |
| Text.SplitLinesOfTerminated | opensafely/codelists.py:219 | lines that each end with the same line ending split back into the same lines, an empty last line included |
| ContentHash.Normalise | opensafely/codelists.py:219 | the normalised content holds no CR and is never longer than the input |
| ContentHash.HashBytes | opensafely/codelists.py:216-220 | content already in normal form (no CR, no final LF) has its plain SHA-1 digest |
| ContentHash.NormalFormFixed | opensafely/codelists.py:219 | content with no CR and no final LF normalises to itself |
| ContentHash.NormaliseLineEndings | opensafely/codelists.py:216-220 | content written with LF, CR LF or CR endings, last line not empty, normalises to the LF-joined lines |
| ContentHash.NormaliseTerminated | opensafely/codelists.py:216-220 | content whose every line ends with LF, CR LF or CR normalises to the LF-joined lines, without a final LF |
| ContentHash.NormaliseJoin | opensafely/codelists.py:216-220 | lines joined by any of the three endings normalise to the LF-joined lines, less an empty last line |
| ContentHash.HashIgnoresLineEndings | opensafely/codelists.py:216-220 | the digest does not depend on which of the three line endings a file uses, whether or not the file ends with one |
| ContentHash.NormaliseDropsFinalLineEnding | opensafely/codelists.py:219 | a trailing line ending does not change the normalised content |
| ContentHash.HashOfNormalised | opensafely/codelists.py:216-220 | contents with equal normal forms have equal digests |
| ContentHash.SeparatorExample | opensafely/codelists.py:216-220 | `a\r\nb`, `a\rb`, `a\nb`, `a\r\nb\r\n` and `a\rb\r` have the digest of `a\nb`; `a\r\n\r\n` has that of `a\n` |
| Codelists.ParseCodelistFile | opensafely/codelists.py:171-198 | returns exactly `ReadSpec`: errors for a missing folder or file, otherwise what the lines of the file parse to |
| Codelists.ParseLines | opensafely/codelists.py:177-198 | the loop over the lines returns the error of the first rejected line, otherwise the codelists of the accepted lines, in order |
| Codelists.ParseFailureIsFinal | opensafely/codelists.py:183-187 | once a line is rejected, parsing stops with that error whatever follows |
| Codelists.NormaliseLine | opensafely/codelists.py:179 | the stripped line less its trailing `/` characters: it neither starts with white space nor ends with `/` |
| Codelists.Resolve | opensafely/codelists.py:188-195 | the id is the normalised line, the url is the codelists site's address for it, the download url adds `download.csv`; the file name ends in `.csv` and has no `/`, so it stays inside the folder |
| Codelists.ParseLineCases | opensafely/codelists.py:179-195 | `ParseLine` skips a line iff it normalises to empty or starts with `#`; it accepts it iff it also has 2 or 3 `/`, yielding the codelist the normalised line resolves to; otherwise it rejects it, naming the normalised line |
| Codelists.ResolvedCodelist | opensafely/codelists.py:182-195 | for any line with a `/` (every accepted line has 2 or 3), the file name is the line without its last (version) token, `/` replaced by `-`, plus `.csv` |
| Codelists.Accepted | opensafely/codelists.py:178-197 | the accepted line positions, strictly increasing, and every accepted line among them |
| Codelists.ParsedInFileOrder | opensafely/codelists.py:190-198 | a parsed specification yields one codelist per accepted line, in file order |
| Codelists.ParseFailsAtFirstRejected | opensafely/codelists.py:183-187 | parsing fails iff some line is rejected, and then reports the first rejected line |
| Codelists.Reconciled | opensafely/codelists.py:201-213 | same files, ids, urls and digests as the new manifest; the old download time is kept exactly when the file was there with the same digest |
| Codelists.FreshReconciled | opensafely/codelists.py:207-208 | with no old manifest every download time of the new manifest is kept |
| Codelists.PreserveDownloadDates | opensafely/codelists.py:201-213 | the loop over the manifest computes `Reconciled` |
| Codelists.FormatDiff | opensafely/codelists.py:223-229 | an element is reported added iff only in the first set, removed iff only in the second; no lines iff the sets are equal |
| Codelists.Folder.constructor | opensafely/codelists.py:57-61 | a folder holding the given state |
| Codelists.FirstFailure | opensafely/codelists.py:64-73 | every codelist before it downloads and the one at it does not |
| Codelists.LastWith | opensafely/codelists.py:74-82 | the last codelist writing a given file name |
| Codelists.Downloads | opensafely/codelists.py:74-75 | the files written: one per file name, holding the content of the last download to it |
| Codelists.FetchedManifest | opensafely/codelists.py:76-82 | one entry per file name with the id, url, time and digest of the last download to it |
| Codelists.UpdateSpec | opensafely/codelists.py:57-89 | `update` never changes the folder kind or the specification; on success the manifest exists and lists exactly the `.csv` files; on failure the manifest is untouched and no old file is deleted |
| Codelists.UpdateWith | opensafely/codelists.py:61-89 | succeeds iff every codelist downloads and any old manifest parses; on success the `.csv` files are exactly the downloads (old files not downloaded again are gone) and the manifest is the fresh one reconciled with the old, keyed by the specification's file names; on failure the manifest is untouched and no old file is deleted |
| Codelists.Update | opensafely/codelists.py:57-89 | the result and the new folder state are those of `UpdateSpec` on the old state |
| Codelists.UpdateCodelists | opensafely/codelists.py:61-89 | the result and the new folder state are those of `UpdateWith` |
| Codelists.DownloadAll | opensafely/codelists.py:64-82 | stops at the first failed download; files written so far are on disk; when all download, the manifest and file set are built |
| Codelists.RemoveFiles | opensafely/codelists.py:86-88 | exactly the named files are deleted and nothing else changes |
| Codelists.Check | opensafely/codelists.py:92-150 | the result is `CheckSpec` of the folder |
| Codelists.LoadManifest | opensafely/codelists.py:98-121 | the manifest in use: the file, an error for an invalid or (outside GitHub Actions) missing one, or that of an `update` in a scratch folder |
| Codelists.TemporaryManifest | opensafely/codelists.py:153-160 | succeeds iff the specification parses and every codelist downloads; the manifest is then the fresh one, with no download time carried over |
| Codelists.CompareFolder | opensafely/codelists.py:122-150 | the comparisons give `Compare`: edited specification, then added or deleted files, then the set of modified files |
| CodelistsProperties.UpdateWritesManifest | opensafely/codelists.py:76-85 | the manifest written lists every file with the id, url and digest of the last codelist downloaded to it |
| CodelistsProperties.FreshManifest | opensafely/codelists.py:76-85 | the reconciled manifest of a full download, whatever the old one, lists every file with the id, url and digest of its last download |
| CodelistsProperties.FreshIds | opensafely/codelists.py:122-124 | such a manifest records exactly the specification's ids when file names determine ids |
| CodelistsProperties.CompareFresh | opensafely/codelists.py:122-150 | the comparisons of `check` pass on a full download and its reconciled manifest |
| CodelistsProperties.CompareAfterUpdate | opensafely/codelists.py:122-150 | the three comparisons of `check` pass right after `update` |
| CodelistsProperties.CheckAfterUpdate | opensafely/codelists.py:57-150 | `check` passes after a successful `update`, in any environment, when shared file names imply equal ids |
| CodelistsProperties.FetchedManifestTimes | opensafely/codelists.py:76-82 | manifests of the same downloads at different times differ only in times |
| CodelistsProperties.ReconcileAgain | opensafely/codelists.py:201-213 | reconciling against a reconciled manifest of the same content returns it unchanged |
| CodelistsProperties.UpdateWithIdempotent | opensafely/codelists.py:201-206 | a second run over the same codelists and downloads, at any time, changes nothing |
| CodelistsProperties.UpdateIdempotent | opensafely/codelists.py:201-206 | running `update` twice with the same downloads leaves the folder as the first run did |
| CodelistsProperties.CompareReportsEditedFile | opensafely/codelists.py:138-148 | editing a file so its digest changes makes the comparison report exactly that file |
| CodelistsProperties.CheckReportsEditedFile | opensafely/codelists.py:138-148 | a folder that passes `check` fails it, naming exactly the edited file, after one file's digest changes |
| CodelistsProperties.CompareIgnoresLineEndings | opensafely/codelists.py:216-220 | changing only line endings keeps the comparison passing |
| CodelistsProperties.CheckIgnoresLineEndings | opensafely/codelists.py:216-220 | a folder that passes `check` still passes after a file's line endings change |
| CodelistsProperties.SharedFilenameLosesId | opensafely/codelists.py:122-124 | two codelists with one file name and different ids leave one id in the manifest while the specification has two |
| Pull.NonBlank | opensafely/pull.py:132 | a line is kept iff it is one of the input lines and not blank |
| Pull.NonBlankAt | opensafely/pull.py:132 | the positions of the non-blank lines, strictly increasing, and every non-blank line among them |
| Pull.NonBlankInOrder | opensafely/pull.py:132 | the j-th kept line is the line at the j-th non-blank position, so order and repetitions are kept |
| Pull.ImagePairs | opensafely/pull.py:133 | fails iff some line has no `=`, naming such a line; otherwise each line is key + `=` + value with no `=` in the key |
| Pull.LastKey | opensafely/pull.py:133 | the last pair with a given key |
| Pull.ToMap | opensafely/pull.py:133 | `dict(pairs)`: the keys of the pairs, each with the value of its last pair |
| Pull.LocalImages | opensafely/pull.py:118-134 | only tags of allowed images in the current registry are returned |
| Pull.ImagesOf | opensafely/pull.py:133-134 | only tags of allowed images in the current registry are returned |
| Pull.ImagesOfSpec | opensafely/pull.py:133-134 | over the non-blank lines: fails iff a line lacks `=`; an allowed tag is returned iff some line prints it before `=`, with the digest of the last such line |
| Pull.DigestLine | opensafely/pull.py:133 | a returned tag's digest comes from the last line that prints the tag |
| Pull.ImagesOfNonBlank | opensafely/pull.py:132-134 | the same over all the lines: fails iff a non-blank line lacks `=`; a tag's digest is that of the last non-blank line printing it |
| Pull.LocalImagesSpec | opensafely/pull.py:118-134 | over the text `docker images` prints: fails iff a non-blank line lacks `=`; an allowed tag is returned iff a non-blank line prints it, with the digest of the last such line |
| Pull.GetActionsFromProjectFile | opensafely/pull.py:89-115 | errors for a missing or unparsable file or no matching action; otherwise the images the actions run |
| Pull.ActionImagesMembers | opensafely/pull.py:101-110 | an image is listed iff it is allowed and some action's `run` names it before its first `:` |
| Pull.ActionImagesConcat | opensafely/pull.py:101-110 | the images keep the order of the actions |
| Pull.RemoveDeprecatedImages | opensafely/pull.py:137-143 | the tags removed are the installed ones of each deprecated registry, registry by registry, in image order |
| Pull.RemovalsMembers | opensafely/pull.py:137-143 | a tag is removed iff it is installed and is `registry/image` for a listed registry and an allowed image |
| Pull.RegistryRemovalsMembers | opensafely/pull.py:140-143 | the tags of one registry that are removed are exactly those installed |
| Pull.TagInjective | opensafely/pull.py:141 | `registry/image` determines both parts when image names have no `/` |
| Pull.RemovalsSpareRegistry | opensafely/pull.py:137-143 | no tag of a non-deprecated registry is ever removed |
| Pull.PullCommandsPrefix | opensafely/pull.py:68-76 | the pulls for the first images come first |
| Pull.FirstFailed | opensafely/pull.py:76 | every command before it succeeds and the one at it fails |
| Pull.RunPull | opensafely/pull.py:51-86 | the commands run and the ending are those of `MainSpec` |
| Pull.SelectImages | opensafely/pull.py:55-63 | a project's images, forced; all images, forced on request; or the image asked for, forced |
| Pull.PullAndClean | opensafely/pull.py:66-86 | the pull loop and clean-up give `PullAndCleanSpec`: exit at the first failed pull, else prune after removals when something was pulled |
| Pull.PullImages | opensafely/pull.py:67-76 | the pulls run are a prefix of the pulls of the loop; all but the last succeed; it stops only at a failure; `updated` iff something was pulled |
| Pull.FailsAt | opensafely/pull.py:76 | a run whose only failure is its last command ends at the first failing pull |
| Pull.RemoveCommands | opensafely/pull.py:140-143 | one `docker image rm` per tag, in order |
| Pull.CleanUp | opensafely/pull.py:79-81 | one `docker image rm` per deprecated tag, then the prune |
| Pull.CheckVersion | opensafely/pull.py:182-199 | the result is `CheckVersionSpec` |
| Pull.FindOutOfDate | opensafely/pull.py:186-192 | the loop computes `OutOfDate` |
| Pull.OutOfDateSpec | opensafely/pull.py:186-192 | fails iff an installed image has no registry digest; otherwise an image is reported iff it is installed with a different digest |
| Pull.OutOfDateConcat | opensafely/pull.py:186-192 | the report keeps the order of the images |
| PullProperties.PullOfInjective | opensafely/pull.py:76 | different images give different pull commands |
| PullProperties.PullCommandsMembers | opensafely/pull.py:68-76 | an image is pulled iff it is selected, not `databuilder`, and forced or installed |
| PullProperties.NeverPullsUnpublished | opensafely/pull.py:69-71 | `databuilder` is never pulled |
| PullProperties.PullCommandsConcat | opensafely/pull.py:68-76 | pulls keep the order of the images |
| PullProperties.CleanUpIffPulled | opensafely/pull.py:78-83 | on normal return, something was pulled iff the prune ran; every pull precedes the clean-up |
| PullProperties.CleanUpRemovesNothing | opensafely/pull.py:80 | given only current-registry tags, the clean-up removes nothing |
| PullProperties.MainRemovesNothing | opensafely/pull.py:65-80 | `main` never runs `docker image rm`, because it passes the removal the already-filtered tags |
| PullProperties.SpecificImagePulled | opensafely/pull.py:60-63 | a requested image is pulled first, installed or not, and pruning follows a successful pull |
| PullProperties.RemovalExample | tests/test_pull.py:107-119 | with `r` installed in all three registries, exactly the two deprecated tags are removed, in registry order |
| PullProperties.RegistryExample | tests/test_pull.py:107-119 | in each deprecated registry of the test, only the tag of `r` is removed |
| PullProperties.NoneRemoved | opensafely/pull.py:140-143 | nothing is removed when none of the tags is installed |
| PullProperties.OutOfDateExample | tests/test_pull.py:122-136 | an installed `python` with an old digest is the one image reported |

## Left out

- HTTP downloads, `raise_for_status` and response bodies are the parameter `fetch`, by download url. Any failure is `None`.
- SHA-1 and its hex encoding are the parameter `sha1`.
- The text of `utcnow()` is the parameter `now`, indexed by download.
- JSON reading and writing are left out; the manifest is kept as a value.
  - A manifest file that is not valid JSON is `Unreadable`.
  - `update` on such a file raises `JSONDecodeError` after writing the CSV files; this is modelled as the error `InvalidManifest`.
- Printed messages, exit codes and the wording of errors are left out. Each error is a constructor of `Error` or `PullError`.
- The order of `format_diff`'s lines and of the modified-files list follows Python's set and dict order, so both are modelled as sets.
- File paths are file names inside the codelists folder.
  - The `*.csv` glob, hidden files and the temporary directory are not modelled.
  - A `codelists/` that exists but is not a folder is `NotAFolder`.
  - `read_text` universal-newline translation is folded into `splitlines()`, which already splits at every line boundary.
- The docker preflight check, `subprocess`, `docker images`, `docker pull`, `docker image rm` and `docker image prune` are modelled by their inputs and outputs.
  - A failed `docker images` is the error `DockerImagesFailed`.
  - The `stderr` passed to `sys.exit` is not modelled.
- `get_remote_sha` and `get_auth_token` (the registry protocol, the bearer token and its cache) are the parameter `remote`. A failing request fails the whole `check_version`, as in the code.
- The YAML parser is left out; its result is a `ProjectFile`.
  - A `run` value that is not a string is not modelled.
  - An empty project path counts as no project.
- `argparse` set-up (`add_arguments`) and the `main` stub of `codelists.py` are left out.
- `config.DOCKER_REGISTRY` and `config.ALLOWED_IMAGES` live in a module outside this model; `Config` holds the registry and the sorted `IMAGES` built from them.
- CodelistsProperties.CheckAfterUpdate: assumes no two codelists of the specification share a file name with different ids. When they do, `check` fails right after `update`, as `SharedFilenameLosesId` shows.
- Pull.Config: `images` stands for `IMAGES` after `IMAGES.sort()` (opensafely/pull.py:24-27). The sort itself is not modelled. So the orders stated by `PullCommandsConcat`, `RemoveDeprecatedImages` and `OutOfDateConcat` are the source's orders only when `images` is passed sorted.
