/** `opensafely codelists`: keeps the `codelists/` folder of a study in
    step with its specification `codelists/codelists.txt`, records what was
    downloaded in the manifest `codelists/codelists.json`, and checks later
    that specification, manifest and files still agree.

    The folder is the class `Folder`; downloads, timestamps and SHA-1 are
    parameters (`fetch`, `now`, `sha1`). */
module Codelists {

  import opened Wrappers
  import opened Text
  import opened ContentHash

  const BaseUrl: string := "https://codelists.opensafely.org/codelist/"

  /** One line of the specification, resolved. `filename` is the name of
      the downloaded file inside the codelists folder. */
  datatype Codelist = Codelist(id: string, url: string, downloadUrl: string, filename: string)

  /** A line of `format_diff`'s report: an element of the symmetric
      difference of two sets, tagged by the set it comes from. */
  datatype DiffLine = Added(element: string) | Removed(element: string)

  /** Every way `update` and `check` stop with an error. */
  datatype Error =
    | NoCodelistsFolder
    | NoCodelistsFile
    | BadSpecLine(line: string)
    | DownloadFailed(id: string, url: string)
    | NoManifest
    | InvalidManifest
    | SpecEdited(diff: set<DiffLine>)
    | CsvFilesChanged(diff: set<DiffLine>)
    | CsvFilesModified(files: set<string>)

  // ---------------------------------------------------------------------
  // The specification file

  /** `line.strip().rstrip("/")`: the stripped line less its trailing
      slashes, so it neither starts with white space nor ends with `/`. */
  function NormaliseLine(line: string): (r: string)
    ensures r == [] || (!IsSpace(r[0]) && r[|r| - 1] != '/')
    ensures var stripped := Strip(line);
      && |r| <= |stripped| && r == stripped[..|r|]
      && forall i :: |r| <= i < |stripped| ==> stripped[i] == '/'
  {
    RStrip(Strip(line), '/')
  }

  /** What one line of the specification contributes. */
  datatype LineOutcome = Skip | Accept(codelist: Codelist) | Reject(line: string)

  /** The codelist named by a normalised line with 3 or 4 tokens: the id is
      the line, the file name is every token but the version joined by
      `-`, plus `.csv`. */
  function Resolve(line: string): (c: Codelist)
    ensures c.id == line && c.url == BaseUrl + line + "/" && c.downloadUrl == c.url + "download.csv"
    ensures '/' !in c.filename
    ensures |c.filename| >= 4 && c.filename[|c.filename| - 4..] == ".csv"
  {
    var tokens := Split(line, '/');
    var url := BaseUrl + line + "/";
    JoinWithout("-", tokens[..|tokens| - 1], '/');
    Codelist(line, url, url + "download.csv", Join("-", tokens[..|tokens| - 1]) + ".csv")
  }

  /** One iteration of the loop in `parse_codelist_file`. */
  function ParseLine(raw: string): LineOutcome {
    var line := NormaliseLine(raw);
    if line == [] || line[0] == '#' then Skip
    else if |Split(line, '/')| != 3 && |Split(line, '/')| != 4 then Reject(line)
    else Accept(Resolve(line))
  }

  /** What each line of the specification yields, line by line. */
  function LineOutcomes(lines: seq<string>): (outcomes: seq<LineOutcome>)
    ensures |outcomes| == |lines|
    ensures forall k :: 0 <= k < |lines| ==> outcomes[k] == ParseLine(lines[k])
  {
    seq(|lines|, k requires 0 <= k < |lines| => ParseLine(lines[k]))
  }

  /** The codelists the outcomes yield, in order, or the first rejected
      line. */
  function Collect(outcomes: seq<LineOutcome>): Result<seq<Codelist>, Error> {
    if outcomes == [] then Success([])
    else AddLine(Collect(outcomes[..|outcomes| - 1]), outcomes[|outcomes| - 1])
  }

  /** The codelists parsed so far, extended by what the next line yields. */
  function AddLine(parsed: Result<seq<Codelist>, Error>, outcome: LineOutcome): Result<seq<Codelist>, Error> {
    match parsed
    case Failure(e) => Failure(e)
    case Success(cs) =>
      match outcome
      case Skip => Success(cs)
      case Reject(line) => Failure(BadSpecLine(line))
      case Accept(c) => Success(cs + [c])
  }

  /** Whether the codelists path exists, and is a folder. */
  datatype PathKind = Missing | NotAFolder | IsFolder

  /** `parse_codelist_file` as a function of what it reads: the kind of
      the codelists path and the text of `codelists.txt`, if present. */
  function ReadSpec(kind: PathKind, specText: Option<string>): Result<seq<Codelist>, Error> {
    if kind != IsFolder then Failure(NoCodelistsFolder)
    else if specText.None? then Failure(NoCodelistsFile)
    else Collect(LineOutcomes(SplitLines(specText.value, TextNewlines)))
  }

  /** `parse_codelist_file`. */
  method ParseCodelistFile(kind: PathKind, specText: Option<string>) returns (r: Result<seq<Codelist>, Error>)
    ensures r == ReadSpec(kind, specText)
  {
    if kind != IsFolder {
      return Failure(NoCodelistsFolder);
    }
    if specText.None? {
      return Failure(NoCodelistsFile);
    }
    var lines := SplitLines(specText.value, TextNewlines);
    r := ParseLines(lines);
  }

  /** The loop of `parse_codelist_file` over the lines of the file. */
  method ParseLines(lines: seq<string>) returns (r: Result<seq<Codelist>, Error>)
    ensures r == Collect(LineOutcomes(lines))
  {
    ghost var outcomes := LineOutcomes(lines);
    var codelists: seq<Codelist> := [];
    var i := 0;
    while i < |lines|
      invariant 0 <= i <= |lines|
      invariant Collect(outcomes[..i]) == Success(codelists)
    {
      var outcome := ParseLine(lines[i]);
      CollectNext(outcomes, i, codelists);
      match outcome {
        case Skip =>
        case Reject(line) =>
          return Failure(BadSpecLine(line));
        case Accept(c) =>
          codelists := codelists + [c];
      }
      i := i + 1;
    }
    assert outcomes[..i] == outcomes;
    r := Success(codelists);
  }

  /** One more outcome, after the first `i` were collected without error. */
  lemma CollectNext(outcomes: seq<LineOutcome>, i: nat, codelists: seq<Codelist>)
    requires i < |outcomes| && Collect(outcomes[..i]) == Success(codelists)
    ensures outcomes[i].Skip? ==> Collect(outcomes[..i + 1]) == Success(codelists)
    ensures outcomes[i].Accept? ==> Collect(outcomes[..i + 1]) == Success(codelists + [outcomes[i].codelist])
    ensures outcomes[i].Reject? ==> Collect(outcomes) == Failure(BadSpecLine(outcomes[i].line))
  {
    CollectStep(outcomes, i);
    if outcomes[i].Reject? {
      ParseFailureIsFinal(outcomes, i + 1);
    }
  }

  /** The outcomes of the first `i + 1` lines are collected from those of
      the first `i` and the next one. */
  lemma CollectStep(outcomes: seq<LineOutcome>, i: nat)
    requires i < |outcomes|
    ensures Collect(outcomes[..i + 1]) == AddLine(Collect(outcomes[..i]), outcomes[i])
  {
    assert outcomes[..i + 1][..i] == outcomes[..i];
  }

  lemma {:induction false} ParseFailureIsFinal(outcomes: seq<LineOutcome>, n: nat)
    requires n <= |outcomes| && Collect(outcomes[..n]).Failure?
    ensures Collect(outcomes) == Collect(outcomes[..n])
    decreases |outcomes| - n
  {
    if n < |outcomes| {
      CollectStep(outcomes, n);
      ParseFailureIsFinal(outcomes, n + 1);
    } else {
      assert outcomes[..n] == outcomes;
    }
  }

  /** What `ParseLine` does with one line: it is skipped exactly when,
      once normalised, it is empty or a comment; otherwise it yields the
      codelist the normalised line resolves to exactly when it has two or
      three `/` (three or four tokens), and is an error naming the
      normalised line when it has any other number. */
  lemma ParseLineCases(raw: string)
    ensures var line := NormaliseLine(raw);
      && (ParseLine(raw).Skip? <==> line == [] || line[0] == '#')
      && (ParseLine(raw).Accept? <==> line != [] && line[0] != '#' && multiset(line)['/'] in {2, 3})
      && (ParseLine(raw).Accept? ==> ParseLine(raw).codelist == Resolve(line))
      && (ParseLine(raw).Reject? ==> ParseLine(raw).line == line)
  {
  }

  /** The file a line with at least one `/` (so every accepted line)
      downloads to: the line without its last (version) token, with `/`
      turned into `-`, plus `.csv`. */
  lemma {:induction false} ResolvedCodelist(line: string)
    requires |Split(line, '/')| >= 2
    ensures var version := AfterLast(line, '/');
      && |version| < |line|
      && Resolve(line).filename == Replace(line[..|line| - |version| - 1], '/', '-') + ".csv"
  {
    var tokens := Split(line, '/');
    StemAndVersion(line, tokens);
    ResolveFilename(line);
  }

  lemma ResolveFilename(line: string)
    ensures var tokens := Split(line, '/');
      Resolve(line).filename == Join(['-'], tokens[..|tokens| - 1]) + ".csv"
  {
    assert "-" == ['-'];
  }

  /** A line made of separator-free tokens joined by `/`: its version is
      the last token, and the rest, with `/` turned into `-`, is the
      other tokens joined by `-`. */
  lemma StemAndVersion(line: string, tokens: seq<string>)
    requires |tokens| >= 2 && line == Join(['/'], tokens)
    requires forall k :: 0 <= k < |tokens| ==> '/' !in tokens[k]
    ensures var version := tokens[|tokens| - 1];
      && AfterLast(line, '/') == version && |version| < |line|
      && Replace(line[..|line| - |version| - 1], '/', '-') == Join(['-'], tokens[..|tokens| - 1])
  {
    var n := |tokens|;
    var stem := tokens[..n - 1];
    var version := tokens[n - 1];
    assert tokens == stem + [version];
    JoinSnoc(['/'], stem, version);
    AfterLastSep(Join(['/'], stem), '/', version);
    assert line[..|line| - |version| - 1] == Join(['/'], stem);
    ReplaceJoin(stem, '/', '-');
  }

  /** The positions of the lines that yield a codelist, in file order. */
  function Accepted(outcomes: seq<LineOutcome>): (ks: seq<nat>)
    ensures forall j :: 0 <= j < |ks| ==> ks[j] < |outcomes| && outcomes[ks[j]].Accept?
    ensures forall i, j :: 0 <= i < j < |ks| ==> ks[i] < ks[j]
    ensures forall k :: 0 <= k < |outcomes| && outcomes[k].Accept? ==> k in ks
  {
    if outcomes == [] then []
    else
      var n := |outcomes| - 1;
      var front := Accepted(outcomes[..n]);
      front + (if outcomes[n].Accept? then [n] else [])
  }

  /** A specification that parses yields exactly one codelist per accepted
      line, in file order. */
  lemma {:induction false} ParsedInFileOrder(outcomes: seq<LineOutcome>)
    requires Collect(outcomes).Success?
    ensures |Collect(outcomes).value| == |Accepted(outcomes)|
    ensures forall j :: 0 <= j < |Accepted(outcomes)| ==>
      Collect(outcomes).value[j] == outcomes[Accepted(outcomes)[j]].codelist
  {
    if outcomes != [] {
      var n := |outcomes| - 1;
      assert Collect(outcomes[..n]).Success?;
      ParsedInFileOrder(outcomes[..n]);
    }
  }

  /** Parsing fails exactly when some line is rejected, and then it
      reports the first rejected line. */
  lemma {:induction false} ParseFailsAtFirstRejected(outcomes: seq<LineOutcome>)
    ensures Collect(outcomes).Failure? <==> exists k :: 0 <= k < |outcomes| && outcomes[k].Reject?
    ensures Collect(outcomes).Failure? ==> exists k ::
      && 0 <= k < |outcomes| && outcomes[k].Reject?
      && (forall j :: 0 <= j < k ==> !outcomes[j].Reject?)
      && Collect(outcomes).error == BadSpecLine(outcomes[k].line)
  {
    if outcomes != [] {
      var n := |outcomes| - 1;
      var prefix := outcomes[..n];
      ParseFailsAtFirstRejected(prefix);
      assert forall j :: 0 <= j < n ==> prefix[j] == outcomes[j];
      assert Collect(outcomes) == AddLine(Collect(prefix), outcomes[n]);
      if Collect(prefix).Failure? {
        var k :| 0 <= k < n && prefix[k].Reject?
          && (forall j :: 0 <= j < k ==> !prefix[j].Reject?)
          && Collect(prefix).error == BadSpecLine(prefix[k].line);
        assert outcomes[k].Reject?;
      } else if outcomes[n].Reject? {
        assert forall j :: 0 <= j < n ==> !outcomes[j].Reject?;
      }
    }
  }

  // ---------------------------------------------------------------------
  // The manifest

  /** One entry of `codelists.json`, keyed there by the file name. */
  datatype Entry = Entry(id: string, url: string, downloadedAt: string, sha: Digest)

  type Manifest = map<string, Entry>

  /** The manifest file as `update` and `check` find it: absent, not
      valid JSON, or a manifest. */
  datatype ManifestFile = Absent | Unreadable | Present(files: Manifest) {
    /** The entries of a readable manifest; none when there is no file. */
    function Entries(): Option<Manifest>
      requires !Unreadable?
    {
      if Present? then Some(files) else None
    }
  }

  /** `preserve_download_dates` as a function: `fetched` with each download
      time taken from `previous` when the same file was there with the same
      digest; no-op when there is no old manifest. */
  function Reconciled(fetched: Manifest, previous: Option<Manifest>): (m: Manifest)
    ensures m.Keys == fetched.Keys
    ensures forall k :: k in m ==>
      && m[k].id == fetched[k].id && m[k].url == fetched[k].url && m[k].sha == fetched[k].sha
      && m[k].downloadedAt == (if previous.Some? && k in previous.value && previous.value[k].sha == fetched[k].sha
                               then previous.value[k].downloadedAt else fetched[k].downloadedAt)
  {
    if previous.None? then fetched
    else
      map k | k in fetched ::
        if k in previous.value && previous.value[k].sha == fetched[k].sha
        then fetched[k].(downloadedAt := previous.value[k].downloadedAt)
        else fetched[k]
  }

  /** `preserve_download_dates`: walks the new manifest and copies the old
      download time into every entry whose file is unchanged. */
  method PreserveDownloadDates(fetched: Manifest, previous: Option<Manifest>) returns (m: Manifest)
    ensures m == Reconciled(fetched, previous)
  {
    m := fetched;
    if previous.None? {
      return;
    }
    var oldFiles := previous.value;
    var todo := fetched.Keys;
    while todo != {}
      invariant todo <= fetched.Keys && m.Keys == fetched.Keys
      invariant forall k :: k in todo ==> m[k] == fetched[k]
      invariant forall k :: k in fetched && k !in todo ==> m[k] == Reconciled(fetched, previous)[k]
      decreases todo
    {
      var filename :| filename in todo;
      var details := m[filename];
      if filename in oldFiles && oldFiles[filename].sha == details.sha {
        m := m[filename := details.(downloadedAt := oldFiles[filename].downloadedAt)];
      }
      todo := todo - {filename};
    }
  }

  /** `format_diff`, one line per element of the symmetric difference;
      the order of the lines (Python's set order) is not modelled. */
  function FormatDiff(a: set<string>, b: set<string>): (d: set<DiffLine>)
    ensures forall e :: Added(e) in d <==> e in a && e !in b
    ensures forall e :: Removed(e) in d <==> e in b && e !in a
    ensures d == {} <==> a == b
  {
    set e | e in (a - b) + (b - a) :: if e in a then Added(e) else Removed(e)
  }

  // ---------------------------------------------------------------------
  // The codelists folder

  /** A snapshot of everything `update` and `check` look at in the
      codelists folder. */
  datatype FolderState = FolderState(
    kind: PathKind,                // does `codelists/` exist, as a folder?
    specText: Option<string>,      // `codelists.txt`
    manifestFile: ManifestFile,    // `codelists.json`
    csvFiles: map<string, Bytes>)  // the `*.csv` files, by name

  /** The codelists folder on disk, which `update` changes in place. */
  class Folder {
    var kind: PathKind
    var specText: Option<string>
    var manifestFile: ManifestFile
    var csvFiles: map<string, Bytes>

    constructor (s: FolderState)
      ensures State() == s
    {
      kind, specText, manifestFile, csvFiles := s.kind, s.specText, s.manifestFile, s.csvFiles;
    }

    function State(): FolderState
      reads this
    {
      FolderState(kind, specText, manifestFile, csvFiles)
    }
  }

  // ---------------------------------------------------------------------
  // update

  /** Every codelist of `cls` downloads. */
  ghost predicate AllFetched(cls: seq<Codelist>, fetch: string -> Option<Bytes>) {
    forall k :: 0 <= k < |cls| ==> fetch(cls[k].downloadUrl).Some?
  }

  /** The position of the first codelist that fails to download, or
      `|cls|` when they all download. */
  function FirstFailure(cls: seq<Codelist>, fetch: string -> Option<Bytes>): (n: nat)
    ensures n <= |cls| && AllFetched(cls[..n], fetch)
    ensures n < |cls| ==> fetch(cls[n].downloadUrl).None?
  {
    if cls == [] || fetch(cls[0].downloadUrl).None? then 0
    else
      var n := 1 + FirstFailure(cls[1..], fetch);
      assert forall k :: 1 <= k < n ==> cls[..n][k] == cls[1..][..n - 1][k - 1];
      n
  }

  lemma {:induction false} FirstFailureIs(cls: seq<Codelist>, fetch: string -> Option<Bytes>, n: nat)
    requires n <= |cls| && AllFetched(cls[..n], fetch)
    requires n < |cls| ==> fetch(cls[n].downloadUrl).None?
    ensures FirstFailure(cls, fetch) == n
  {
    if cls != [] && fetch(cls[0].downloadUrl).Some? {
      assert n > 0;
      assert cls[1..][..n - 1] == cls[..n][1..];
      FirstFailureIs(cls[1..], fetch, n - 1);
    } else if cls != [] {
      FetchedHead(cls, fetch, n);
    }
  }

  lemma FetchedHead(cls: seq<Codelist>, fetch: string -> Option<Bytes>, n: nat)
    requires n <= |cls| && AllFetched(cls[..n], fetch)
    ensures n > 0 ==> fetch(cls[0].downloadUrl).Some?
  {
    if n > 0 {
      assert cls[..n][0] == cls[0];
    }
  }

  /** The names of the files the codelists download to. */
  function Filenames(cls: seq<Codelist>): set<string> {
    set c | c in cls :: c.filename
  }

  /** The position of the last codelist that downloads to `name`. */
  function LastWith(cls: seq<Codelist>, name: string): (j: nat)
    requires name in Filenames(cls)
    ensures j < |cls| && cls[j].filename == name
    ensures forall k :: j < k < |cls| ==> cls[k].filename != name
  {
    var n := |cls| - 1;
    if cls[n].filename == name then n
    else
      assert name in Filenames(cls[..n]) by {
        var c :| c in cls && c.filename == name;
        var k :| 0 <= k < |cls| && cls[k] == c;
        assert cls[..n][k] == c;
      }
      LastWith(cls[..n], name)
  }

  /** The files `update` writes, downloading `cls` in order: a later
      codelist with the same file name overwrites an earlier one. */
  function Downloads(cls: seq<Codelist>, fetch: string -> Option<Bytes>): (files: map<string, Bytes>)
    requires AllFetched(cls, fetch)
    ensures files.Keys == Filenames(cls)
    ensures forall name :: name in files ==> files[name] == fetch(cls[LastWith(cls, name)].downloadUrl).value
  {
    if cls == [] then map[]
    else
      var n := |cls| - 1;
      var prev := Downloads(cls[..n], fetch);
      var files := prev[cls[n].filename := fetch(cls[n].downloadUrl).value];
      DownloadsSnoc(cls, fetch, prev, files);
      files
  }

  lemma DownloadsSnoc(cls: seq<Codelist>, fetch: string -> Option<Bytes>, prev: map<string, Bytes>, files: map<string, Bytes>)
    requires cls != [] && AllFetched(cls, fetch)
    requires var p := cls[..|cls| - 1];
      && prev.Keys == Filenames(p)
      && forall name :: name in prev ==> prev[name] == fetch(p[LastWith(p, name)].downloadUrl).value
    requires var n := |cls| - 1; files == prev[cls[n].filename := fetch(cls[n].downloadUrl).value]
    ensures files.Keys == Filenames(cls)
    ensures forall name :: name in files ==> files[name] == fetch(cls[LastWith(cls, name)].downloadUrl).value
  {
    var n := |cls| - 1;
    FilenamesSnoc(cls);
    forall name | name in files
      ensures files[name] == fetch(cls[LastWith(cls, name)].downloadUrl).value
    {
      if name != cls[n].filename {
        LastWithPrefix(cls, name);
        var j := LastWith(cls, name);
        assert cls[..n][j] == cls[j];
        assert files[name] == prev[name];
      }
    }
  }

  /** The file names of `cls` are those of all but its last codelist and
      the last one's. */
  lemma FilenamesSnoc(cls: seq<Codelist>)
    requires cls != []
    ensures Filenames(cls) == Filenames(cls[..|cls| - 1]) + {cls[|cls| - 1].filename}
  {
    assert cls == cls[..|cls| - 1] + [cls[|cls| - 1]];
  }

  /** A file the last codelist does not download to was last downloaded
      by the same codelist before it. */
  lemma LastWithPrefix(cls: seq<Codelist>, name: string)
    requires cls != [] && name in Filenames(cls[..|cls| - 1]) && name != cls[|cls| - 1].filename
    ensures name in Filenames(cls) && LastWith(cls, name) == LastWith(cls[..|cls| - 1], name)
  {
    FilenamesSnoc(cls);
  }

  /** The manifest entry `update` records for a codelist it downloaded. */
  function NewEntry(c: Codelist, content: Bytes, downloadedAt: string, sha1: Bytes -> Digest): Entry {
    Entry(c.id, c.url, downloadedAt, HashBytes(sha1, content))
  }

  /** The manifest `update` builds while downloading, before the download
      times are reconciled: one entry per file, from the last codelist
      that downloads to it; the `j`-th download happens at `now(j)`. */
  function FetchedManifest(cls: seq<Codelist>, fetch: string -> Option<Bytes>, now: nat -> string, sha1: Bytes -> Digest): (m: Manifest)
    requires AllFetched(cls, fetch)
    ensures m.Keys == Filenames(cls)
    ensures forall name :: name in m ==>
      var j := LastWith(cls, name);
      m[name] == NewEntry(cls[j], fetch(cls[j].downloadUrl).value, now(j), sha1)
  {
    if cls == [] then map[]
    else
      var n := |cls| - 1;
      var prev := FetchedManifest(cls[..n], fetch, now, sha1);
      var m := prev[cls[n].filename := NewEntry(cls[n], fetch(cls[n].downloadUrl).value, now(n), sha1)];
      FetchedManifestSnoc(cls, fetch, now, sha1, prev, m);
      m
  }

  lemma FetchedManifestSnoc(cls: seq<Codelist>, fetch: string -> Option<Bytes>, now: nat -> string, sha1: Bytes -> Digest, prev: Manifest, m: Manifest)
    requires cls != [] && AllFetched(cls, fetch)
    requires var p := cls[..|cls| - 1];
      && prev.Keys == Filenames(p)
      && forall name :: name in prev ==>
           var j := LastWith(p, name);
           prev[name] == NewEntry(p[j], fetch(p[j].downloadUrl).value, now(j), sha1)
    requires var n := |cls| - 1;
      m == prev[cls[n].filename := NewEntry(cls[n], fetch(cls[n].downloadUrl).value, now(n), sha1)]
    ensures m.Keys == Filenames(cls)
    ensures forall name :: name in m ==>
      var j := LastWith(cls, name);
      m[name] == NewEntry(cls[j], fetch(cls[j].downloadUrl).value, now(j), sha1)
  {
    var n := |cls| - 1;
    FilenamesSnoc(cls);
    forall name | name in m
      ensures var j := LastWith(cls, name);
        m[name] == NewEntry(cls[j], fetch(cls[j].downloadUrl).value, now(j), sha1)
    {
      if name != cls[n].filename {
        LastWithPrefix(cls, name);
        var j := LastWith(cls, name);
        assert cls[..n][j] == cls[j];
        assert m[name] == prev[name];
      }
    }
  }

  /** One more download extends the files written, the names and the
      manifest by that download. */
  lemma DownloadStep(before: map<string, Bytes>, cls: seq<Codelist>, i: nat, fetch: string -> Option<Bytes>)
    requires i < |cls| && AllFetched(cls[..i + 1], fetch)
    ensures AllFetched(cls[..i], fetch)
    ensures before + Downloads(cls[..i + 1], fetch)
         == (before + Downloads(cls[..i], fetch))[cls[i].filename := fetch(cls[i].downloadUrl).value]
    ensures Filenames(cls[..i + 1]) == Filenames(cls[..i]) + {cls[i].filename}
  {
    assert cls[..i + 1][..i] == cls[..i];
  }

  lemma ManifestStep(cls: seq<Codelist>, i: nat, fetch: string -> Option<Bytes>, now: nat -> string, sha1: Bytes -> Digest)
    requires i < |cls| && AllFetched(cls[..i + 1], fetch)
    ensures AllFetched(cls[..i], fetch)
    ensures FetchedManifest(cls[..i + 1], fetch, now, sha1)
         == FetchedManifest(cls[..i], fetch, now, sha1)[cls[i].filename := NewEntry(cls[i], fetch(cls[i].downloadUrl).value, now(i), sha1)]
  {
    assert cls[..i + 1][..i] == cls[..i];
  }

  /** The result of a command together with the folder it leaves. */
  datatype Outcome = Outcome(result: Result<(), Error>, folder: FolderState)

  /** `update`, as a function of the folder before it runs: parse the
      specification, then go on as `UpdateWith`. */
  function UpdateSpec(st: FolderState, fetch: string -> Option<Bytes>, now: nat -> string, sha1: Bytes -> Digest): (o: Outcome)
    ensures o.folder.kind == st.kind && o.folder.specText == st.specText
    ensures o.result.Success? ==> o.folder.manifestFile.Present? && o.folder.csvFiles.Keys == o.folder.manifestFile.files.Keys
    ensures o.result.Failure? ==> o.folder.manifestFile == st.manifestFile && st.csvFiles.Keys <= o.folder.csvFiles.Keys
  {
    match ReadSpec(st.kind, st.specText)
    case Failure(e) => Outcome(Failure(e), st)
    case Success(cls) => UpdateWith(st, cls, fetch, now, sha1)
  }

  /** `update` once the codelists are parsed: download every codelist in
      order, writing each file as it arrives and stopping at the first
      failure (files already written stay, the manifest is not touched);
      then write the reconciled manifest and delete the `.csv` files that
      were there before and were not downloaded this time. */
  function UpdateWith(st: FolderState, cls: seq<Codelist>, fetch: string -> Option<Bytes>, now: nat -> string, sha1: Bytes -> Digest): (o: Outcome)
    ensures o.folder.kind == st.kind && o.folder.specText == st.specText
    ensures o.result.Success? <==> FirstFailure(cls, fetch) == |cls| && !st.manifestFile.Unreadable?
    ensures o.result.Success? ==>
      && AllFetched(cls, fetch)
      && o.folder == st.(manifestFile := Present(Reconciled(FetchedManifest(cls, fetch, now, sha1), st.manifestFile.Entries())),
                         csvFiles := Downloads(cls, fetch))
      && o.folder.csvFiles.Keys == o.folder.manifestFile.files.Keys == Filenames(cls)
    ensures o.result.Failure? ==> o.folder.manifestFile == st.manifestFile && st.csvFiles.Keys <= o.folder.csvFiles.Keys
  {
    var n := FirstFailure(cls, fetch);
    var written := st.csvFiles + Downloads(cls[..n], fetch);
    if n < |cls| then
      Outcome(Failure(DownloadFailed(cls[n].id, cls[n].url)), st.(csvFiles := written))
    else if st.manifestFile.Unreadable? then
      Outcome(Failure(InvalidManifest), st.(csvFiles := written))
    else
      assert cls[..n] == cls;
      MergeThenPrune(st.csvFiles, Downloads(cls, fetch), Filenames(cls));
      var manifest := Reconciled(FetchedManifest(cls, fetch, now, sha1), st.manifestFile.Entries());
      Outcome(Success(()), st.(manifestFile := Present(manifest),
                               csvFiles := written - (st.csvFiles.Keys - Filenames(cls))))
  }

  /** Writing the files of `d` over `before` and then deleting the files
      of `before` that `d` does not have leaves exactly `d`. */
  lemma MergeThenPrune(before: map<string, Bytes>, d: map<string, Bytes>, names: set<string>)
    requires d.Keys == names
    ensures (before + d) - (before.Keys - names) == d
  {
  }

  /** `update`: downloads through `fetch`, takes the time of the `j`-th
      download from `now(j)` and the SHA-1 of the normalised content from
      `sha1`. */
  method Update(folder: Folder, fetch: string -> Option<Bytes>, now: nat -> string, sha1: Bytes -> Digest)
    returns (r: Result<(), Error>)
    modifies folder
    ensures Outcome(r, folder.State()) == UpdateSpec(old(folder.State()), fetch, now, sha1)
  {
    var parsed := ParseCodelistFile(folder.kind, folder.specText);
    if parsed.Failure? {
      return Failure(parsed.error);
    }
    r := UpdateCodelists(folder, parsed.value, fetch, now, sha1);
  }

  /** The part of `update` after parsing. */
  method UpdateCodelists(folder: Folder, codelists: seq<Codelist>, fetch: string -> Option<Bytes>, now: nat -> string, sha1: Bytes -> Digest)
    returns (r: Result<(), Error>)
    modifies folder
    ensures Outcome(r, folder.State()) == UpdateWith(old(folder.State()), codelists, fetch, now, sha1)
  {
    var oldFiles := folder.csvFiles.Keys;
    var n, manifest, newFiles := DownloadAll(folder, codelists, fetch, now, sha1);
    if n < |codelists| {
      return Failure(DownloadFailed(codelists[n].id, codelists[n].url));
    }
    assert codelists[..n] == codelists;
    var previous: Option<Manifest>;
    match folder.manifestFile {
      case Unreadable => return Failure(InvalidManifest);
      case Absent => previous := None;
      case Present(files) => previous := Some(files);
    }
    assert previous == old(folder.manifestFile).Entries();
    manifest := PreserveDownloadDates(manifest, previous);
    folder.manifestFile := Present(manifest);
    RemoveFiles(folder, oldFiles - newFiles);
    MergeThenPrune(old(folder.csvFiles), Downloads(codelists, fetch), newFiles);
    r := Success(());
  }

  /** The download loop of `update`: stops at the first codelist that
      fails to download, and returns its position, or `|codelists|`. */
  method DownloadAll(folder: Folder, codelists: seq<Codelist>, fetch: string -> Option<Bytes>, now: nat -> string, sha1: Bytes -> Digest)
    returns (n: nat, manifest: Manifest, newFiles: set<string>)
    modifies folder
    ensures n == FirstFailure(codelists, fetch)
    ensures folder.State() == old(folder.State()).(csvFiles := old(folder.csvFiles) + Downloads(codelists[..n], fetch))
    ensures n == |codelists| ==> manifest == FetchedManifest(codelists[..n], fetch, now, sha1)
    ensures n == |codelists| ==> newFiles == Filenames(codelists)
  {
    newFiles := {};
    manifest := map[];
    n := 0;
    while n < |codelists|
      invariant 0 <= n <= |codelists| && AllFetched(codelists[..n], fetch)
      invariant folder.State() == old(folder.State()).(csvFiles := old(folder.csvFiles) + Downloads(codelists[..n], fetch))
      invariant newFiles == Filenames(codelists[..n])
      invariant manifest == FetchedManifest(codelists[..n], fetch, now, sha1)
    {
      var codelist := codelists[n];
      var response := fetch(codelist.downloadUrl);
      if response.None? {
        FirstFailureIs(codelists, fetch, n);
        return;
      }
      DownloadStep(old(folder.csvFiles), codelists, n, fetch);
      ManifestStep(codelists, n, fetch, now, sha1);
      folder.csvFiles := folder.csvFiles[codelist.filename := response.value];
      newFiles := newFiles + {codelist.filename};
      manifest := manifest[codelist.filename := NewEntry(codelist, response.value, now(n), sha1)];
      n := n + 1;
    }
    FirstFailureIs(codelists, fetch, n);
    assert codelists[..n] == codelists;
  }

  /** Deletes the named files from the folder. */
  method RemoveFiles(folder: Folder, files: set<string>)
    modifies folder
    ensures folder.State() == old(folder.State()).(csvFiles := old(folder.csvFiles) - files)
  {
    var todo := files;
    while todo != {}
      invariant todo <= files
      invariant folder.State() == old(folder.State()).(csvFiles := old(folder.csvFiles) - (files - todo))
      decreases todo
    {
      var file :| file in todo;
      folder.csvFiles := folder.csvFiles - {file};
      todo := todo - {file};
    }
  }

  // ---------------------------------------------------------------------
  // check

  /** The manifest `make_temporary_manifest` builds: that of an `update`
      run in an empty folder holding only a copy of `codelists.txt`. */
  function TemporaryManifest(specText: Option<string>, fetch: string -> Option<Bytes>, now: nat -> string, sha1: Bytes -> Digest): (r: Result<Manifest, Error>)
    ensures var parsed := ReadSpec(IsFolder, specText);
      && (r.Success? <==> parsed.Success? && AllFetched(parsed.value, fetch))
      && (r.Success? ==> AllFetched(parsed.value, fetch) && r.value == FetchedManifest(parsed.value, fetch, now, sha1))
  {
    var o := UpdateSpec(FolderState(IsFolder, specText, Absent, map[]), fetch, now, sha1);
    var parsed := ReadSpec(IsFolder, specText);
    if o.result.Failure? then Failure(o.result.error)
    else
      FreshReconciled(FetchedManifest(parsed.value, fetch, now, sha1));
      Success(o.folder.manifestFile.files)
  }

  /** With no old manifest, reconciling keeps every fresh download time. */
  lemma FreshReconciled(fetched: Manifest)
    ensures Reconciled(fetched, None) == fetched
  {
  }

  /** The manifest `check` compares the folder with: `codelists.json`, or,
      when it is absent and the `GITHUB_WORKFLOW` variable is set
      (`workflow`), a temporary one. */
  function ManifestInUse(manifestFile: ManifestFile, specText: Option<string>, workflow: bool, fetch: string -> Option<Bytes>, now: nat -> string, sha1: Bytes -> Digest): Result<Manifest, Error> {
    match manifestFile
    case Present(m) => Success(m)
    case Unreadable => Failure(InvalidManifest)
    case Absent => if workflow then TemporaryManifest(specText, fetch, now, sha1) else Failure(NoManifest)
  }

  /** The ids of a list of codelists. */
  function Ids(cls: seq<Codelist>): set<string> {
    set c | c in cls :: c.id
  }

  /** The ids a manifest records. */
  function ManifestIds(m: Manifest): set<string> {
    set k | k in m :: m[k].id
  }

  /** The files of the manifest whose content on disk no longer hashes to
      the recorded digest. */
  function Modified(m: Manifest, csvFiles: map<string, Bytes>, sha1: Bytes -> Digest): set<string> {
    set k | k in m && k in csvFiles && HashBytes(sha1, csvFiles[k]) != m[k].sha
  }

  /** `check`, as a function of the folder: nothing to check without a
      codelists folder; otherwise parse the specification, find the
      manifest, and compare. */
  function CheckSpec(st: FolderState, workflow: bool, fetch: string -> Option<Bytes>, now: nat -> string, sha1: Bytes -> Digest): Result<(), Error> {
    if st.kind == Missing then Success(())
    else match ReadSpec(st.kind, st.specText)
      case Failure(e) => Failure(e)
      case Success(cls) =>
        match ManifestInUse(st.manifestFile, st.specText, workflow, fetch, now, sha1)
        case Failure(e) => Failure(e)
        case Success(m) => Compare(cls, m, st.csvFiles, sha1)
  }

  /** The three comparisons of `check`, reporting the first mismatch: the
      ids of the specification against those of the manifest, the names
      of the `.csv` files against its file names, and their digests
      against the recorded ones. */
  function Compare(cls: seq<Codelist>, m: Manifest, csvFiles: map<string, Bytes>, sha1: Bytes -> Digest): Result<(), Error> {
    if Ids(cls) != ManifestIds(m) then Failure(SpecEdited(FormatDiff(Ids(cls), ManifestIds(m))))
    else if csvFiles.Keys != m.Keys then Failure(CsvFilesChanged(FormatDiff(csvFiles.Keys, m.Keys)))
    else if Modified(m, csvFiles, sha1) != {} then Failure(CsvFilesModified(Modified(m, csvFiles, sha1)))
    else Success(())
  }

  /** `check`; under `GITHUB_WORKFLOW` without a manifest, it runs
      `update` in a scratch folder, downloading through `fetch`. */
  method Check(folder: Folder, workflow: bool, fetch: string -> Option<Bytes>, now: nat -> string, sha1: Bytes -> Digest)
    returns (r: Result<(), Error>)
    ensures r == CheckSpec(folder.State(), workflow, fetch, now, sha1)
  {
    if folder.kind == Missing {
      return Success(());
    }
    var parsed := ParseCodelistFile(folder.kind, folder.specText);
    if parsed.Failure? {
      return Failure(parsed.error);
    }
    var manifest := LoadManifest(folder, workflow, fetch, now, sha1);
    if manifest.Failure? {
      return Failure(manifest.error);
    }
    r := CompareFolder(parsed.value, manifest.value, folder.csvFiles, sha1);
  }

  /** The manifest-finding part of `check`. */
  method LoadManifest(folder: Folder, workflow: bool, fetch: string -> Option<Bytes>, now: nat -> string, sha1: Bytes -> Digest)
    returns (r: Result<Manifest, Error>)
    ensures r == ManifestInUse(folder.manifestFile, folder.specText, workflow, fetch, now, sha1)
  {
    match folder.manifestFile {
      case Absent =>
        if !workflow {
          return Failure(NoManifest);
        }
        var scratch := new Folder(FolderState(IsFolder, folder.specText, Absent, map[]));
        var made := Update(scratch, fetch, now, sha1);
        if made.Failure? {
          return Failure(made.error);
        }
        r := Success(scratch.manifestFile.files);
      case Unreadable =>
        r := Failure(InvalidManifest);
      case Present(files) =>
        r := Success(files);
    }
  }

  /** The comparing part of `check`. */
  method CompareFolder(codelists: seq<Codelist>, manifest: Manifest, csvFiles: map<string, Bytes>, sha1: Bytes -> Digest)
    returns (r: Result<(), Error>)
    ensures r == Compare(codelists, manifest, csvFiles, sha1)
  {
    var allIds := set c | c in codelists :: c.id;
    var idsInManifest := set k | k in manifest :: manifest[k].id;
    if allIds != idsInManifest {
      return Failure(SpecEdited(FormatDiff(allIds, idsInManifest)));
    }
    var allCsvs := csvFiles.Keys;
    if allCsvs != manifest.Keys {
      return Failure(CsvFilesChanged(FormatDiff(allCsvs, manifest.Keys)));
    }
    var modified: set<string> := {};
    var todo := manifest.Keys;
    while todo != {}
      invariant todo <= manifest.Keys
      invariant modified == set k | k in manifest && k !in todo && k in csvFiles && HashBytes(sha1, csvFiles[k]) != manifest[k].sha
      decreases todo
    {
      var filename :| filename in todo;
      var sha := HashBytes(sha1, csvFiles[filename]);
      if sha != manifest[filename].sha {
        modified := modified + {filename};
      }
      todo := todo - {filename};
    }
    assert modified == Modified(manifest, csvFiles, sha1);
    if modified != {} {
      return Failure(CsvFilesModified(modified));
    }
    r := Success(());
  }
}
