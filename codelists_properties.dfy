/** Properties that relate `update` and `check` to each other. */
module CodelistsProperties {
  import opened Wrappers
  import opened ContentHash
  import opened Codelists

  /** Codelists that download to the same file have the same id. */
  ghost predicate FilenamesDetermineIds(cls: seq<Codelist>) {
    forall i, j :: 0 <= i < |cls| && 0 <= j < |cls| && cls[i].filename == cls[j].filename ==> cls[i].id == cls[j].id
  }

  lemma SameFileSameId(cls: seq<Codelist>, i: nat, j: nat)
    requires FilenamesDetermineIds(cls) && i < |cls| && j < |cls| && cls[i].filename == cls[j].filename
    ensures cls[i].id == cls[j].id
  {
  }

  /** The manifest a successful `update` of the codelists `cls` writes:
      one entry per file, recording the id, address and digest of the last
      codelist downloaded to it. */
  lemma UpdateWritesManifest(st: FolderState, cls: seq<Codelist>, fetch: string -> Option<Bytes>, now: nat -> string, sha1: Bytes -> Digest)
    requires UpdateWith(st, cls, fetch, now, sha1).result.Success?
    ensures AllFetched(cls, fetch)
    ensures var m := UpdateWith(st, cls, fetch, now, sha1).folder.manifestFile;
      && m.Present?
      && m.files.Keys == Filenames(cls)
      && forall k :: k in m.files ==>
           var j := LastWith(cls, k);
           m.files[k].id == cls[j].id && m.files[k].url == cls[j].url && m.files[k].sha == HashBytes(sha1, fetch(cls[j].downloadUrl).value)
  {
    FreshManifest(cls, fetch, now, sha1, st.manifestFile.Entries());
  }

  /** The reconciled manifest of the downloads of `cls`, whatever the old
      manifest: one entry per file, with the id, address and digest of the
      last codelist downloaded to it. */
  lemma FreshManifest(cls: seq<Codelist>, fetch: string -> Option<Bytes>, now: nat -> string, sha1: Bytes -> Digest, previous: Option<Manifest>)
    requires AllFetched(cls, fetch)
    ensures var m := Reconciled(FetchedManifest(cls, fetch, now, sha1), previous);
      && m.Keys == Filenames(cls)
      && forall k :: k in m ==>
           var j := LastWith(cls, k);
           m[k].id == cls[j].id && m[k].url == cls[j].url && m[k].sha == HashBytes(sha1, fetch(cls[j].downloadUrl).value)
  {
    var fetched := FetchedManifest(cls, fetch, now, sha1);
    var m := Reconciled(fetched, previous);
    forall k | k in m
      ensures var j := LastWith(cls, k);
        m[k].id == cls[j].id && m[k].url == cls[j].url && m[k].sha == HashBytes(sha1, fetch(cls[j].downloadUrl).value)
    {
      assert m[k].id == fetched[k].id && m[k].url == fetched[k].url && m[k].sha == fetched[k].sha;
    }
  }

  /** The comparisons of `check` all pass on what `update` of `cls`
      leaves, provided no two codelists of `cls` download to the same
      file with different ids (see `SharedFilenameLosesId`). */
  lemma CompareAfterUpdate(st: FolderState, cls: seq<Codelist>, fetch: string -> Option<Bytes>, now: nat -> string, sha1: Bytes -> Digest)
    requires UpdateWith(st, cls, fetch, now, sha1).result.Success?
    requires FilenamesDetermineIds(cls)
    ensures var after := UpdateWith(st, cls, fetch, now, sha1).folder;
      Compare(cls, after.manifestFile.files, after.csvFiles, sha1) == Success(())
  {
    CompareFresh(cls, fetch, now, sha1, st.manifestFile.Entries());
  }

  /** The comparisons of `check` pass on the downloads of `cls` and their
      reconciled manifest. */
  lemma CompareFresh(cls: seq<Codelist>, fetch: string -> Option<Bytes>, now: nat -> string, sha1: Bytes -> Digest, previous: Option<Manifest>)
    requires AllFetched(cls, fetch) && FilenamesDetermineIds(cls)
    ensures Compare(cls, Reconciled(FetchedManifest(cls, fetch, now, sha1), previous), Downloads(cls, fetch), sha1) == Success(())
  {
    FreshManifest(cls, fetch, now, sha1, previous);
    var m := Reconciled(FetchedManifest(cls, fetch, now, sha1), previous);
    var files := Downloads(cls, fetch);
    FreshIds(cls, m);
    assert Modified(m, files, sha1) == {};
  }

  /** A manifest with one entry per file of `cls`, each recording the id
      of the last codelist downloaded to it, records exactly the ids of
      `cls` when files determine ids. */
  lemma FreshIds(cls: seq<Codelist>, m: Manifest)
    requires FilenamesDetermineIds(cls) && m.Keys == Filenames(cls)
    requires forall k :: k in m ==> m[k].id == cls[LastWith(cls, k)].id
    ensures Ids(cls) == ManifestIds(m)
  {
    forall id | id in Ids(cls) ensures id in ManifestIds(m) {
      var i :| 0 <= i < |cls| && cls[i].id == id;
      var k := cls[i].filename;
      assert cls[i] in cls;
      assert k in m;
      var j := LastWith(cls, k);
      SameFileSameId(cls, i, j);
      assert m[k].id == id;
      assert m[k].id in ManifestIds(m);
    }
    forall id | id in ManifestIds(m) ensures id in Ids(cls) {
      var k :| k in m && m[k].id == id;
      var j := LastWith(cls, k);
      assert cls[j] in cls && cls[j].id == id;
    }
  }

  /** Once `update` has succeeded, `check` passes (whatever the
      environment it runs in), provided no two codelists of the
      specification download to the same file with different ids. */
  lemma CheckAfterUpdate(st: FolderState, fetch: string -> Option<Bytes>, now: nat -> string, sha1: Bytes -> Digest,
                         workflow: bool, fetch': string -> Option<Bytes>, now': nat -> string)
    requires UpdateSpec(st, fetch, now, sha1).result.Success?
    requires ReadSpec(st.kind, st.specText).Success? ==> FilenamesDetermineIds(ReadSpec(st.kind, st.specText).value)
    ensures CheckSpec(UpdateSpec(st, fetch, now, sha1).folder, workflow, fetch', now', sha1) == Success(())
  {
    var parsed := ReadSpec(st.kind, st.specText);
    assert parsed.Success?;
    var cls := parsed.value;
    assert UpdateSpec(st, fetch, now, sha1) == UpdateWith(st, cls, fetch, now, sha1);
    CompareAfterUpdate(st, cls, fetch, now, sha1);
    var after := UpdateWith(st, cls, fetch, now, sha1).folder;
    assert after.kind == st.kind && after.specText == st.specText;
    assert after.manifestFile.Present?;
  }

  /** Two manifests that differ at most in their download times. */
  ghost predicate SameButTimes(m1: Manifest, m2: Manifest) {
    && m1.Keys == m2.Keys
    && forall k :: k in m1 ==> m1[k].(downloadedAt := m2[k].downloadedAt) == m2[k]
  }

  /** The manifests built from the same downloads at different times
      differ only in their download times. */
  lemma FetchedManifestTimes(cls: seq<Codelist>, fetch: string -> Option<Bytes>, now: nat -> string, now': nat -> string, sha1: Bytes -> Digest)
    requires AllFetched(cls, fetch)
    ensures SameButTimes(FetchedManifest(cls, fetch, now, sha1), FetchedManifest(cls, fetch, now', sha1))
  {
  }

  /** Reconciling a second time against the result of a first
      reconciliation, with the same content, gives back that result:
      `preserve_download_dates` is what makes `update` idempotent. */
  lemma ReconcileAgain(f1: Manifest, f2: Manifest, previous: Option<Manifest>)
    requires SameButTimes(f1, f2)
    ensures Reconciled(f2, Some(Reconciled(f1, previous))) == Reconciled(f1, previous)
  {
    var m1 := Reconciled(f1, previous);
    var m2 := Reconciled(f2, Some(m1));
    forall k | k in m2 ensures m2[k] == m1[k] {
      assert m1[k].sha == f1[k].sha == f2[k].sha;
    }
  }

  /** A second `update` of the same codelists, with the same downloads
      and at any later time, changes nothing: the download times of the
      unchanged files are kept. */
  lemma UpdateWithIdempotent(st: FolderState, cls: seq<Codelist>, fetch: string -> Option<Bytes>, now: nat -> string, now': nat -> string, sha1: Bytes -> Digest)
    requires UpdateWith(st, cls, fetch, now, sha1).result.Success?
    ensures var after := UpdateWith(st, cls, fetch, now, sha1).folder;
      UpdateWith(after, cls, fetch, now', sha1) == Outcome(Success(()), after)
  {
    var after := UpdateWith(st, cls, fetch, now, sha1).folder;
    var n := FirstFailure(cls, fetch);
    assert cls[..n] == cls;
    var d := Downloads(cls, fetch);
    MergeThenPrune(d, d, Filenames(cls));
    var previous := st.manifestFile.Entries();
    FetchedManifestTimes(cls, fetch, now, now', sha1);
    ReconcileAgain(FetchedManifest(cls, fetch, now, sha1), FetchedManifest(cls, fetch, now', sha1), previous);
  }

  /** Running `update` twice, with the same downloads, leaves the folder
      as the first run left it, whatever the clock says. */
  lemma UpdateIdempotent(st: FolderState, fetch: string -> Option<Bytes>, now: nat -> string, now': nat -> string, sha1: Bytes -> Digest)
    requires UpdateSpec(st, fetch, now, sha1).result.Success?
    ensures var after := UpdateSpec(st, fetch, now, sha1).folder;
      UpdateSpec(after, fetch, now', sha1) == Outcome(Success(()), after)
  {
    var parsed := ReadSpec(st.kind, st.specText);
    assert parsed.Success?;
    var cls := parsed.value;
    assert UpdateSpec(st, fetch, now, sha1) == UpdateWith(st, cls, fetch, now, sha1);
    var after := UpdateWith(st, cls, fetch, now, sha1).folder;
    assert ReadSpec(after.kind, after.specText) == parsed;
    UpdateWithIdempotent(st, cls, fetch, now, now', sha1);
  }

  /** Editing one file so that its digest changes makes the comparisons
      of `check` report exactly that file. */
  lemma CompareReportsEditedFile(cls: seq<Codelist>, m: Manifest, csvFiles: map<string, Bytes>, sha1: Bytes -> Digest, name: string, content: Bytes)
    requires Compare(cls, m, csvFiles, sha1) == Success(())
    requires name in csvFiles && HashBytes(sha1, content) != HashBytes(sha1, csvFiles[name])
    ensures Compare(cls, m, csvFiles[name := content], sha1) == Failure(CsvFilesModified({name}))
  {
    var edited := csvFiles[name := content];
    assert Modified(m, csvFiles, sha1) == {};
    assert Modified(m, edited, sha1) == {name} by {
      assert name in m && name !in Modified(m, csvFiles, sha1);
      forall k | k in m && k in edited && k != name ensures HashBytes(sha1, edited[k]) == m[k].sha {
        assert k !in Modified(m, csvFiles, sha1);
      }
    }
  }

  /** A folder that passes `check` and then has one `.csv` file edited so
      that its digest changes fails `check`, naming exactly that file. */
  lemma CheckReportsEditedFile(st: FolderState, workflow: bool, fetch: string -> Option<Bytes>, now: nat -> string, sha1: Bytes -> Digest,
                               name: string, content: Bytes)
    requires st.kind != Missing && CheckSpec(st, workflow, fetch, now, sha1) == Success(())
    requires name in st.csvFiles && HashBytes(sha1, content) != HashBytes(sha1, st.csvFiles[name])
    ensures CheckSpec(st.(csvFiles := st.csvFiles[name := content]), workflow, fetch, now, sha1) == Failure(CsvFilesModified({name}))
  {
    var cls := ReadSpec(st.kind, st.specText).value;
    var m := ManifestInUse(st.manifestFile, st.specText, workflow, fetch, now, sha1).value;
    CompareReportsEditedFile(cls, m, st.csvFiles, sha1, name, content);
  }

  /** Changing only the line endings of a file keeps the comparisons of
      `check` passing. */
  lemma CompareIgnoresLineEndings(cls: seq<Codelist>, m: Manifest, csvFiles: map<string, Bytes>, sha1: Bytes -> Digest, name: string, content: Bytes)
    requires Compare(cls, m, csvFiles, sha1) == Success(())
    requires name in csvFiles && Normalise(content) == Normalise(csvFiles[name])
    ensures Compare(cls, m, csvFiles[name := content], sha1) == Success(())
  {
    var edited := csvFiles[name := content];
    assert Modified(m, csvFiles, sha1) == {};
    forall k | k in m && k in edited ensures HashBytes(sha1, edited[k]) == m[k].sha {
      assert k !in Modified(m, csvFiles, sha1);
    }
    assert Modified(m, edited, sha1) == {};
  }

  /** A folder that passes `check` still passes it after a `.csv` file has
      only had its line endings changed (as git on Windows may do). */
  lemma CheckIgnoresLineEndings(st: FolderState, workflow: bool, fetch: string -> Option<Bytes>, now: nat -> string, sha1: Bytes -> Digest,
                                name: string, content: Bytes)
    requires CheckSpec(st, workflow, fetch, now, sha1) == Success(())
    requires name in st.csvFiles && Normalise(content) == Normalise(st.csvFiles[name])
    ensures CheckSpec(st.(csvFiles := st.csvFiles[name := content]), workflow, fetch, now, sha1) == Success(())
  {
    if st.kind != Missing {
      var cls := ReadSpec(st.kind, st.specText).value;
      var m := ManifestInUse(st.manifestFile, st.specText, workflow, fetch, now, sha1).value;
      CompareIgnoresLineEndings(cls, m, st.csvFiles, sha1, name, content);
    }
  }

  /** Two codelists that download to the same file but have different
      ids (`a/b/v1` and `a/b/v2`, or `a-b/c/v` and `a/b-c/v`) leave only
      the later id in the manifest `update` writes, so the ids `check`
      compares differ. */
  lemma SharedFilenameLosesId(c1: Codelist, c2: Codelist, fetch: string -> Option<Bytes>, now: nat -> string, sha1: Bytes -> Digest)
    requires c1.filename == c2.filename && c1.id != c2.id
    requires fetch(c1.downloadUrl).Some? && fetch(c2.downloadUrl).Some?
    ensures AllFetched([c1, c2], fetch)
    ensures ManifestIds(FetchedManifest([c1, c2], fetch, now, sha1)) == {c2.id}
    ensures Ids([c1, c2]) == {c1.id, c2.id}
  {
    var m := FetchedManifest([c1, c2], fetch, now, sha1);
    assert m.Keys == {c2.filename};
    assert LastWith([c1, c2], c2.filename) == 1;
    assert c1 in [c1, c2] && c2 in [c1, c2];
  }
}
