/** The decisions the `pull` command takes about docker images: which
    images to pull, which images a project uses, which images are
    installed, which deprecated tags to remove and which images are out of
    date. Docker, the registry and the YAML parser are inputs. */
module Pull {
  import opened Wrappers
  import opened Text

  /** The registry of the current images (`config.DOCKER_REGISTRY`) and
      `IMAGES`, the images that may be pulled: `config.ALLOWED_IMAGES` after
      `IMAGES.sort()`. The sort is not modelled; every loop below goes over
      `images` in the order given, so callers pass it sorted. */
  datatype Config = Config(registry: string, images: seq<string>)

  /** Registries the images used to be published to. */
  const DeprecatedRegistries: seq<string> := ["docker.opensafely.org", "ghcr.io/opensafely"]

  /** The image that is never pulled, because it is not published. */
  const Unpublished: string := "databuilder"

  /** `f"{registry}/{image}"`. */
  function Tag(registry: string, image: string): string {
    registry + "/" + image
  }

  /** `FULL_IMAGES`: the tags of the allowed images in the current registry. */
  function FullImages(cfg: Config): set<string> {
    set i | i in cfg.images :: Tag(cfg.registry, i)
  }

  datatype PullError =
    | ProjectNotFound            // the project file does not exist
    | ProjectUnparsable          // the YAML parser rejected it
    | NoActions                  // no action of the project runs an allowed image
    | MalformedImageLine(line: string)  // `docker images` printed a line without `=`
    | DockerImagesFailed         // `docker images` itself failed
    | RegistryFailed(image: string)     // the registry did not give a digest

  // ---------------------------------------------------------------------
  // get_local_images

  /** A line that `line.strip()` reduces to nothing (see `Text.StripEmpty`). */
  predicate Blank(line: string) {
    forall i :: 0 <= i < |line| ==> IsSpace(line[i])
  }

  /** The lines that are not blank, in order. */
  function NonBlank(lines: seq<string>): (r: seq<string>)
    ensures forall x :: x in r <==> x in lines && !Blank(x)
  {
    if lines == [] then []
    else
      var n := |lines| - 1;
      NonBlank(lines[..n]) + (if Blank(lines[n]) then [] else [lines[n]])
  }

  /** The positions of the non-blank lines, in increasing order. */
  function NonBlankAt(lines: seq<string>): (ks: seq<nat>)
    ensures forall j :: 0 <= j < |ks| ==> ks[j] < |lines| && !Blank(lines[ks[j]])
    ensures forall i, j :: 0 <= i < j < |ks| ==> ks[i] < ks[j]
    ensures forall k :: 0 <= k < |lines| && !Blank(lines[k]) ==> k in ks
  {
    if lines == [] then []
    else
      var n := |lines| - 1;
      NonBlankAt(lines[..n]) + (if Blank(lines[n]) then [] else [n])
  }

  /** The j-th non-blank line is the line at the j-th non-blank position:
      filtering keeps the order and the repetitions of the lines. */
  lemma {:induction false} NonBlankInOrder(lines: seq<string>)
    ensures |NonBlank(lines)| == |NonBlankAt(lines)|
    ensures forall j :: 0 <= j < |NonBlankAt(lines)| ==> NonBlank(lines)[j] == lines[NonBlankAt(lines)[j]]
  {
    if lines != [] {
      var n := |lines| - 1;
      NonBlankInOrder(lines[..n]);
    }
  }

  /** Each line split at its first `=`, as `dict(l.split("=", 1) ...)`
      does; a line without `=` makes `dict` raise. */
  function ImagePairs(lines: seq<string>): (r: Result<seq<(string, string)>, PullError>)
    ensures r.Failure? <==> exists k :: 0 <= k < |lines| && '=' !in lines[k]
    ensures r.Failure? ==> r.error.MalformedImageLine? && r.error.line in lines && '=' !in r.error.line
    ensures r.Success? ==> |r.value| == |lines| && forall k :: 0 <= k < |lines| ==>
      lines[k] == r.value[k].0 + "=" + r.value[k].1 && '=' !in r.value[k].0
  {
    if lines == [] then Success([])
    else match SplitOnce(lines[0], '=')
      case None => Failure(MalformedImageLine(lines[0]))
      case Some(pair) =>
        match ImagePairs(lines[1..])
        case Failure(e) => Failure(e)
        case Success(rest) =>
          assert forall k :: 1 <= k < |lines| ==> lines[k] == lines[1..][k - 1];
          Success([pair] + rest)
  }

  /** The keys of a list of pairs. */
  function Keys(pairs: seq<(string, string)>): set<string> {
    set p | p in pairs :: p.0
  }

  /** The position of the last pair with key `k`. */
  function LastKey(pairs: seq<(string, string)>, k: string): (j: nat)
    requires k in Keys(pairs)
    ensures j < |pairs| && pairs[j].0 == k
    ensures forall i :: j < i < |pairs| ==> pairs[i].0 != k
  {
    var n := |pairs| - 1;
    if pairs[n].0 == k then n
    else
      assert k in Keys(pairs[..n]) by {
        var p :| p in pairs && p.0 == k;
        var i :| 0 <= i < |pairs| && pairs[i] == p;
        assert pairs[..n][i] == p;
      }
      LastKey(pairs[..n], k)
  }

  /** `dict(pairs)`: a later pair overwrites an earlier one. */
  function ToMap(pairs: seq<(string, string)>): (m: map<string, string>)
    ensures m.Keys == Keys(pairs)
    ensures forall k :: k in m ==> m[k] == pairs[LastKey(pairs, k)].1
  {
    if pairs == [] then map[]
    else
      var n := |pairs| - 1;
      assert pairs == pairs[..n] + [pairs[n]];
      ToMap(pairs[..n])[pairs[n].0 := pairs[n].1]
  }

  /** `get_local_images`, from the text `docker images` printed: the
      tags of the allowed images with their image digests. */
  function LocalImages(cfg: Config, stdout: string): (r: Result<map<string, string>, PullError>)
    ensures r.Success? ==> r.value.Keys <= FullImages(cfg)
  {
    ImagesOf(cfg, NonBlank(SplitLines(stdout, TextNewlines)))
  }

  /** What `get_local_images` promises when `docker images` printed the
      lines `all`: it fails exactly when a non-blank line has no `=`;
      otherwise it maps each allowed tag printed before the `=` of a
      non-blank line to the digest after the `=` of the last line that
      printed it. */
  ghost predicate FoundImages(cfg: Config, all: seq<string>, r: Result<map<string, string>, PullError>) {
    && (r.Failure? <==> exists k :: 0 <= k < |all| && !Blank(all[k]) && '=' !in all[k])
    && (r.Failure? ==> r.error.MalformedImageLine?)
    && (r.Success? ==>
          && (forall tag :: tag in r.value <==>
                tag in FullImages(cfg) && exists k :: 0 <= k < |all| && !Blank(all[k]) && Before(all[k], '=') == tag)
          && (forall tag :: tag in r.value ==>
                exists k :: 0 <= k < |all| && all[k] == tag + "=" + r.value[tag]
                  && forall k' :: k < k' < |all| && !Blank(all[k']) ==> Before(all[k'], '=') != tag))
  }

  /** `get_local_images` over the text `docker images` printed. */
  lemma LocalImagesSpec(cfg: Config, stdout: string)
    ensures FoundImages(cfg, SplitLines(stdout, TextNewlines), LocalImages(cfg, stdout))
  {
    ImagesOfNonBlank(cfg, SplitLines(stdout, TextNewlines));
  }

  /** `ImagesOfSpec` restated over all the lines, blank ones included. */
  lemma ImagesOfNonBlank(cfg: Config, all: seq<string>)
    ensures FoundImages(cfg, all, ImagesOf(cfg, NonBlank(all)))
  {
    var lines := NonBlank(all);
    var r := ImagesOf(cfg, lines);
    ImagesOfSpec(cfg, lines);
    NonBlankSome(all, l => '=' !in l);
    if r.Success? {
      forall tag
        ensures tag in r.value <==>
          tag in FullImages(cfg) && exists k :: 0 <= k < |all| && !Blank(all[k]) && Before(all[k], '=') == tag
      {
        NonBlankSome(all, l => Before(l, '=') == tag);
      }
      forall tag | tag in r.value
        ensures exists k :: 0 <= k < |all| && all[k] == tag + "=" + r.value[tag]
                  && forall k' :: k < k' < |all| && !Blank(all[k']) ==> Before(all[k'], '=') != tag
      {
        LastImageLine(cfg, all, tag);
      }
    }
  }

  /** Some non-blank line has property `p` exactly when some line of all
      the lines is not blank and has it. */
  lemma NonBlankSome(all: seq<string>, p: string -> bool)
    ensures (exists j :: 0 <= j < |NonBlank(all)| && p(NonBlank(all)[j])) <==>
      (exists k :: 0 <= k < |all| && !Blank(all[k]) && p(all[k]))
  {
    var lines := NonBlank(all);
    var ks := NonBlankAt(all);
    NonBlankInOrder(all);
    if j :| 0 <= j < |lines| && p(lines[j]) {
      assert all[ks[j]] == lines[j];
    }
    if k :| 0 <= k < |all| && !Blank(all[k]) && p(all[k]) {
      var j :| 0 <= j < |ks| && ks[j] == k;
      assert lines[j] == all[k];
    }
  }

  /** A digest taken from the last non-blank line that prints its tag
      comes from the last such line of all the lines. */
  lemma LastImageLine(cfg: Config, all: seq<string>, tag: string)
    requires ImagesOf(cfg, NonBlank(all)).Success? && tag in ImagesOf(cfg, NonBlank(all)).value
    ensures exists k ::
      && 0 <= k < |all| && all[k] == tag + "=" + ImagesOf(cfg, NonBlank(all)).value[tag]
      && forall k' :: k < k' < |all| && !Blank(all[k']) ==> Before(all[k'], '=') != tag
  {
    var j := DigestLine(cfg, NonBlank(all), tag);
    LastLineOf(all, j, tag + "=" + ImagesOf(cfg, NonBlank(all)).value[tag], tag);
  }

  /** The same for one tag: the j-th non-blank line, when no later
      non-blank line prints `tag`, sits at a position of all the lines
      after which no non-blank line prints `tag`. */
  lemma LastLineOf(all: seq<string>, j: nat, line: string, tag: string)
    requires j < |NonBlank(all)| && NonBlank(all)[j] == line
    requires forall j' :: j < j' < |NonBlank(all)| ==> Before(NonBlank(all)[j'], '=') != tag
    ensures exists k ::
      && 0 <= k < |all| && all[k] == line
      && forall k' :: k < k' < |all| && !Blank(all[k']) ==> Before(all[k'], '=') != tag
  {
    var ks := NonBlankAt(all);
    NonBlankInOrder(all);
    LaterNonBlank(all, ks, NonBlank(all), j, tag);
    assert all[ks[j]] == line;
  }

  /** The non-blank lines after the one at position `ks[j]` are the ones
      after `lines[j]`. */
  lemma LaterNonBlank(all: seq<string>, ks: seq<nat>, lines: seq<string>, j: nat, tag: string)
    requires |lines| == |ks| && j < |ks|
    requires forall i :: 0 <= i < |ks| ==> ks[i] < |all| && lines[i] == all[ks[i]]
    requires forall a, b :: 0 <= a < b < |ks| ==> ks[a] < ks[b]
    requires forall k :: 0 <= k < |all| && !Blank(all[k]) ==> k in ks
    requires forall j' :: j < j' < |lines| ==> Before(lines[j'], '=') != tag
    ensures forall k' :: ks[j] < k' < |all| && !Blank(all[k']) ==> Before(all[k'], '=') != tag
  {
    forall k' | ks[j] < k' < |all| && !Blank(all[k'])
      ensures Before(all[k'], '=') != tag
    {
      var j' :| 0 <= j' < |ks| && ks[j'] == k';
      RankOrder(ks, j, j');
    }
  }

  /** In an increasing sequence, a larger element comes later. */
  lemma RankOrder(ks: seq<nat>, i: nat, j: nat)
    requires i < |ks| && j < |ks| && ks[i] < ks[j]
    requires forall a, b :: 0 <= a < b < |ks| ==> ks[a] < ks[b]
    ensures i < j
  {
  }

  /** The allowed images the non-blank lines `lines` list. */
  function ImagesOf(cfg: Config, lines: seq<string>): (r: Result<map<string, string>, PullError>)
    ensures r.Success? ==> r.value.Keys <= FullImages(cfg)
  {
    match ImagePairs(lines)
    case Failure(e) => Failure(e)
    case Success(pairs) =>
      var all := ToMap(pairs);
      Success(map k | k in all && k in FullImages(cfg) :: all[k])
  }

  /** What `get_local_images` finds in the non-blank lines: it fails
      exactly when a line has no `=`; otherwise it maps each allowed tag
      printed before the `=` of a line to the digest after the `=` of the
      last line that printed it. */
  lemma ImagesOfSpec(cfg: Config, lines: seq<string>)
    ensures var r := ImagesOf(cfg, lines);
      && (r.Failure? <==> exists k :: 0 <= k < |lines| && '=' !in lines[k])
      && (r.Success? ==>
            && (forall tag :: tag in r.value <==>
                  tag in FullImages(cfg) && exists k :: 0 <= k < |lines| && Before(lines[k], '=') == tag)
            && (forall tag :: tag in r.value ==>
                  exists k :: 0 <= k < |lines| && lines[k] == tag + "=" + r.value[tag]
                    && forall k' :: k < k' < |lines| ==> Before(lines[k'], '=') != tag))
  {
    var r := ImagesOf(cfg, lines);
    if r.Success? {
      var pairs := ImagePairs(lines).value;
      var all := ToMap(pairs);
      assert r.value == map k | k in all && k in FullImages(cfg) :: all[k];
      forall k | 0 <= k < |lines| ensures Before(lines[k], '=') == pairs[k].0 {
        BeforeSep(pairs[k].0, '=', pairs[k].1);
      }
      forall tag | tag in r.value
        ensures exists k :: 0 <= k < |lines| && lines[k] == tag + "=" + r.value[tag]
                  && forall k' :: k < k' < |lines| ==> Before(lines[k'], '=') != tag
      {
        var j := DigestLine(cfg, lines, tag);
      }
      forall tag | tag in FullImages(cfg) && exists k :: 0 <= k < |lines| && Before(lines[k], '=') == tag
        ensures tag in r.value
      {
        var k :| 0 <= k < |lines| && Before(lines[k], '=') == tag;
        assert pairs[k] in pairs;
      }
      forall tag | tag in r.value
        ensures exists k :: 0 <= k < |lines| && Before(lines[k], '=') == tag
      {
        var j := LastKey(pairs, tag);
        assert Before(lines[j], '=') == tag;
      }
    }
  }

  /** The line a tag's digest comes from: the last line printing the tag. */
  lemma DigestLine(cfg: Config, lines: seq<string>, tag: string) returns (j: nat)
    requires ImagesOf(cfg, lines).Success? && tag in ImagesOf(cfg, lines).value
    ensures j < |lines| && lines[j] == tag + "=" + ImagesOf(cfg, lines).value[tag]
    ensures forall k' :: j < k' < |lines| ==> Before(lines[k'], '=') != tag
  {
    var pairs := ImagePairs(lines).value;
    var all := ToMap(pairs);
    assert ImagesOf(cfg, lines).value[tag] == all[tag];
    j := LastKey(pairs, tag);
    forall k' | j < k' < |lines| ensures Before(lines[k'], '=') != tag {
      BeforeSep(pairs[k'].0, '=', pairs[k'].1);
    }
  }

  // ---------------------------------------------------------------------
  // get_actions_from_project_file

  /** An entry of the `actions` mapping of a parsed `project.yaml`: empty
      (or null), or with an optional `run` command. */
  datatype Action = EmptyAction | Action(run: Option<string>)

  /** The project file as the YAML parser leaves it. */
  datatype ProjectFile = NoProjectFile | BadYaml | Parsed(actions: seq<Action>)

  /** The image an action runs, when it runs an allowed one: the part of
      its `run` command before the first `:`. */
  function ActionImage(a: Action, images: seq<string>): Option<string> {
    if a.EmptyAction? || a.run.None? then None
    else
      var name := Before(a.run.value, ':');
      if name in images then Some(name) else None
  }

  /** Whether an action's `run` command names image `x` before its first
      `:`. */
  predicate RunsImage(a: Action, x: string) {
    a.Action? && a.run.Some? && Before(a.run.value, ':') == x
  }

  /** The images the actions run, in action order, duplicates kept. */
  function ActionImages(actions: seq<Action>, images: seq<string>): seq<string> {
    if actions == [] then []
    else
      var n := |actions| - 1;
      var image := ActionImage(actions[n], images);
      ActionImages(actions[..n], images) + (if image.Some? then [image.value] else [])
  }

  /** `get_actions_from_project_file`, once the YAML is parsed. */
  function ProjectImages(file: ProjectFile, images: seq<string>): Result<seq<string>, PullError> {
    match file
    case NoProjectFile => Failure(ProjectNotFound)
    case BadYaml => Failure(ProjectUnparsable)
    case Parsed(actions) =>
      var found := ActionImages(actions, images);
      if found == [] then Failure(NoActions) else Success(found)
  }

  method GetActionsFromProjectFile(file: ProjectFile, images: seq<string>) returns (r: Result<seq<string>, PullError>)
    ensures r == ProjectImages(file, images)
  {
    if file.NoProjectFile? {
      return Failure(ProjectNotFound);
    } else if file.BadYaml? {
      return Failure(ProjectUnparsable);
    }
    var actions := file.actions;
    var found: seq<string> := [];
    var i := 0;
    while i < |actions|
      invariant 0 <= i <= |actions|
      invariant found == ActionImages(actions[..i], images)
    {
      assert actions[..i + 1][..i] == actions[..i];
      var action := actions[i];
      if !action.EmptyAction? && action.run.Some? {
        var name := Before(action.run.value, ':');
        if name in images {
          found := found + [name];
        }
      }
      i := i + 1;
    }
    assert actions[..i] == actions;
    if found == [] {
      return Failure(NoActions);
    }
    r := Success(found);
  }

  /** Which images a project uses: an image is in the list exactly when
      some action's `run` command names it before its first `:` and it is
      an allowed image. */
  lemma {:induction false} ActionImagesMembers(actions: seq<Action>, images: seq<string>, x: string)
    ensures x in ActionImages(actions, images) <==>
      x in images && exists k :: 0 <= k < |actions| && RunsImage(actions[k], x)
    decreases |actions|
  {
    if actions != [] {
      var n := |actions| - 1;
      var prefix := actions[..n];
      var image := ActionImage(actions[n], images);
      ActionImagesMembers(prefix, images, x);
      assert ActionImages(actions, images) == ActionImages(prefix, images) + (if image.Some? then [image.value] else []);
      assert image == Some(x) <==> x in images && RunsImage(actions[n], x);
      if x in ActionImages(prefix, images) {
        var k :| 0 <= k < n && RunsImage(prefix[k], x);
        assert actions[k] == prefix[k];
      }
      if exists k :: 0 <= k < |actions| && RunsImage(actions[k], x) {
        var k :| 0 <= k < |actions| && RunsImage(actions[k], x);
        if k < n {
          assert prefix[k] == actions[k];
        }
      }
    }
  }

  /** The images of a project keep the order of its actions: those of a
      concatenation are those of the parts, one after the other. */
  lemma {:induction false} ActionImagesConcat(a: seq<Action>, b: seq<Action>, images: seq<string>)
    ensures ActionImages(a + b, images) == ActionImages(a, images) + ActionImages(b, images)
    decreases |b|
  {
    if b != [] {
      var n := |b| - 1;
      assert (a + b)[..|a| + n] == a + b[..n];
      ActionImagesConcat(a, b[..n], images);
    } else {
      assert a + b == a;
    }
  }

  // ---------------------------------------------------------------------
  // remove_deprecated_images

  /** The tags of `registry` that are present, in image order. */
  function RegistryRemovals(registry: string, images: seq<string>, local: set<string>): seq<string> {
    if images == [] then []
    else
      var n := |images| - 1;
      var tag := Tag(registry, images[n]);
      RegistryRemovals(registry, images[..n], local) + (if tag in local then [tag] else [])
  }

  /** The tags `remove_deprecated_images` removes, registry by registry. */
  function Removals(registries: seq<string>, images: seq<string>, local: set<string>): seq<string> {
    if registries == [] then []
    else
      var n := |registries| - 1;
      Removals(registries[..n], images, local) + RegistryRemovals(registries[n], images, local)
  }

  /** `remove_deprecated_images`: returns the tags it asks docker to
      remove, in the order it asks. */
  method RemoveDeprecatedImages(images: seq<string>, local: set<string>) returns (removed: seq<string>)
    ensures removed == Removals(DeprecatedRegistries, images, local)
  {
    removed := [];
    var r := 0;
    while r < |DeprecatedRegistries|
      invariant 0 <= r <= |DeprecatedRegistries|
      invariant removed == Removals(DeprecatedRegistries[..r], images, local)
    {
      var registry := DeprecatedRegistries[r];
      assert DeprecatedRegistries[..r + 1][..r] == DeprecatedRegistries[..r];
      ghost var before := removed;
      var i := 0;
      while i < |images|
        invariant 0 <= i <= |images|
        invariant removed == before + RegistryRemovals(registry, images[..i], local)
      {
        assert images[..i + 1][..i] == images[..i];
        var tag := Tag(registry, images[i]);
        if tag in local {
          removed := removed + [tag];
        }
        i := i + 1;
      }
      assert images[..i] == images;
      r := r + 1;
    }
    assert DeprecatedRegistries[..r] == DeprecatedRegistries;
  }

  /** Exactly the present tags `registry/image`, for a listed registry and
      an allowed image, are removed. */
  lemma {:induction false} RemovalsMembers(registries: seq<string>, images: seq<string>, local: set<string>, t: string)
    ensures t in Removals(registries, images, local) <==>
      t in local && exists r, i :: r in registries && i in images && t == Tag(r, i)
    decreases |registries|
  {
    if registries != [] {
      var n := |registries| - 1;
      RemovalsMembers(registries[..n], images, local, t);
      RegistryRemovalsMembers(registries[n], images, local, t);
      if t in local && exists r, i :: r in registries && i in images && t == Tag(r, i) {
        var r, i :| r in registries && i in images && t == Tag(r, i);
        assert registries == registries[..n] + [registries[n]];
        if r != registries[n] {
          assert r in registries[..n];
        }
      }
    }
  }

  lemma {:induction false} RegistryRemovalsMembers(registry: string, images: seq<string>, local: set<string>, t: string)
    ensures t in RegistryRemovals(registry, images, local) <==> t in local && exists i :: i in images && t == Tag(registry, i)
    decreases |images|
  {
    if images != [] {
      var n := |images| - 1;
      RegistryRemovalsMembers(registry, images[..n], local, t);
      if t in local && exists i :: i in images && t == Tag(registry, i) {
        var i :| i in images && t == Tag(registry, i);
        if i != images[n] {
          assert i in images[..n];
        }
      }
    }
  }

  /** Two tags of image names without `/` are equal only when both the
      registries and the images are. */
  lemma TagInjective(r1: string, i1: string, r2: string, i2: string)
    requires '/' !in i1 && '/' !in i2 && Tag(r1, i1) == Tag(r2, i2)
    ensures r1 == r2 && i1 == i2
  {
    AfterLastSep(r1, '/', i1);
    AfterLastSep(r2, '/', i2);
    assert r1 + ['/'] + i1 == Tag(r1, i1);
    assert r2 + ['/'] + i2 == Tag(r2, i2);
    assert Tag(r1, i1)[..|r1|] == r1;
  }

  /** Image names never contain `/`. */
  ghost predicate PlainNames(images: seq<string>) {
    forall i :: i in images ==> '/' !in i
  }

  /** The removal never touches a tag of a registry that is not
      deprecated. */
  lemma RemovalsSpareRegistry(registry: string, image: string, images: seq<string>, local: set<string>)
    requires registry !in DeprecatedRegistries && '/' !in image && PlainNames(images)
    ensures Tag(registry, image) !in Removals(DeprecatedRegistries, images, local)
  {
    RemovalsMembers(DeprecatedRegistries, images, local, Tag(registry, image));
    if exists r, i :: r in DeprecatedRegistries && i in images && Tag(registry, image) == Tag(r, i) {
      var r, i :| r in DeprecatedRegistries && i in images && Tag(registry, image) == Tag(r, i);
      TagInjective(registry, image, r, i);
    }
  }

  // ---------------------------------------------------------------------
  // main

  datatype Command =
    | DockerPull(ref: string)       // docker pull <ref>
    | DockerRemove(tag: string)     // docker image rm <tag>
    | DockerPrune                   // docker image prune --force

  /** How `main` ends. */
  datatype MainOutcome =
    | Declined                  // the docker preflight check failed: returns False
    | Raised(error: PullError)  // an exception escapes
    | Exited(failed: Command)   // a checked docker command failed: `sys.exit`
    | Finished(updated: bool)   // normal return; `updated`: something was pulled

  /** The docker commands `main` runs, in order, and how it ends. */
  datatype Run = Run(commands: seq<Command>, outcome: MainOutcome)

  /** Which images `main` considers, and whether it forces the pull: a
      project's images, forced; all the allowed images, forced only on
      request; or the one image asked for, forced. */
  function Selection(cfg: Config, image: string, force: bool, project: Option<ProjectFile>): Result<(seq<string>, bool), PullError> {
    if project.Some? then
      match ProjectImages(project.value, cfg.images)
      case Failure(e) => Failure(e)
      case Success(images) => Success((images, true))
    else if image == "all" then Success((cfg.images, force))
    else Success(([image], true))
  }

  /** Whether the pull loop pulls `image`. */
  predicate Pulled(registry: string, image: string, force: bool, local: set<string>) {
    image != Unpublished && (force || Tag(registry, image) in local)
  }

  function PullOf(registry: string, image: string): Command {
    DockerPull(Tag(registry, image) + ":latest")
  }

  /** The pulls of the loop, in image order, when they all succeed. */
  function PullCommands(registry: string, images: seq<string>, force: bool, local: set<string>): seq<Command> {
    if images == [] then []
    else
      var n := |images| - 1;
      PullCommands(registry, images[..n], force, local)
      + (if Pulled(registry, images[n], force, local) then [PullOf(registry, images[n])] else [])
  }

  /** The pulls for one more image: those before it, then its own. */
  lemma PullCommandsStep(registry: string, images: seq<string>, i: nat, force: bool, local: set<string>)
    requires i < |images|
    ensures PullCommands(registry, images[..i + 1], force, local)
         == PullCommands(registry, images[..i], force, local)
            + (if Pulled(registry, images[i], force, local) then [PullOf(registry, images[i])] else [])
  {
    assert images[..i + 1][..i] == images[..i];
  }

  /** The pulls for a prefix of the images come first among all pulls. */
  lemma {:induction false} PullCommandsPrefix(registry: string, images: seq<string>, i: nat, force: bool, local: set<string>)
    requires i <= |images|
    ensures PullCommands(registry, images[..i], force, local) <= PullCommands(registry, images, force, local)
    decreases |images| - i
  {
    if i < |images| {
      var n := |images| - 1;
      assert images[..n][..i] == images[..i];
      PullCommandsPrefix(registry, images[..n], i, force, local);
    } else {
      assert images[..i] == images;
    }
  }

  /** The position of the first command that fails, or `|cmds|`. */
  function FirstFailed(cmds: seq<Command>, ok: Command -> bool): (n: nat)
    ensures n <= |cmds|
    ensures forall k :: 0 <= k < n ==> ok(cmds[k])
    ensures n < |cmds| ==> !ok(cmds[n])
  {
    if cmds == [] || !ok(cmds[0]) then 0
    else
      var n := 1 + FirstFailed(cmds[1..], ok);
      assert forall k :: 1 <= k < n ==> cmds[k] == cmds[1..][k - 1];
      n
  }

  lemma {:induction false} FirstFailedIs(cmds: seq<Command>, ok: Command -> bool, n: nat)
    requires n <= |cmds|
    requires forall k :: 0 <= k < n ==> ok(cmds[k])
    requires n < |cmds| ==> !ok(cmds[n])
    ensures FirstFailed(cmds, ok) == n
    decreases n
  {
    if n > 0 {
      FirstFailedIs(cmds[1..], ok, n - 1);
    }
  }

  /** `main`, as a function of its arguments and of what docker does:
      `preflight` is the outcome of the preflight check, `listing` the
      output of `docker images` (or nothing when it fails), and `ok` says
      which checked commands succeed. */
  function MainSpec(cfg: Config, image: string, force: bool, project: Option<ProjectFile>,
                    preflight: bool, listing: Option<string>, ok: Command -> bool): Run
  {
    if !preflight then Run([], Declined)
    else match Selection(cfg, image, force, project)
      case Failure(e) => Run([], Raised(e))
      case Success(selected) =>
        if listing.None? then Run([], Raised(DockerImagesFailed))
        else match LocalImages(cfg, listing.value)
          case Failure(e) => Run([], Raised(e))
          case Success(local) =>
            PullAndCleanSpec(cfg, selected.0, selected.1, local.Keys, ok)
  }

  /** `main`. */
  method RunPull(cfg: Config, image: string, force: bool, project: Option<ProjectFile>,
                preflight: bool, listing: Option<string>, ok: Command -> bool) returns (run: Run)
    ensures run == MainSpec(cfg, image, force, project, preflight, listing, ok)
  {
    if !preflight {
      return Run([], Declined);
    }
    var selected := SelectImages(cfg, image, force, project);
    if selected.Failure? {
      return Run([], Raised(selected.error));
    }
    if listing.None? {
      return Run([], Raised(DockerImagesFailed));
    }
    var localImages := LocalImages(cfg, listing.value);
    if localImages.Failure? {
      return Run([], Raised(localImages.error));
    }
    run := PullAndClean(cfg, selected.value.0, selected.value.1, localImages.value.Keys, ok);
  }

  /** The choice of images at the start of `main`. */
  method SelectImages(cfg: Config, image: string, force: bool, project: Option<ProjectFile>)
    returns (r: Result<(seq<string>, bool), PullError>)
    ensures r == Selection(cfg, image, force, project)
  {
    if project.Some? {
      var found := GetActionsFromProjectFile(project.value, cfg.images);
      if found.Failure? {
        return Failure(found.error);
      }
      r := Success((found.value, true));
    } else if image == "all" {
      r := Success((cfg.images, force));
    } else {
      r := Success(([image], true));
    }
  }

  /** What `main` does once it knows the images, whether to force, and
      the installed tags. */
  function PullAndCleanSpec(cfg: Config, images: seq<string>, force: bool, local: set<string>, ok: Command -> bool): Run {
    var pulls := PullCommands(cfg.registry, images, force, local);
    var n := FirstFailed(pulls, ok);
    if n < |pulls| then Run(pulls[..n + 1], Exited(pulls[n]))
    else if pulls == [] then Run([], Finished(false))
    else
      var commands := pulls + RemoveCommands(Removals(DeprecatedRegistries, cfg.images, local)) + [DockerPrune];
      if ok(DockerPrune) then Run(commands, Finished(true)) else Run(commands, Exited(DockerPrune))
  }

  /** The pull loop of `main` and the clean-up after it. */
  method PullAndClean(cfg: Config, images: seq<string>, force: bool, local: set<string>, ok: Command -> bool) returns (run: Run)
    ensures run == PullAndCleanSpec(cfg, images, force, local, ok)
  {
    var commands, updated, failed := PullImages(cfg.registry, images, force, local, ok);
    ghost var pulls := PullCommands(cfg.registry, images, force, local);
    if failed {
      FailsAt(pulls, commands, ok);
      return Run(commands, Exited(commands[|commands| - 1]));
    }
    FirstFailedIs(pulls, ok, |pulls|);
    if !updated {
      return Run([], Finished(false));
    }
    var cleanup := CleanUp(cfg.images, local);
    commands := commands + cleanup;
    if !ok(DockerPrune) {
      return Run(commands, Exited(DockerPrune));
    }
    run := Run(commands, Finished(true));
  }

  /** The pull loop of `main`: pulls in order, and stops at the first
      pull that fails. */
  method PullImages(registry: string, images: seq<string>, force: bool, local: set<string>, ok: Command -> bool)
    returns (commands: seq<Command>, updated: bool, failed: bool)
    ensures var pulls := PullCommands(registry, images, force, local);
      && commands <= pulls
      && (forall k :: 0 <= k < |commands| - 1 ==> ok(commands[k]))
      && (failed ==> commands != [] && !ok(commands[|commands| - 1]))
      && (!failed ==> commands == pulls && (commands != [] ==> ok(commands[|commands| - 1])))
      && (updated <==> commands != [])
  {
    commands := [];
    updated := false;
    var i := 0;
    while i < |images|
      invariant 0 <= i <= |images|
      invariant commands == PullCommands(registry, images[..i], force, local)
      invariant forall k :: 0 <= k < |commands| ==> ok(commands[k])
      invariant updated <==> commands != []
    {
      PullCommandsStep(registry, images, i, force, local);
      var name := images[i];
      if name != Unpublished {
        var tag := Tag(registry, name);
        if force || tag in local {
          updated := true;
          var command := DockerPull(tag + ":latest");
          commands := commands + [command];
          if !ok(command) {
            PullCommandsPrefix(registry, images, i + 1, force, local);
            return commands, updated, true;
          }
        }
      }
      i := i + 1;
    }
    assert images[..i] == images;
    failed := false;
  }

  /** The commands run so far, of which only the last failed, end at the
      first failing one. */
  lemma FailsAt(pulls: seq<Command>, commands: seq<Command>, ok: Command -> bool)
    requires commands != [] && commands <= pulls
    requires forall k :: 0 <= k < |commands| - 1 ==> ok(commands[k])
    requires !ok(commands[|commands| - 1])
    ensures FirstFailed(pulls, ok) == |commands| - 1
    ensures pulls[..|commands|] == commands
  {
    FirstFailedIs(pulls, ok, |commands| - 1);
  }

  /** One `docker image rm` per tag, in order. */
  function RemoveCommands(tags: seq<string>): (cs: seq<Command>)
    ensures |cs| == |tags|
    ensures forall k :: 0 <= k < |tags| ==> cs[k] == DockerRemove(tags[k])
  {
    if tags == [] then []
    else RemoveCommands(tags[..|tags| - 1]) + [DockerRemove(tags[|tags| - 1])]
  }

  /** The clean-up of `main`: removes the deprecated tags, then prunes. */
  method CleanUp(images: seq<string>, local: set<string>) returns (commands: seq<Command>)
    ensures commands == RemoveCommands(Removals(DeprecatedRegistries, images, local)) + [DockerPrune]
  {
    var removed := RemoveDeprecatedImages(images, local);
    commands := [];
    var k := 0;
    while k < |removed|
      invariant 0 <= k <= |removed|
      invariant commands == RemoveCommands(removed[..k])
    {
      assert removed[..k + 1][..k] == removed[..k];
      commands := commands + [DockerRemove(removed[k])];
      k := k + 1;
    }
    assert removed[..k] == removed;
    commands := commands + [DockerPrune];
  }

  // ---------------------------------------------------------------------
  // check_version

  /** Puts `xs` in front of a successful result. */
  function Prefixed(xs: seq<string>, r: Result<seq<string>, PullError>): Result<seq<string>, PullError> {
    if r.Failure? then r else Success(xs + r.value)
  }

  lemma PrefixedNothing(r: Result<seq<string>, PullError>)
    ensures Prefixed([], r) == r
  {
    if r.Success? {
      assert [] + r.value == r.value;
    }
  }

  /** The images of `images` whose local digest differs from the one the
      registry gives for `latest`, in order; images with no local digest
      are skipped, and a registry failure ends the whole call. */
  function OutOfDate(registry: string, images: seq<string>, local: map<string, string>, remote: string -> Option<string>): Result<seq<string>, PullError> {
    if images == [] then Success([])
    else
      var tag := Tag(registry, images[0]);
      if tag !in local then OutOfDate(registry, images[1..], local, remote)
      else if remote(tag).None? then Failure(RegistryFailed(images[0]))
      else Prefixed(if local[tag] != remote(tag).value then [images[0]] else [], OutOfDate(registry, images[1..], local, remote))
  }

  /** `check_version`, from the output of `docker images` and the digests
      the registry gives (`remote`, by tag). */
  function CheckVersionSpec(cfg: Config, listing: Option<string>, remote: string -> Option<string>): Result<seq<string>, PullError> {
    if listing.None? then Failure(DockerImagesFailed)
    else match LocalImages(cfg, listing.value)
      case Failure(e) => Failure(e)
      case Success(local) => OutOfDate(cfg.registry, cfg.images, local, remote)
  }

  method CheckVersion(cfg: Config, listing: Option<string>, remote: string -> Option<string>) returns (r: Result<seq<string>, PullError>)
    ensures r == CheckVersionSpec(cfg, listing, remote)
  {
    if listing.None? {
      return Failure(DockerImagesFailed);
    }
    var localImages := LocalImages(cfg, listing.value);
    if localImages.Failure? {
      return Failure(localImages.error);
    }
    r := FindOutOfDate(cfg.registry, cfg.images, localImages.value, remote);
  }

  /** The loop of `check_version`. */
  method FindOutOfDate(registry: string, images: seq<string>, local: map<string, string>, remote: string -> Option<string>)
    returns (r: Result<seq<string>, PullError>)
    ensures r == OutOfDate(registry, images, local, remote)
  {
    var needUpdate: seq<string> := [];
    var i := 0;
    assert images[i..] == images;
    PrefixedNothing(OutOfDate(registry, images, local, remote));
    while i < |images|
      invariant 0 <= i <= |images|
      invariant OutOfDate(registry, images, local, remote) == Prefixed(needUpdate, OutOfDate(registry, images[i..], local, remote))
    {
      OutOfDateStep(registry, images, i, local, remote);
      var image := images[i];
      var fullName := Tag(registry, image);
      if fullName in local {
        var remoteSha := remote(fullName);
        if remoteSha.None? {
          return Failure(RegistryFailed(image));
        }
        ghost var rest := OutOfDate(registry, images[i + 1..], local, remote);
        if local[fullName] != remoteSha.value {
          PrefixedTwice(needUpdate, [image], rest);
          needUpdate := needUpdate + [image];
        } else {
          PrefixedTwice(needUpdate, [], rest);
          assert needUpdate + [] == needUpdate;
        }
      }
      i := i + 1;
    }
    assert needUpdate + [] == needUpdate;
    r := Success(needUpdate);
  }

  /** One step of the loop of `check_version`. */
  lemma OutOfDateStep(registry: string, images: seq<string>, i: nat, local: map<string, string>, remote: string -> Option<string>)
    requires i < |images|
    ensures var tag := Tag(registry, images[i]);
      var rest := OutOfDate(registry, images[i + 1..], local, remote);
      OutOfDate(registry, images[i..], local, remote)
        == if tag !in local then rest
           else if remote(tag).None? then Failure(RegistryFailed(images[i]))
           else Prefixed(if local[tag] != remote(tag).value then [images[i]] else [], rest)
  {
    assert images[i..][1..] == images[i + 1..];
  }

  /** Prefixing twice is prefixing with the concatenation. */
  lemma PrefixedTwice(a: seq<string>, b: seq<string>, r: Result<seq<string>, PullError>)
    ensures Prefixed(a, Prefixed(b, r)) == Prefixed(a + b, r)
  {
    if r.Success? {
      assert a + (b + r.value) == (a + b) + r.value;
    }
  }

  /** What `check_version` reports: it fails exactly when an installed
      image has no digest at the registry; otherwise an image is reported
      exactly when it is installed with a digest other than the
      registry's. */
  lemma {:induction false} OutOfDateSpec(registry: string, images: seq<string>, local: map<string, string>, remote: string -> Option<string>)
    ensures var r := OutOfDate(registry, images, local, remote);
      && (r.Failure? <==> exists i :: i in images && Tag(registry, i) in local && remote(Tag(registry, i)).None?)
      && (r.Success? ==> forall x :: x in r.value <==>
            x in images && Tag(registry, x) in local && local[Tag(registry, x)] != remote(Tag(registry, x)).value)
    decreases |images|
  {
    if images != [] {
      OutOfDateSpec(registry, images[1..], local, remote);
      assert forall i :: i in images <==> i == images[0] || i in images[1..];
    }
  }

  /** The report keeps the order of the images: that for a concatenation
      is the reports for the parts, one after the other. */
  lemma {:induction false} OutOfDateConcat(registry: string, a: seq<string>, b: seq<string>, local: map<string, string>, remote: string -> Option<string>)
    requires OutOfDate(registry, a + b, local, remote).Success?
    ensures OutOfDate(registry, a, local, remote).Success? && OutOfDate(registry, b, local, remote).Success?
    ensures OutOfDate(registry, a + b, local, remote).value
         == OutOfDate(registry, a, local, remote).value + OutOfDate(registry, b, local, remote).value
    decreases |a|
  {
    if a != [] {
      assert (a + b)[1..] == a[1..] + b;
      OutOfDateConcat(registry, a[1..], b, local, remote);
    } else {
      assert a + b == b;
    }
  }
}
