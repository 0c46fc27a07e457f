/** Properties of the `pull` command as a whole. */
module PullProperties {
  import opened Wrappers
  import opened Text
  import opened Pull

  /** Pull commands name the image they pull. */
  lemma PullOfInjective(registry: string, x: string, y: string)
    requires PullOf(registry, x) == PullOf(registry, y)
    ensures x == y
  {
    var a := PullOf(registry, x).ref;
    var b := PullOf(registry, y).ref;
    assert |x| == |y|;
    assert a[|registry| + 1..|registry| + 1 + |x|] == x;
    assert b[|registry| + 1..|registry| + 1 + |y|] == y;
  }

  /** The pull loop pulls exactly the selected images that are published
      and either forced or installed. */
  lemma {:induction false} PullCommandsMembers(registry: string, images: seq<string>, force: bool, local: set<string>, c: Command)
    ensures c in PullCommands(registry, images, force, local) <==>
      exists x :: x in images && Pulled(registry, x, force, local) && c == PullOf(registry, x)
    decreases |images|
  {
    if images != [] {
      var n := |images| - 1;
      PullCommandsMembers(registry, images[..n], force, local, c);
      if exists x :: x in images && Pulled(registry, x, force, local) && c == PullOf(registry, x) {
        var x :| x in images && Pulled(registry, x, force, local) && c == PullOf(registry, x);
        if x != images[n] {
          assert x in images[..n];
        }
      }
    }
  }

  /** `databuilder` is never pulled. */
  lemma NeverPullsUnpublished(registry: string, images: seq<string>, force: bool, local: set<string>)
    ensures PullOf(registry, Unpublished) !in PullCommands(registry, images, force, local)
  {
    PullCommandsMembers(registry, images, force, local, PullOf(registry, Unpublished));
    if exists x :: x in images && Pulled(registry, x, force, local) && PullOf(registry, Unpublished) == PullOf(registry, x) {
      var x :| x in images && Pulled(registry, x, force, local) && PullOf(registry, Unpublished) == PullOf(registry, x);
      PullOfInjective(registry, Unpublished, x);
    }
  }

  /** The pulls keep the order of the images: those for a concatenation
      are those for the parts, one after the other. */
  lemma {:induction false} PullCommandsConcat(registry: string, a: seq<string>, b: seq<string>, force: bool, local: set<string>)
    ensures PullCommands(registry, a + b, force, local) == PullCommands(registry, a, force, local) + PullCommands(registry, b, force, local)
    decreases |b|
  {
    if b == [] {
      assert a + b == a;
    } else {
      var n := |b| - 1;
      assert (a + b)[..|a| + n] == a + b[..n];
      PullCommandsConcat(registry, a, b[..n], force, local);
    }
  }

  /** When `main` finishes normally, it has pulled something exactly when
      it cleaned up, and the clean-up (removals, then a prune) comes after
      every pull. */
  lemma CleanUpIffPulled(cfg: Config, images: seq<string>, force: bool, local: set<string>, ok: Command -> bool)
    requires PullAndCleanSpec(cfg, images, force, local, ok).outcome.Finished?
    ensures var run := PullAndCleanSpec(cfg, images, force, local, ok);
      var pulls := PullCommands(cfg.registry, images, force, local);
      && (run.outcome.updated <==> pulls != [])
      && (run.outcome.updated <==> DockerPrune in run.commands)
      && run.commands[..|pulls|] == pulls
      && (forall k :: |pulls| <= k < |run.commands| ==> !run.commands[k].DockerPull?)
  {
    var run := PullAndCleanSpec(cfg, images, force, local, ok);
    var pulls := PullCommands(cfg.registry, images, force, local);
    PullCommandsMembers(cfg.registry, images, force, local, DockerPrune);
    assert FirstFailed(pulls, ok) == |pulls|;
    if pulls != [] {
      var cleanup := RemoveCommands(Removals(DeprecatedRegistries, cfg.images, local));
      assert run.commands == pulls + cleanup + [DockerPrune];
      assert run.commands[|run.commands| - 1] == DockerPrune;
      assert run.commands[..|pulls|] == pulls;
    }
  }

  /** The clean-up removes nothing when the installed tags it is given
      are all tags of the current registry, as those `main` gives it. */
  lemma CleanUpRemovesNothing(cfg: Config, images: seq<string>, force: bool, local: set<string>, ok: Command -> bool)
    requires cfg.registry !in DeprecatedRegistries && PlainNames(cfg.images) && local <= FullImages(cfg)
    ensures forall c :: c in PullAndCleanSpec(cfg, images, force, local, ok).commands ==> !c.DockerRemove?
  {
    var run := PullAndCleanSpec(cfg, images, force, local, ok);
    var removals := Removals(DeprecatedRegistries, cfg.images, local);
    assert removals == [] by {
      if removals != [] {
        var t := removals[0];
        RemovalsMembers(DeprecatedRegistries, cfg.images, local, t);
        var i :| i in cfg.images && t == Tag(cfg.registry, i);
        RemovalsSpareRegistry(cfg.registry, i, cfg.images, local);
      }
    }
    var pulls := PullCommands(cfg.registry, images, force, local);
    forall c | c in run.commands ensures !c.DockerRemove? {
      if c in pulls {
        PullCommandsMembers(cfg.registry, images, force, local, c);
      }
    }
  }

  /** `main` removes nothing: it hands the removal only the installed tags
      of the current registry, and the removal looks only at deprecated
      registries. */
  lemma MainRemovesNothing(cfg: Config, image: string, force: bool, project: Option<ProjectFile>,
                           preflight: bool, listing: Option<string>, ok: Command -> bool)
    requires cfg.registry !in DeprecatedRegistries && PlainNames(cfg.images)
    ensures forall c :: c in MainSpec(cfg, image, force, project, preflight, listing, ok).commands ==> !c.DockerRemove?
  {
    if preflight && Selection(cfg, image, force, project).Success? && listing.Some? && LocalImages(cfg, listing.value).Success? {
      var selected := Selection(cfg, image, force, project).value;
      var local := LocalImages(cfg, listing.value).value.Keys;
      CleanUpRemovesNothing(cfg, selected.0, selected.1, local, ok);
    }
  }

  /** Asking for one image pulls it first, installed or not, unless it is
      `databuilder`; the clean-up follows when the pull succeeds. */
  lemma SpecificImagePulled(cfg: Config, image: string, force: bool, listing: string, ok: Command -> bool)
    requires image != "all" && image != Unpublished && LocalImages(cfg, listing).Success?
    ensures var run := MainSpec(cfg, image, force, None, true, Some(listing), ok);
      && run.commands != [] && run.commands[0] == PullOf(cfg.registry, image)
      && (ok(PullOf(cfg.registry, image)) ==> DockerPrune in run.commands)
  {
    var local := LocalImages(cfg, listing).value.Keys;
    assert MainSpec(cfg, image, force, None, true, Some(listing), ok) == PullAndCleanSpec(cfg, [image], true, local, ok);
    var pulls := PullCommands(cfg.registry, [image], true, local);
    assert [image][..0] == [];
    assert Pulled(cfg.registry, image, true, local);
    assert pulls == PullCommands(cfg.registry, [], true, local) + [PullOf(cfg.registry, image)];
    if ok(PullOf(cfg.registry, image)) {
      FirstFailedIs(pulls, ok, 1);
      var run := PullAndCleanSpec(cfg, [image], true, local, ok);
      assert run.commands[|run.commands| - 1] == DockerPrune;
    } else {
      FirstFailedIs(pulls, ok, 0);
    }
  }

  /** The image list of the tests: `config.ALLOWED_IMAGES` in sorted order. */
  const TestImages: seq<string> := ["cohortextractor", "cohortextractor-v2", "jupyter", "python", "r", "stata-mp"]

  /** The installed tags of the test: `r` in both deprecated registries
      and in the current one. */
  const TestLocal: set<string> := {"docker.opensafely.org/r", "ghcr.io/opensafely/r", "ghcr.io/opensafely-core/r"}

  /** With the tags of `r` in both deprecated registries and the current
      one installed, exactly the two old tags are removed, first registry
      first. */
  lemma RemovalExample()
    ensures Removals(DeprecatedRegistries, TestImages, TestLocal) == ["docker.opensafely.org/r", "ghcr.io/opensafely/r"]
  {
    RegistryExample("docker.opensafely.org");
    RegistryExample("ghcr.io/opensafely");
    assert Tag("docker.opensafely.org", "r") == "docker.opensafely.org/r";
    assert Tag("ghcr.io/opensafely", "r") == "ghcr.io/opensafely/r";
    assert DeprecatedRegistries[..1] == ["docker.opensafely.org"];
    assert DeprecatedRegistries[..1][..0] == [];
    assert Removals(DeprecatedRegistries[..1], TestImages, TestLocal) == ["docker.opensafely.org/r"];
  }

  /** In each deprecated registry of the test, only the tag of `r` is
      installed. */
  lemma RegistryExample(registry: string)
    requires registry in DeprecatedRegistries
    ensures RegistryRemovals(registry, TestImages, TestLocal) == [Tag(registry, "r")]
  {
    var first4 := ["cohortextractor", "cohortextractor-v2", "jupyter", "python"];
    assert TestImages[..5] == first4 + ["r"];
    assert TestImages[..5][..4] == first4;
    assert "ghcr.io/opensafely/python"[18] != "ghcr.io/opensafely-core/r"[18];
    NoneRemoved(registry, first4, TestLocal);
    if registry == "docker.opensafely.org" {
      assert Tag(registry, "r") == "docker.opensafely.org/r";
    } else {
      assert Tag(registry, "r") == "ghcr.io/opensafely/r";
    }
    assert Tag(registry, "r") in TestLocal;
    assert Tag(registry, "stata-mp") !in TestLocal;
    assert TestImages[5] == "stata-mp";
    assert RegistryRemovals(registry, TestImages[..5], TestLocal) == [Tag(registry, "r")];
  }

  /** No tag of these images in `registry` is installed. */
  lemma NoneRemoved(registry: string, images: seq<string>, local: set<string>)
    requires forall i :: i in images ==> Tag(registry, i) !in local
    ensures RegistryRemovals(registry, images, local) == []
  {
    if RegistryRemovals(registry, images, local) != [] {
      var t := RegistryRemovals(registry, images, local)[0];
      RegistryRemovalsMembers(registry, images, local, t);
    }
  }

  /** An installed `python` whose digest differs from the registry's is
      reported, and nothing else is. */
  lemma OutOfDateExample(remote: string -> Option<string>)
    requires remote("ghcr.io/opensafely-core/python") == Some("sha256:newsha")
    ensures OutOfDate("ghcr.io/opensafely-core", TestImages, map["ghcr.io/opensafely-core/python" := "sha256:oldsha"], remote)
         == Success(["python"])
  {
    var registry := "ghcr.io/opensafely-core";
    var local := map["ghcr.io/opensafely-core/python" := "sha256:oldsha"];
    assert Tag(registry, "python") == "ghcr.io/opensafely-core/python";
    assert TestImages[6..] == [];
    OutOfDateStep(registry, TestImages, 5, local, remote);
    assert Tag(registry, "stata-mp") !in local;
    assert OutOfDate(registry, TestImages[5..], local, remote) == Success([]);
    OutOfDateStep(registry, TestImages, 4, local, remote);
    assert Tag(registry, "r") !in local;
    assert OutOfDate(registry, TestImages[4..], local, remote) == Success([]);
    OutOfDateStep(registry, TestImages, 3, local, remote);
    assert ["python"] + [] == ["python"];
    assert OutOfDate(registry, TestImages[3..], local, remote) == Success(["python"]);
    OutOfDateStep(registry, TestImages, 2, local, remote);
    assert Tag(registry, "jupyter") !in local;
    OutOfDateStep(registry, TestImages, 1, local, remote);
    assert Tag(registry, "cohortextractor-v2") !in local;
    OutOfDateStep(registry, TestImages, 0, local, remote);
    assert Tag(registry, "cohortextractor") !in local;
    assert TestImages[0..] == TestImages;
  }
}
