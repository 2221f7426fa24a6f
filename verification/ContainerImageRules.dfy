/**
 The rules for image references with their characters and names written out: which references are
 looked up, and which are replaced by what.
 */
module ContainerImageRules {
  import opened Prelude
  import opened Text
  import opened ContainerImages

  // ----- Reading -----

  ghost predicate StartsWith(s: string, start: string) {
    exists rest :: s == start + rest
  }

  lemma StartsWithMeans(s: string, start: string)
    ensures StartsWith(s, start) <==> start <= s
  {
    if start <= s { assert s == start + s[|start|..]; }
  }

  /** A reference that starts like a variable is none. */
  lemma VariableIsNoImage(rest: string)
    ensures ParseImageRef("${" + rest) == None
  {
  }

  /** A colon in front of the last slash belongs to the repository, as a port does; a reference with no other
      colon and no at sign has no tag and no digest. */
  lemma UntaggedRefIsRead(ref: string)
    requires ref != "" && '@' !in ref && !StartsWith(ref, "${")
    requires forall k :: 0 <= k < |ref| && ref[k] == ':' ==> exists l :: k < l < |ref| && ref[l] == '/'
    ensures ParseImageRef(ref) == Some(ContainerImage(ref, None, None))
  {
    StartsWithMeans(ref, "${");
    FirstIndexOfNone(ref, '@');
    assert ref[..|ref|] == ref;
    if LastIndex(ref, ':') >= 0 {
      var l :| LastIndex(ref, ':') < l < |ref| && ref[l] == '/';
    }
  }

  // ----- Which images are looked up -----

  /** Not pinned by a digest, not `scratch`, not of `localhost`, not tagged `local`. */
  ghost predicate IsLookedUp(image: ContainerImage) {
    image.digest == None && image.repository != "scratch" && !StartsWith(image.repository, "localhost/") &&
    image.tag != Some("local")
  }

  lemma SkipMeans(image: ContainerImage)
    ensures ShouldSkip(image) <==> !IsLookedUp(image)
  {
    StartsWithMeans(image.repository, "localhost/");
  }

  /** The dictionary holds a reference exactly when it reads as an image that is looked up. */
  lemma RemoteImagesMean(refs: seq<string>, e: RemoteImage)
    ensures e in RemoteImages(refs) <==>
            e.ref in refs && ParseImageRef(e.ref) == Some(e.image) && IsLookedUp(e.image)
  {
    RemoteImagesHold(refs, e);
    SkipMeans(e.image);
  }

  // ----- What is replaced -----

  /** The latest tag is known and another one, and `after` is the repository with it. */
  predicate BecomesNew(e: RemoteImage, latest: LatestTags, after: string) {
    var key := (e.image.repository, e.image.tag);
    key in latest && latest[key].Some? && latest[key] != e.image.tag &&
    after == e.image.repository + ":" + latest[key].value && after != e.ref
  }

  lemma NewRefMeans(e: RemoteImage, latest: LatestTags, after: string)
    ensures NewRef(e, latest) == Some(after) <==> BecomesNew(e, latest, after)
  {
  }

  /** Tagged `latest`, in a repository with an owner. */
  ghost predicate ReplacesBareName(e: RemoteImage) {
    e.image.tag == Some("latest") && e.ref != e.image.repository &&
    exists owner, name :: e.image.repository == owner + "/" + name
  }

  lemma BareNameMeans(e: RemoteImage)
    ensures CoversBareRef(e) <==> ReplacesBareName(e)
  {
    var repository := e.image.repository;
    if '/' in repository {
      var k :| 0 <= k < |repository| && repository[k] == '/';
      assert repository == repository[..k] + "/" + repository[k + 1..];
    }
    if owner, name :| repository == owner + "/" + name { assert repository[|owner|] == '/'; }
  }

  /** Every outdated reference is replaced by its repository with the latest tag, and with one tagged
      `latest` also the bare name of a repository with an owner; nothing else is replaced. */
  lemma ReplacementsMean(images: seq<RemoteImage>, latest: LatestTags, m: map<string, string>)
    requires Collected(images, latest, m)
    ensures && (forall e, after :: e in images && BecomesNew(e, latest, after) ==>
                  e.ref in m && m[e.ref] == after && (ReplacesBareName(e) ==> e.image.repository in m))
            && (forall key :: key in m ==>
                  exists e :: e in images && BecomesNew(e, latest, m[key]) &&
                              (key == e.ref || (key == e.image.repository && ReplacesBareName(e))))
  {
    forall e, after | e in images && BecomesNew(e, latest, after)
      ensures e.ref in m && m[e.ref] == after && (ReplacesBareName(e) ==> e.image.repository in m)
    {
      NewRefMeans(e, latest, after);
      BareNameMeans(e);
      assert Kept(e, latest, m);
    }
    forall key | key in m
      ensures exists e :: e in images && BecomesNew(e, latest, m[key]) &&
                          (key == e.ref || (key == e.image.repository && ReplacesBareName(e)))
    {
      assert Justified(key, images, latest, m);
      var e :| e in images && Replaces(e, latest, key, m[key]);
      NewRefMeans(e, latest, m[key]);
      BareNameMeans(e);
    }
  }
}
