/** Image references: reading them, and collecting which of them are to be replaced by what. */
module ContainerImages {
  import opened Prelude
  import opened Text
  import ContainerRefs

  datatype ContainerImage = ContainerImage(repository: string, tag: Option<string>, digest: Option<string>)

  // ----- References -----

  predicate IsVariable(ref: string) {
    |ref| >= 2 && ref[0] == '$' && ref[1] == '{'
  }

  function ParseImageRef(ref: string): Option<ContainerImage> {
    if IsVariable(ref) then None
    else
      var at := FirstIndex(ref, '@');
      var plain := ref[..at];
      var colon := LastIndex(plain, ':');
      var tagged := colon > LastIndex(plain, '/');
      var repository := if tagged then plain[..colon] else plain;
      var tag := if tagged then plain[colon + 1..] else "";
      if repository == "" then None
      else Some(ContainerImage(
                  repository,
                  if tag == "" then None else Some(tag),
                  if at < |ref| then Some(ref[at + 1..]) else None))
  }

  function RefWithTag(image: ContainerImage, tag: string): string {
    image.repository + ":" + tag
  }

  predicate ShouldSkip(image: ContainerImage) {
    image.digest.Some? || image.repository == "scratch" || "localhost/" <= image.repository ||
    image.tag == Some("local")
  }

  predicate IsTag(tag: string) {
    tag != "" && ':' !in tag && '/' !in tag && '@' !in tag
  }

  predicate IsRepository(repository: string) {
    repository != "" && '@' !in repository && !IsVariable(repository)
  }

  /** What can be read back after writing is a repository and a tag without separators. */
  lemma ReadBackIsWellFormed(repository: string, tag: string)
    requires var image := ContainerImage(repository, Some(tag), None);
             ParseImageRef(RefWithTag(image, tag)) == Some(image)
    ensures IsRepository(repository) && IsTag(tag)
  {
  }

  /** Reading a written reference gives back its repository and tag exactly when the tag holds no
      separator and the repository is one. */
  lemma WrittenRefIsRead(repository: string, tag: string)
    ensures var image := ContainerImage(repository, Some(tag), None);
            ParseImageRef(RefWithTag(image, tag)) == Some(image) <==> IsRepository(repository) && IsTag(tag)
  {
    var image := ContainerImage(repository, Some(tag), None);
    var ref := RefWithTag(image, tag);
    if IsRepository(repository) && IsTag(tag) {
      assert ref[..|repository|] == repository && ref[|repository| + 1..] == tag && ref[|repository|] == ':';
      FirstIndexOfNone(ref, '@');
      assert ref[..|ref|] == ref;
      LastIndexIs(ref, ':', |repository|);
    }
    if ParseImageRef(ref) == Some(image) {
      ReadBackIsWellFormed(repository, tag);
    }
  }

  function WithDigest(ref: string, digest: Option<string>): string {
    match digest
    case None => ref
    case Some(d) => ref + "@" + d
  }

  /** A digest is read along with repository and tag, and does not disturb them. */
  lemma WrittenDigestIsRead(repository: string, tag: string, digest: Option<string>)
    requires IsRepository(repository) && IsTag(tag)
    ensures var image := ContainerImage(repository, Some(tag), digest);
            ParseImageRef(WithDigest(RefWithTag(image, tag), digest)) == Some(image)
  {
    var plain := repository + ":" + tag;
    var ref := WithDigest(plain, digest);
    var image := ContainerImage(repository, Some(tag), None);
    WrittenRefIsRead(repository, tag);
    FirstIndexOfNone(plain, '@');
    assert plain[..|plain|] == plain;
    match digest
    case None =>
    case Some(d) =>
      assert forall k :: 0 <= k < |plain| ==> ref[k] == plain[k];
      FirstIndexIs(ref, '@', |plain|);
      assert ref[..|plain|] == plain && ref[|plain| + 1..] == d;
  }

  /** A reference without digest is written back from what was read. */
  lemma ReadRefIsWritten(ref: string)
    requires ParseImageRef(ref).Some? && ParseImageRef(ref).value.digest.None?
    ensures var image := ParseImageRef(ref).value;
            IsRepository(image.repository) &&
            match image.tag
            case Some(tag) => RefWithTag(image, tag) == ref
            case None => ref == image.repository || ref == RefWithTag(image, "")
  {
    var image := ParseImageRef(ref).value;
    assert FirstIndex(ref, '@') == |ref| && ref[..|ref|] == ref;
    assert |image.repository| <= |ref| && forall k :: 0 <= k < |image.repository| ==> image.repository[k] == ref[k];
  }

  // ----- The images of a repository -----

  /** One entry of the dictionary of images: the reference and what it was read as. */
  datatype RemoteImage = RemoteImage(ref: string, image: ContainerImage)

  function RemoteImages(refs: seq<string>): seq<RemoteImage> {
    if refs == [] then []
    else
      var rest, ref := RemoteImages(refs[..|refs| - 1]), refs[|refs| - 1];
      match ParseImageRef(ref)
      case None => rest
      case Some(image) => if ShouldSkip(image) then rest else rest + [RemoteImage(ref, image)]
  }

  ghost predicate Distinct(refs: seq<string>) {
    forall a, b :: 0 <= a < b < |refs| ==> refs[a] != refs[b]
  }

  /** The entries of the dictionary: distinct references that read as their image, no digests. */
  ghost predicate AreRemote(images: seq<RemoteImage>) {
    && (forall a, b :: 0 <= a < b < |images| ==> images[a].ref != images[b].ref)
    && forall e :: e in images ==> ParseImageRef(e.ref) == Some(e.image) && !ShouldSkip(e.image)
  }

  lemma {:induction false} RemoteImagesHold(refs: seq<string>, e: RemoteImage)
    ensures e in RemoteImages(refs) <==>
              e.ref in refs && ParseImageRef(e.ref) == Some(e.image) && !ShouldSkip(e.image)
  {
    if refs != [] {
      RemoteImagesHold(refs[..|refs| - 1], e);
      assert refs == refs[..|refs| - 1] + [refs[|refs| - 1]];
    }
  }

  lemma {:induction false} RemoteImagesDistinct(refs: seq<string>)
    requires Distinct(refs)
    ensures forall a, b :: 0 <= a < b < |RemoteImages(refs)| ==> RemoteImages(refs)[a].ref != RemoteImages(refs)[b].ref
  {
    if refs != [] {
      var rest, last := refs[..|refs| - 1], refs[|refs| - 1];
      RemoteImagesDistinct(rest);
      forall a | 0 <= a < |RemoteImages(rest)| ensures RemoteImages(rest)[a].ref != last {
        RemoteImagesHold(rest, RemoteImages(rest)[a]);
      }
    }
  }

  /** The dictionary of images holds exactly the references that read as an image to look up. */
  lemma {:induction false} RemoteImagesAreRemote(refs: seq<string>)
    requires Distinct(refs)
    ensures AreRemote(RemoteImages(refs))
    ensures forall e :: e in RemoteImages(refs) <==>
              e.ref in refs && ParseImageRef(e.ref) == Some(e.image) && !ShouldSkip(e.image)
  {
    RemoteImagesDistinct(refs);
    forall e
      ensures e in RemoteImages(refs) <==>
                e.ref in refs && ParseImageRef(e.ref) == Some(e.image) && !ShouldSkip(e.image)
    {
      RemoteImagesHold(refs, e);
    }
  }

  // ----- The replacements -----

  type LatestTags = map<(string, Option<string>), Option<string>>

  /** The new reference for an entry, if it gets one. */
  function NewRef(e: RemoteImage, latest: LatestTags): Option<string> {
    var key := (e.image.repository, e.image.tag);
    if key in latest && latest[key].Some? && latest[key] != e.image.tag &&
       RefWithTag(e.image, latest[key].value) != e.ref
    then Some(RefWithTag(e.image, latest[key].value)) else None
  }

  /** The bare repository is replaced along with its reference tagged `latest`. */
  predicate CoversBareRef(e: RemoteImage) {
    e.image.tag == Some("latest") && e.ref != e.image.repository && '/' in e.image.repository
  }

  function Replacements(images: seq<RemoteImage>, latest: LatestTags): map<string, string> {
    if images == [] then map[]
    else
      var rest, e := Replacements(images[..|images| - 1], latest), images[|images| - 1];
      match NewRef(e, latest)
      case None => rest
      case Some(newRef) => WithReplacement(rest, e, newRef)
  }

  function WithReplacement(rest: map<string, string>, e: RemoteImage, newRef: string): map<string, string> {
    var added := rest[e.ref := newRef];
    if CoversBareRef(e) && e.image.repository !in added then added[e.image.repository := newRef] else added
  }

  ghost predicate Replaces(e: RemoteImage, latest: LatestTags, before: string, after: string) {
    NewRef(e, latest) == Some(after) && (e.ref == before || (CoversBareRef(e) && e.image.repository == before))
  }

  /** A reference that gets a new one is replaced by it, and its bare repository is replaced too
      when it is to be covered. */
  ghost predicate Kept(e: RemoteImage, latest: LatestTags, m: map<string, string>) {
    NewRef(e, latest).Some? ==>
      e.ref in m && m[e.ref] == NewRef(e, latest).value && (CoversBareRef(e) ==> e.image.repository in m)
  }

  ghost predicate Justified(key: string, images: seq<RemoteImage>, latest: LatestTags, m: map<string, string>) {
    key in m ==> exists e :: e in images && Replaces(e, latest, key, m[key])
  }

  /** What is to be replaced is, and nothing else is. */
  ghost predicate Collected(images: seq<RemoteImage>, latest: LatestTags, m: map<string, string>) {
    (forall e :: e in images ==> Kept(e, latest, m)) && forall key :: Justified(key, images, latest, m)
  }

  lemma JustifiedByMore(key: string, rest: seq<RemoteImage>, last: RemoteImage, latest: LatestTags,
                        m: map<string, string>)
    requires Justified(key, rest, latest, m)
    ensures Justified(key, rest + [last], latest, m)
  {
  }

  lemma CollectOne(rest: seq<RemoteImage>, last: RemoteImage, latest: LatestTags, before: map<string, string>,
                   after: string)
    requires Collected(rest, latest, before) && NewRef(last, latest) == Some(after)
    requires forall e :: e in rest ==> e.ref != last.ref
    ensures Collected(rest + [last], latest, WithReplacement(before, last, after))
  {
    var images, m := rest + [last], WithReplacement(before, last, after);
    assert last in images;
    forall e | e in images ensures Kept(e, latest, m) {
      if e != last { assert Kept(e, latest, before) && e.ref != last.ref; }
    }
    forall key ensures Justified(key, images, latest, m) {
      if key in before && m[key] == before[key] {
        JustifiedByMore(key, rest, last, latest, before);
      } else if key in m {
        assert Replaces(last, latest, key, m[key]);
      }
    }
  }

  lemma CollectNothing(rest: seq<RemoteImage>, last: RemoteImage, latest: LatestTags, before: map<string, string>)
    requires Collected(rest, latest, before) && NewRef(last, latest) == None
    ensures Collected(rest + [last], latest, before)
  {
    forall key ensures Justified(key, rest + [last], latest, before) {
      JustifiedByMore(key, rest, last, latest, before);
    }
  }

  lemma {:induction false} ReplacementsAreCollected(images: seq<RemoteImage>, latest: LatestTags)
    requires forall a, b :: 0 <= a < b < |images| ==> images[a].ref != images[b].ref
    ensures Collected(images, latest, Replacements(images, latest))
  {
    if images != [] {
      var rest, last := images[..|images| - 1], images[|images| - 1];
      ReplacementsAreCollected(rest, latest);
      assert images == rest + [last];
      match NewRef(last, latest)
      case None => CollectNothing(rest, last, latest, Replacements(rest, latest));
      case Some(after) => CollectOne(rest, last, latest, Replacements(rest, latest), after);
    }
  }

  /** Collects the replacements in a dictionary, entry by entry. */
  method ContainerImageReplacements(images: seq<RemoteImage>, latest: LatestTags)
    returns (replacements: map<string, string>)
    requires forall a, b :: 0 <= a < b < |images| ==> images[a].ref != images[b].ref
    ensures Collected(images, latest, replacements) && replacements == Replacements(images, latest)
  {
    replacements := map[];
    for n := 0 to |images|
      invariant replacements == Replacements(images[..n], latest)
    {
      assert images[..n + 1][..n] == images[..n];
      var e := images[n];
      var key := (e.image.repository, e.image.tag);
      if key !in latest || latest[key].None? || latest[key] == e.image.tag {
        continue;
      }
      var newRef := RefWithTag(e.image, latest[key].value);
      if newRef != e.ref {
        replacements := replacements[e.ref := newRef];
        if CoversBareRef(e) && e.image.repository !in replacements {
          replacements := replacements[e.image.repository := newRef];
        }
      }
    }
    assert images[..|images|] == images;
    ReplacementsAreCollected(images, latest);
  }

  // ----- The replacements in the text -----

  /** `rs` lists the replacements of the dictionary, in any order. */
  ghost predicate Lists(rs: seq<ContainerRefs.Replacement>, m: map<string, string>) {
    && (forall k :: 0 <= k < |rs| ==> rs[k].before in m && m[rs[k].before] == rs[k].after)
    && (forall a, b :: 0 <= a < b < |rs| ==> rs[a].before != rs[b].before)
  }

  /** All references and all latest tags use reference characters only. */
  ghost predicate AreRefs(images: seq<RemoteImage>, latest: LatestTags) {
    && (forall e :: e in images ==> ContainerRefs.IsRef(e.ref))
    && (forall key :: key in latest && latest[key].Some? ==>
                        ContainerRefs.IsRef(latest[key].value) && IsTag(latest[key].value))
  }

  lemma PartsMakeRef(repository: string, tag: string)
    requires tag == "" || ContainerRefs.IsRef(tag)
    ensures ContainerRefs.IsRef(repository) && tag != "" ==> ContainerRefs.IsRef(repository + ":" + tag)
    ensures ContainerRefs.IsRef(repository + ":" + tag) && repository != "" ==> ContainerRefs.IsRef(repository)
  {
    var ref, n := repository + ":" + tag, |repository|;
    assert ref[n] == ':' && (forall k :: 0 <= k < n ==> ref[k] == repository[k]) &&
           forall k :: 0 <= k < |tag| ==> ref[n + 1 + k] == tag[k];
    forall k | 0 <= k < n && !ContainerRefs.Stops(ref, k) ensures !ContainerRefs.Stops(repository, k) { }
    forall k | 0 <= k < n && !ContainerRefs.Stops(repository, k) ensures !ContainerRefs.Stops(ref, k) { }
    forall k | 0 <= k < |tag| && !ContainerRefs.Stops(tag, k) ensures !ContainerRefs.Stops(ref, n + 1 + k) { }
    if ContainerRefs.IsRef(repository) && tag != "" {
      forall k | 0 <= k < |ref| ensures !ContainerRefs.Stops(ref, k) {
        if k < n {
          assert !ContainerRefs.Stops(repository, k);
        } else if k > n {
          assert !ContainerRefs.Stops(tag, k - n - 1);
        }
      }
    }
    if ContainerRefs.IsRef(ref) && repository != "" {
      forall k | 0 <= k < n ensures !ContainerRefs.Stops(repository, k) { assert !ContainerRefs.Stops(ref, k); }
    }
  }

  lemma RepositoryIsRef(e: RemoteImage)
    requires ParseImageRef(e.ref) == Some(e.image) && e.image.digest.None? && ContainerRefs.IsRef(e.ref)
    ensures ContainerRefs.IsRef(e.image.repository)
  {
    ReadRefIsWritten(e.ref);
    match e.image.tag
    case None => PartsMakeRef(e.image.repository, "");
    case Some(tag) =>
      forall k | 0 <= k < |e.image.repository| ensures !ContainerRefs.Stops(e.image.repository, k) {
        assert !ContainerRefs.Stops(e.ref, k) && !ContainerRefs.Stops(e.ref, k);
        assert e.ref[|e.image.repository|] == ':';
      }
  }

  lemma ReplacementIsProper(e: RemoteImage, latest: LatestTags, before: string, after: string)
    requires ParseImageRef(e.ref) == Some(e.image) && !ShouldSkip(e.image) && AreRefs([e], latest)
    requires Replaces(e, latest, before, after)
    ensures ContainerRefs.IsRef(before) && ContainerRefs.IsRef(after) && before != after
  {
    assert e in [e];
    RepositoryIsRef(e);
    PartsMakeRef(e.image.repository, latest[(e.image.repository, e.image.tag)].value);
    assert |after| > |e.image.repository|;
  }

  lemma ReplacedBy(images: seq<RemoteImage>, latest: LatestTags, before: string) returns (e: RemoteImage)
    requires AreRemote(images) && before in Replacements(images, latest)
    ensures e in images && Replaces(e, latest, before, Replacements(images, latest)[before])
  {
    ReplacementsAreCollected(images, latest);
    assert Justified(before, images, latest, Replacements(images, latest));
    e :| e in images && Replaces(e, latest, before, Replacements(images, latest)[before]);
  }

  /** The dictionary is what the rewriting of texts asks for. */
  lemma ReplacementsAreProper(images: seq<RemoteImage>, latest: LatestTags, rs: seq<ContainerRefs.Replacement>)
    requires AreRemote(images) && AreRefs(images, latest) && Lists(rs, Replacements(images, latest))
    ensures ContainerRefs.ProperReplacements(rs)
  {
    forall k | 0 <= k < |rs|
      ensures ContainerRefs.IsRef(rs[k].before) && ContainerRefs.IsRef(rs[k].after) && rs[k].before != rs[k].after
    {
      var e := ReplacedBy(images, latest, rs[k].before);
      ReplacementIsProper(e, latest, rs[k].before, rs[k].after);
    }
  }

  /** The latest tag of a latest tag is itself or none. */
  ghost predicate IsSettled(latest: LatestTags, key: (string, Option<string>)) {
    key in latest && latest[key].Some? ==>
      var next := (key.0, latest[key]);
      next in latest ==> latest[next] == None || latest[next] == latest[key]
  }

  /** This holds of every key, and no repository holds a tag. */
  ghost predicate Settled(images: seq<RemoteImage>, latest: LatestTags) {
    && (forall key :: IsSettled(latest, key))
    && (forall e :: e in images ==> HoldsNoTag(e.image.repository))
  }

  predicate HoldsNoTag(repository: string) {
    LastIndex(repository, ':') <= LastIndex(repository, '/')
  }

  lemma WrittenRefHoldsTag(repository: string, tag: string)
    requires IsTag(tag)
    ensures !HoldsNoTag(repository + ":" + tag)
  {
    var ref := repository + ":" + tag;
    assert ref[|repository|] == ':' && forall k :: 0 <= k < |tag| ==> ref[|repository| + 1 + k] == tag[k];
    LastIndexIs(ref, ':', |repository|);
  }

  lemma NewRefIsNotOld(images: seq<RemoteImage>, latest: LatestTags, a: RemoteImage, b: RemoteImage, after: string)
    requires AreRemote(images) && AreRefs(images, latest) && Settled(images, latest)
    requires a in images && b in images && NewRef(a, latest) == Some(after)
    ensures !(b.ref == after && NewRef(b, latest).Some?) && b.image.repository != after
  {
    var tag := latest[(a.image.repository, a.image.tag)].value;
    ReadRefIsWritten(a.ref);
    WrittenRefIsRead(a.image.repository, tag);
    WrittenRefHoldsTag(a.image.repository, tag);
    assert IsSettled(latest, (a.image.repository, a.image.tag));
    assert HoldsNoTag(b.image.repository);
  }

  /** When the latest tags are settled, no new reference is itself an old one. */
  lemma SettledTagsDoNotChain(images: seq<RemoteImage>, latest: LatestTags, rs: seq<ContainerRefs.Replacement>)
    requires AreRemote(images) && AreRefs(images, latest)
    requires Settled(images, latest) && Lists(rs, Replacements(images, latest))
    ensures ContainerRefs.Chainless(rs)
  {
    forall i, j | 0 <= i < |rs| && 0 <= j < |rs| ensures rs[i].after != rs[j].before {
      var a := ReplacedBy(images, latest, rs[i].before);
      var b := ReplacedBy(images, latest, rs[j].before);
      NewRefIsNotOld(images, latest, a, b, rs[i].after);
    }
  }

  /** Then the whole rewriting of a text is one pass, in every order, and doing it again changes nothing. */
  lemma ImagesAreReplacedAtOnce(images: seq<RemoteImage>, latest: LatestTags, rs: seq<ContainerRefs.Replacement>,
                                text: string)
    requires AreRemote(images) && AreRefs(images, latest)
    requires Settled(images, latest) && Lists(rs, Replacements(images, latest))
    ensures ContainerRefs.ProperReplacements(rs)
    ensures ContainerRefs.Sequential(text, rs) == ContainerRefs.Simultaneous(text, rs)
    ensures ContainerRefs.Sequential(ContainerRefs.Sequential(text, rs), rs) == ContainerRefs.Sequential(text, rs)
  {
    ReplacementsAreProper(images, latest, rs);
    SettledTagsDoNotChain(images, latest, rs);
    ContainerRefs.SequentialIsSimultaneous(text, rs);
    ContainerRefs.RewritingAgainChangesNothing(text, rs);
  }
}
