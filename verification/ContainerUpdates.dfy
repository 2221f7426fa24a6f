/**
 From lists of tags to rewritten references: which replacements the updater's own choice of tags
 leads to, and when rewriting with them is one pass.
 */
module ContainerUpdates {
  import opened Prelude
  import opened Versions
  import opened ContainerTags
  import opened ContainerTagChoice
  import opened ContainerImages
  import ContainerRefs

  /** The listed tags by repository; a repository that cannot be reached has none. */
  type TagLists = map<string, seq<string>>

  function TagsOf(lists: TagLists, repository: string): seq<string> {
    if repository in lists then lists[repository] else []
  }

  /** The latest tags as the updater resolves them. */
  function Resolved(images: seq<RemoteImage>, lists: TagLists): LatestTags {
    map e | e in images ::
      (e.image.repository, e.image.tag) := LatestTag(e.image.repository, e.image.tag, TagsOf(lists, e.image.repository))
  }

  // ----- When the updater rests -----

  lemma LatestIsUnranked()
    ensures RankOf("latest").None?
  {
    RankedIffParsed("latest");
    forall p | 0 <= p <= 6 ensures !MatchesAt("latest", p) {
      assert ReleaseEnd("latest", p) == p;
    }
  }

  lemma NotAmongItsPins(tags: seq<string>, tag: string)
    requires BestPinned(tag, tags).Some?
    ensures BestPinned(tag, tags).value != tag
  {
    BestHolds(tags, PinsOf(tag));
  }

  /** The updater does not move from a tag if and only if the tag is the best of its variant and no
      ranked listed tag pins it. */
  lemma RestsIff(repository: string, tag: string, tags: seq<string>)
    ensures Choose(repository, tag, tags).None? <==>
            !CanMoveInVariant(repository, tag, tags) && forall j :: 0 <= j < |tags| ==> !Ranks(tags[j], PinsOf(tag))
  {
    BestIsFirstGreatest(tags, PinsOf(tag));
    if BestPinned(tag, tags).Some? { NotAmongItsPins(tags, tag); }
  }

  lemma BestOfAllStays(repository: string, tags: seq<string>)
    requires Best(tags).Some?
    ensures !CanMoveInVariant(repository, Best(tags).value, tags)
  {
    var best, narrow := Best(tags).value, VariantOf(repository, Best(tags).value);
    FilterAll(tags, EVERY_TAG);
    BestHolds(tags, EVERY_TAG);
    var k :| FirstGreatestAt(tags, EVERY_TAG, k) && tags[k] == best;
    RanksInItsVariant(repository, best);
    StaysGreatest(tags, EVERY_TAG, narrow, k);
    FirstGreatestIsBest(tags, narrow, k);
  }

  /** After a move to the best tag of all or of the variant, only a tag that pins the new one can make
      the updater move again. */
  lemma RestsUnlessPinned(repository: string, current: Option<string>, tags: seq<string>)
    requires LatestTag(repository, current, tags).Some?
    requires current.None? || current.value == "latest" || CanMoveInVariant(repository, current.value, tags)
    ensures var latest := LatestTag(repository, current, tags).value;
            Choose(repository, latest, tags).None? <==> forall j :: 0 <= j < |tags| ==> !Ranks(tags[j], PinsOf(latest))
  {
    var latest := LatestTag(repository, current, tags).value;
    if current.None? || current.value == "latest" {
      BestOfAllStays(repository, tags);
    } else {
      SameVariantIsIdempotent(repository, current.value, tags);
    }
    RestsIff(repository, latest, tags);
  }

  // ----- When the resolved tags are settled -----

  predicate Uses(e: RemoteImage, repository: string, tag: string) {
    e.image.repository == repository && e.image.tag == Some(tag)
  }

  ghost predicate IsUsed(images: seq<RemoteImage>, repository: string, tag: string) {
    exists e :: e in images && Uses(e, repository, tag)
  }

  /** If the tag this image moves to is in use as well, the updater rests there. */
  ghost predicate ComesToRest(images: seq<RemoteImage>, lists: TagLists, e: RemoteImage) {
    var repository, tags := e.image.repository, TagsOf(lists, e.image.repository);
    var latest := LatestTag(repository, e.image.tag, tags);
    latest.Some? && IsUsed(images, repository, latest.value) ==> Choose(repository, latest.value, tags).None?
  }

  lemma ResolvedTag(images: seq<RemoteImage>, lists: TagLists, e: RemoteImage)
    requires e in images
    ensures var key := (e.image.repository, e.image.tag);
            key in Resolved(images, lists) &&
            Resolved(images, lists)[key] ==
              LatestTag(e.image.repository, e.image.tag, TagsOf(lists, e.image.repository))
  {
  }

  lemma ResolvedKey(images: seq<RemoteImage>, lists: TagLists, key: (string, Option<string>)) returns (e: RemoteImage)
    requires key in Resolved(images, lists)
    ensures e in images && key == (e.image.repository, e.image.tag)
  {
    e :| e in images && key == (e.image.repository, e.image.tag);
  }

  /** What the updater resolves for the tag that it moves an image to. */
  lemma ResolvedAgain(repository: string, current: Option<string>, tags: seq<string>)
    requires LatestTag(repository, current, tags).Some?
    ensures var latest := LatestTag(repository, current, tags);
            LatestTag(repository, latest, tags) == Choose(repository, latest.value, tags) != latest
  {
    LatestTagIsListed(repository, current, tags);
    LatestIsUnranked();
    var latest := LatestTag(repository, current, tags).value;
    if Choose(repository, latest, tags).Some? { ChosenIsListed(repository, latest, tags); }
  }

  lemma SettledAtIff(images: seq<RemoteImage>, lists: TagLists, e: RemoteImage)
    requires e in images
    ensures IsSettled(Resolved(images, lists), (e.image.repository, e.image.tag)) <==> ComesToRest(images, lists, e)
  {
    var repository, tags := e.image.repository, TagsOf(lists, e.image.repository);
    var latest := LatestTag(repository, e.image.tag, tags);
    ResolvedTag(images, lists, e);
    if latest.Some? {
      ResolvedAgain(repository, e.image.tag, tags);
      if (repository, latest) in Resolved(images, lists) {
        var f := ResolvedKey(images, lists, (repository, latest));
        assert Uses(f, repository, latest.value);
        ResolvedTag(images, lists, f);
      } else if IsUsed(images, repository, latest.value) {
        var f :| f in images && Uses(f, repository, latest.value);
        ResolvedTag(images, lists, f);
      }
    }
  }

  /** The tags that the updater resolves are settled if and only if each image whose new tag is in use
      as well comes to rest there. */
  lemma ResolvedIsSettledIff(images: seq<RemoteImage>, lists: TagLists)
    ensures (forall key :: IsSettled(Resolved(images, lists), key)) <==>
            forall e :: e in images ==> ComesToRest(images, lists, e)
  {
    forall e | e in images
      ensures IsSettled(Resolved(images, lists), (e.image.repository, e.image.tag)) <==> ComesToRest(images, lists, e)
    {
      SettledAtIff(images, lists, e);
    }
    if forall e :: e in images ==> ComesToRest(images, lists, e) {
      forall key ensures IsSettled(Resolved(images, lists), key) {
        if key in Resolved(images, lists) { var e := ResolvedKey(images, lists, key); }
      }
    }
  }

  // ----- One pass or two -----

  /** What the images and their lists of tags have to satisfy for one pass. */
  ghost predicate Rested(images: seq<RemoteImage>, lists: TagLists) {
    && AreRemote(images) && AreRefs(images, Resolved(images, lists))
    && (forall e :: e in images ==> ComesToRest(images, lists, e) && HoldsNoTag(e.image.repository))
  }

  /** Then rewriting a text with the updater's own replacements is one simultaneous pass, whatever
      their order, and doing it again changes nothing. */
  lemma UpdatesAreMadeAtOnce(images: seq<RemoteImage>, lists: TagLists, rs: seq<ContainerRefs.Replacement>,
                             text: string)
    requires Rested(images, lists) && Lists(rs, Replacements(images, Resolved(images, lists)))
    ensures ContainerRefs.ProperReplacements(rs)
    ensures ContainerRefs.Sequential(text, rs) == ContainerRefs.Simultaneous(text, rs)
    ensures ContainerRefs.Sequential(ContainerRefs.Sequential(text, rs), rs) == ContainerRefs.Sequential(text, rs)
  {
    ResolvedIsSettledIff(images, lists);
    ImagesAreReplacedAtOnce(images, Resolved(images, lists), rs, text);
  }

  function Image(repository: string, tag: string): RemoteImage {
    RemoteImage(repository + ":" + tag, ContainerImage(repository, Some(tag), None))
  }

  /** The tags of a repository: one, and a lower version that pins it. */
  ghost predicate ListsPinned(repository: string, version: string, parts: seq<string>, current: string) {
    && Spells(version, 0, |version|, parts) && OneLine(current, |current|) && Build("-" + current).None?
    && RankOf(current).Some? && (RankOf(current).value.kind == 2 || KeyLess(Numbers(parts), RankOf(current).value.key))
  }

  lemma HighestIsBest(repository: string, version: string, parts: seq<string>, current: string)
    requires ListsPinned(repository, version, parts, current)
    ensures Best([current, PinnedTo(version, current)]) == Some(current)
  {
    var tags := [current, PinnedTo(version, current)];
    PinnedTagCanGoDown(repository, version, parts, current);
    RanksTotallyOrdered(RankOf(tags[0]).value, RankOf(tags[1]).value, RankOf(tags[0]).value);
    FilterAll(tags, EVERY_TAG);
    FirstGreatestIsBest(tags, EVERY_TAG, 0);
  }

  lemma RankedIsNotLatest(tag: string)
    requires RankOf(tag).Some?
    ensures tag != "latest"
  {
    LatestIsUnranked();
  }

  /** The replacements of an image tagged `latest` and of one tagged with what it moves to. */
  function Follow(repository: string, current: string): ContainerRefs.Replacement {
    ContainerRefs.Replacement(Image(repository, "latest").ref, Image(repository, current).ref)
  }

  function Move(repository: string, current: string, tag: string): ContainerRefs.Replacement {
    ContainerRefs.Replacement(Image(repository, current).ref, Image(repository, tag).ref)
  }

  /** Otherwise the replacements can chain: with an image tagged `latest` and one tagged with the
      highest listed tag, which a lower listed tag pins, the new reference of the first is the old one
      of the second. */
  lemma UnrestedTagsChain(repository: string, version: string, parts: seq<string>, current: string)
    requires ListsPinned(repository, version, parts, current)
    ensures var a, b, tag := Image(repository, "latest"), Image(repository, current), PinnedTo(version, current);
            var latest := Resolved([a, b], map[repository := [current, tag]]);
            !ComesToRest([a, b], map[repository := [current, tag]], a) &&
            NewRef(a, latest) == Some(b.ref) && NewRef(b, latest) == Some(Image(repository, tag).ref) != Some(b.ref)
  {
    var a, b, tag := Image(repository, "latest"), Image(repository, current), PinnedTo(version, current);
    var images, lists := [a, b], map[repository := [current, tag]];
    HighestIsBest(repository, version, parts, current);
    PinnedTagCanGoDown(repository, version, parts, current);
    RankedIsNotLatest(current);
    assert a in images && b in images && Uses(b, repository, current);
    ResolvedTag(images, lists, a);
    ResolvedTag(images, lists, b);
    assert a.ref[|repository| + 1..] == "latest" && b.ref[|repository| + 1..] == current;
    assert Image(repository, tag).ref[|repository| + 1..] == tag && |tag| > |current|;
  }

  /** Longest first, this chain is followed, and the text not rewritten in one pass, exactly when the
      highest tag is shorter than `latest`, or as long and substituted after it. */
  lemma ChainIsFollowedIff(repository: string, current: string, tag: string, rs: seq<ContainerRefs.Replacement>)
    requires tag != "latest" && current != "latest" && tag != current
    requires var a, b := Follow(repository, current), Move(repository, current, tag); rs == [a, b] || rs == [b, a]
    requires ContainerRefs.LongestFirst(rs)
    ensures ContainerRefs.NoForwardChain(rs) <==>
            |current| > 6 || (|current| == 6 && rs == [Move(repository, current, tag), Follow(repository, current)])
  {
    var a, b := Follow(repository, current), Move(repository, current, tag);
    var n := |repository| + 1;
    assert a.before[n..] == "latest" && b.before[n..] == current && b.after[n..] == tag;
    assert a.after == b.before && b.after != a.before;
    assert rs == [a, b] ==> rs[0] == a && rs[1] == b;
    assert rs == [b, a] ==> rs[0] == b && rs[1] == a;
  }

  // ----- A second run -----

  /** The reference after replacing: as the dictionary says, or as it was. */
  function Updated(m: map<string, string>, ref: string): string {
    if ref in m then m[ref] else ref
  }

  /** What a second run finds: the references of the first run, replaced. */
  ghost predicate Recollects(refs: seq<string>, m: map<string, string>, again: seq<string>) {
    Distinct(refs) && Distinct(again) && forall ref :: ref in again <==> exists r :: r in refs && ref == Updated(m, r)
  }

  lemma NothingReplacedIff(images: seq<RemoteImage>, latest: LatestTags)
    requires AreRemote(images)
    ensures Replacements(images, latest) == map[] <==> NoneReplaced(images, latest)
  {
    ReplacementsAreCollected(images, latest);
    var m := Replacements(images, latest);
    if m == map[] {
      forall e | e in images ensures NewRef(e, latest).None? { assert Kept(e, latest, m); }
    }
    if NoneReplaced(images, latest) {
      forall key ensures key !in m { assert Justified(key, images, latest, m); }
    }
  }

  /** Rests at the tag it moves this image to. */
  predicate RestsAfter(lists: TagLists, e: RemoteImage) {
    var repository, tags := e.image.repository, TagsOf(lists, e.image.repository);
    var latest := LatestTag(repository, e.image.tag, tags);
    latest.Some? ==> Choose(repository, latest.value, tags).None?
  }

  lemma SameAgain(images: seq<RemoteImage>, again: seq<RemoteImage>, lists: TagLists, e: RemoteImage)
    requires e in images && e in again
    ensures NewRef(e, Resolved(again, lists)) == NewRef(e, Resolved(images, lists))
  {
    ResolvedTag(images, lists, e);
    ResolvedTag(again, lists, e);
  }

  lemma LocalIsUnranked()
    ensures RankOf("local").None?
  {
    RankedIffParsed("local");
    forall p | 0 <= p <= 5 ensures !MatchesAt("local", p) {
      assert ReleaseEnd("local", p) == p;
    }
  }

  /** The new reference of an image reads as an image to look up, with the tag it moved to. */
  lemma NewRefIsImage(e: RemoteImage, lists: TagLists, images: seq<RemoteImage>, after: string) returns (f: RemoteImage)
    requires AreRemote(images) && AreRefs(images, Resolved(images, lists)) && e in images
    requires NewRef(e, Resolved(images, lists)) == Some(after)
    ensures f.ref == after && ParseImageRef(after) == Some(f.image) && !ShouldSkip(f.image)
    ensures f.image.repository == e.image.repository && f.image.digest == None
    ensures f.image.tag.Some?
    ensures f.image.tag == LatestTag(e.image.repository, e.image.tag, TagsOf(lists, e.image.repository))
  {
    var repository, tags := e.image.repository, TagsOf(lists, e.image.repository);
    ResolvedTag(images, lists, e);
    var tag := LatestTag(repository, e.image.tag, tags).value;
    ReadRefIsWritten(e.ref);
    WrittenRefIsRead(repository, tag);
    LatestTagIsListed(repository, e.image.tag, tags);
    LocalIsUnranked();
    f := RemoteImage(after, ContainerImage(repository, Some(tag), None));
  }

  lemma MovedAgainIff(e: RemoteImage, f: RemoteImage, lists: TagLists, again: seq<RemoteImage>)
    requires f in again && f.image.repository == e.image.repository && f.image.tag.Some?
    requires f.image.tag == LatestTag(e.image.repository, e.image.tag, TagsOf(lists, e.image.repository))
    requires f.ref == RefWithTag(f.image, f.image.tag.value)
    ensures NewRef(f, Resolved(again, lists)).None? <==> RestsAfter(lists, e)
  {
    var repository, tags := e.image.repository, TagsOf(lists, e.image.repository);
    ResolvedTag(again, lists, f);
    ResolvedAgain(repository, e.image.tag, tags);
    var next := Choose(repository, f.image.tag.value, tags);
    if next.Some? {
      var n := |repository| + 1;
      assert RefWithTag(f.image, next.value)[n..] == next.value && f.ref[n..] == f.image.tag.value;
    }
  }

  /** What a run needs: references and tags made of reference characters. */
  ghost predicate IsRun(refs: seq<string>, lists: TagLists) {
    Distinct(refs) && AreRefs(RemoteImages(refs), Resolved(RemoteImages(refs), lists))
  }

  lemma MovedIsAgain(refs: seq<string>, lists: TagLists, again: seq<string>, e: RemoteImage) returns (f: RemoteImage)
    requires IsRun(refs, lists) && e in RemoteImages(refs)
    requires Recollects(refs, Replacements(RemoteImages(refs), Resolved(RemoteImages(refs), lists)), again)
    requires NewRef(e, Resolved(RemoteImages(refs), lists)).Some?
    ensures f in RemoteImages(again)
    ensures NewRef(f, Resolved(RemoteImages(again), lists)).None? <==> RestsAfter(lists, e)
  {
    var images := RemoteImages(refs);
    var latest := Resolved(images, lists);
    RemoteImagesAreRemote(refs);
    RemoteImagesAreRemote(again);
    ReplacementsAreCollected(images, latest);
    assert Kept(e, latest, Replacements(images, latest));
    f := NewRefIsImage(e, lists, images, NewRef(e, latest).value);
    assert e.ref in refs && f.ref == Updated(Replacements(images, latest), e.ref);
    ResolvedTag(images, lists, e);
    MovedAgainIff(e, f, lists, RemoteImages(again));
  }

  /** The updater rests at every tag it moves one of these images to. */
  ghost predicate RestsAfterAll(refs: seq<string>, lists: TagLists) {
    var images := RemoteImages(refs);
    forall e :: e in images && NewRef(e, Resolved(images, lists)).Some? ==> RestsAfter(lists, e)
  }

  ghost predicate NoneReplaced(images: seq<RemoteImage>, latest: LatestTags) {
    forall e :: e in images ==> NewRef(e, latest).None?
  }

  lemma AgainIsSettled(refs: seq<string>, lists: TagLists, again: seq<string>, f: RemoteImage)
    requires IsRun(refs, lists) && f in RemoteImages(again)
    requires Recollects(refs, Replacements(RemoteImages(refs), Resolved(RemoteImages(refs), lists)), again)
    requires RestsAfterAll(refs, lists)
    ensures NewRef(f, Resolved(RemoteImages(again), lists)).None?
  {
    var images := RemoteImages(refs);
    var latest := Resolved(images, lists);
    var m := Replacements(images, latest);
    RemoteImagesAreRemote(refs);
    RemoteImagesAreRemote(again);
    var ref :| ref in refs && f.ref == Updated(m, ref);
    if ref in m {
      var e := ReplacedBy(images, latest, ref);
      var g := NewRefIsImage(e, lists, images, m[ref]);
      assert g == f;
      ResolvedTag(images, lists, e);
      MovedAgainIff(e, f, lists, RemoteImages(again));
    } else {
      ReplacementsAreCollected(images, latest);
      assert f in images && Kept(f, latest, m);
      SameAgain(images, RemoteImages(again), lists, f);
    }
  }

  lemma RestsWhenNoneReplaced(refs: seq<string>, lists: TagLists, again: seq<string>)
    requires IsRun(refs, lists)
    requires Recollects(refs, Replacements(RemoteImages(refs), Resolved(RemoteImages(refs), lists)), again)
    requires NoneReplaced(RemoteImages(again), Resolved(RemoteImages(again), lists))
    ensures RestsAfterAll(refs, lists)
  {
    var images := RemoteImages(refs);
    forall e | e in images && NewRef(e, Resolved(images, lists)).Some? ensures RestsAfter(lists, e) {
      var f := MovedIsAgain(refs, lists, again, e);
    }
  }

  lemma NoneReplacedWhenResting(refs: seq<string>, lists: TagLists, again: seq<string>)
    requires IsRun(refs, lists) && RestsAfterAll(refs, lists)
    requires Recollects(refs, Replacements(RemoteImages(refs), Resolved(RemoteImages(refs), lists)), again)
    ensures NoneReplaced(RemoteImages(again), Resolved(RemoteImages(again), lists))
  {
    var images := RemoteImages(again);
    forall f | f in images ensures NewRef(f, Resolved(images, lists)).None? { AgainIsSettled(refs, lists, again, f); }
  }

  /** A second run, which collects the replaced references and looks up the same lists of tags, replaces
      nothing if and only if the updater rests at every tag that the first run moved an image to. */
  lemma SecondRunIff(refs: seq<string>, lists: TagLists, again: seq<string>)
    requires IsRun(refs, lists)
    requires Recollects(refs, Replacements(RemoteImages(refs), Resolved(RemoteImages(refs), lists)), again)
    ensures Replacements(RemoteImages(again), Resolved(RemoteImages(again), lists)) == map[] <==>
            RestsAfterAll(refs, lists)
  {
    RemoteImagesAreRemote(again);
    NothingReplacedIff(RemoteImages(again), Resolved(RemoteImages(again), lists));
    if NoneReplaced(RemoteImages(again), Resolved(RemoteImages(again), lists)) {
      RestsWhenNoneReplaced(refs, lists, again);
    }
    if RestsAfterAll(refs, lists) { NoneReplacedWhenResting(refs, lists, again); }
  }
}
