/** Removing outdated images (`prune`, `_remove`) from a Docker daemon. */
module ImagePrune {
  import opened Images
  import opened Sorting
  import opened Wrappers

  /** The images of the daemon by id. */
  type Daemon = map<string, LocalImage>

  predicate SameTag(a: Ref, b: Ref) {
    a.repo == b.repo && a.tag == b.tag
  }

  /** How a daemon names its images: no id reads like a tag, a tag belongs to one image and is
      listed once, and it reads the same when it is written back. */
  ghost predicate WellNamed(daemon: Daemon) {
    && (forall id :: id in daemon ==> daemon[id].id == id)
    && (forall id, t :: id in daemon && t in daemon[id].tags ==>
          ParseRef(t).tag != "" && SameTag(ParseRef(TagText(ParseRef(t))), ParseRef(t)) && TagText(ParseRef(t)) !in daemon)
    && (forall i, j, a, b :: i in daemon && j in daemon && 0 <= a < |daemon[i].tags| && 0 <= b < |daemon[j].tags| ==>
          SameTag(ParseRef(daemon[i].tags[a]), ParseRef(daemon[j].tags[b])) ==> i == j && a == b)
  }

  predicate CarriesTag(image: LocalImage, p: Ref) {
    exists t :: t in image.tags && SameTag(ParseRef(t), p)
  }

  predicate CarriesDigest(image: LocalImage, p: Ref) {
    exists d :: d in image.digests && ParseRef(d).repo == p.repo && ParseRef(d).digest == p.digest
  }

  /** Whether the daemon has the image a reference means: a digest decides if there is one. */
  predicate Resolves(daemon: Daemon, ref: string) {
    var p := ParseRef(ref);
    exists id :: id in daemon && if p.digest != "" then CarriesDigest(daemon[id], p) else CarriesTag(daemon[id], p)
  }

  // ---------------------------------------------------------------- docker image rm

  function WithoutTag(tags: seq<string>, p: Ref): (r: seq<string>)
    ensures forall t :: t in r <==> t in tags && !SameTag(ParseRef(t), p)
  {
    if tags == [] then []
    else (if SameTag(ParseRef(tags[0]), p) then [] else [tags[0]]) + WithoutTag(tags[1..], p)
  }

  /** A daemon that takes tags off one image: the image goes with its last one. */
  function Untagged(daemon: Daemon, id: string, p: Ref): Daemon
    requires id in daemon
  {
    var rest := WithoutTag(daemon[id].tags, p);
    if rest == [] then daemon - {id} else daemon[id := daemon[id].(tags := rest)]
  }

  /** Every image but `id` is as it was, and `id` has at most lost tags. */
  ghost predicate OnlyShrinks(before: Daemon, after: Daemon, id: string) {
    && after.Keys <= before.Keys && (forall k :: k in before && k != id ==> k in after && after[k] == before[k])
    && (id in after ==> after[id].id == before[id].id && after[id].digests == before[id].digests
                        && forall t :: t in after[id].tags ==> t in before[id].tags)
  }

  lemma {:induction false} NoTagGoes(tags: seq<string>, p: Ref)
    requires forall i :: 0 <= i < |tags| ==> !SameTag(ParseRef(tags[i]), p)
    ensures WithoutTag(tags, p) == tags
  {
    hide ParseRef;
    if tags != [] {
      NoTagGoes(tags[1..], p);
    }
  }

  /** Images and the first of their tags go without harm to the names. */
  lemma FewerIsWellNamed(before: Daemon, after: Daemon)
    requires WellNamed(before) && after.Keys <= before.Keys
    requires forall k :: k in after ==> after[k].id == before[k].id
    requires forall k :: k in after ==>
               after[k].tags == before[k].tags || (before[k].tags != [] && after[k].tags == before[k].tags[1..])
    ensures WellNamed(after)
  {
    hide ParseRef;
    forall i, j, a, b | i in after && j in after && 0 <= a < |after[i].tags| && 0 <= b < |after[j].tags|
                        && SameTag(ParseRef(after[i].tags[a]), ParseRef(after[j].tags[b]))
      ensures i == j && a == b
    {
      var a', b' := if after[i].tags == before[i].tags then a else a + 1, if after[j].tags == before[j].tags then b else b + 1;
      assert before[i].tags[a'] == after[i].tags[a] && before[j].tags[b'] == after[j].tags[b];
    }
  }

  ghost predicate NamesTag(t: string, p: Ref) {
    SameTag(ParseRef(t), p)
  }

  /** The tag that is written back belongs to no other image and to no other place. */
  lemma FirstTagIsItsOwn(daemon: Daemon, id: string, found: string, at: nat)
    requires WellNamed(daemon) && id in daemon && daemon[id].tags != [] && found in daemon && at < |daemon[found].tags|
    requires NamesTag(daemon[found].tags[at], ParseRef(TagText(ParseRef(daemon[id].tags[0]))))
    ensures found == id && at == 0 && TagText(ParseRef(daemon[id].tags[0])) !in daemon
  {
    hide ParseRef;
    assert daemon[id].tags[0] in daemon[id].tags;
    assert SameTag(ParseRef(daemon[found].tags[at]), ParseRef(daemon[id].tags[0]));
  }

  lemma FirstTagReadsBack(daemon: Daemon, id: string)
    requires WellNamed(daemon) && id in daemon && daemon[id].tags != []
    ensures NamesTag(daemon[id].tags[0], ParseRef(TagText(ParseRef(daemon[id].tags[0]))))
  {
    hide ParseRef;
    assert daemon[id].tags[0] in daemon[id].tags;
  }

  /** The reference that is handed over for the first tag. */
  function FirstRef(image: LocalImage): string
    requires image.tags != []
  {
    TagText(ParseRef(image.tags[0]))
  }

  lemma OnlyFirstTagGoes(daemon: Daemon, id: string, p: Ref)
    requires WellNamed(daemon) && id in daemon && daemon[id].tags != [] && p == ParseRef(FirstRef(daemon[id]))
    ensures WithoutTag(daemon[id].tags, p) == daemon[id].tags[1..]
  {
    hide ParseRef, WellNamed;
    var tags := daemon[id].tags;
    FirstTagReadsBack(daemon, id);
    forall i | 0 <= i < |tags[1..]|
      ensures !SameTag(ParseRef(tags[1..][i]), p)
    {
      if NamesTag(tags[i + 1], p) {
        FirstTagIsItsOwn(daemon, id, id, i + 1);
      }
    }
    NoTagGoes(tags[1..], p);
    assert [] + tags[1..] == tags[1..];
  }

  lemma FoundIsTheImage(daemon: Daemon, id: string, found: string, p: Ref)
    requires WellNamed(daemon) && id in daemon && daemon[id].tags != [] && p == ParseRef(FirstRef(daemon[id]))
    requires found in daemon && CarriesTag(daemon[found], p)
    ensures found == id && FirstRef(daemon[id]) !in daemon
  {
    hide ParseRef, WellNamed;
    var t :| t in daemon[found].tags && SameTag(ParseRef(t), p);
    var b :| 0 <= b < |daemon[found].tags| && daemon[found].tags[b] == t;
    assert NamesTag(daemon[found].tags[b], p);
    FirstTagIsItsOwn(daemon, id, found, b);
  }

  lemma RefIsNoId(daemon: Daemon, id: string)
    requires WellNamed(daemon) && id in daemon && daemon[id].tags != []
    ensures FirstRef(daemon[id]) !in daemon
  {
    hide ParseRef;
    assert daemon[id].tags[0] in daemon[id].tags;
  }

  lemma FirstIsCarried(daemon: Daemon, id: string)
    requires WellNamed(daemon) && id in daemon && daemon[id].tags != []
    ensures CarriesTag(daemon[id], ParseRef(FirstRef(daemon[id])))
  {
    hide ParseRef, WellNamed;
    FirstTagReadsBack(daemon, id);
    assert daemon[id].tags[0] in daemon[id].tags;
  }

  // ---------------------------------------------------------------- prune

  datatype Result = Result(removed: seq<Outdated>, failed: seq<Outdated>, skipped: set<string>)

  ghost predicate IsCandidate(refs: set<Ref>, used: set<string>, daemon: Daemon, id: string) {
    id in daemon && IsOutdated(refs, used, daemon[id])
  }

  /** Nothing but outdated images has changed. */
  ghost predicate Spares(refs: set<Ref>, used: set<string>, before: Daemon, after: Daemon) {
    && after.Keys <= before.Keys
    && forall id :: id in before && !IsCandidate(refs, used, before, id) ==> id in after && after[id] == before[id]
  }

  /** Sparing every image that is not outdated spares what the deployment needs: images in use
      stay as they are, and every declared reference that had an image still has it. */
  lemma SparingKeepsTheStack(declared: seq<Source>, used: set<string>, before: Daemon, after: Daemon)
    requires Spares(DeclaredRefs(declared), used, before, after)
    requires forall id :: id in before ==> before[id].id == id
    ensures forall id :: id in before && id in used ==> id in after && after[id] == before[id]
    ensures forall source, ref :: source in declared && ref in source.refs && Resolves(before, ref) ==> Resolves(after, ref)
  {
    var refs := DeclaredRefs(declared);
    forall source, ref | source in declared && ref in source.refs && Resolves(before, ref)
      ensures Resolves(after, ref)
    {
      DeclaredResolves(refs, used, before, after, ref);
    }
  }

  lemma DeclaredResolves(refs: set<Ref>, used: set<string>, before: Daemon, after: Daemon, ref: string)
    requires Spares(refs, used, before, after) && ParseRef(ref) in refs && Resolves(before, ref)
    ensures Resolves(after, ref)
  {
    hide ParseRef;
    var p := ParseRef(ref);
    TagOrDigest(ref);
    var id :| id in before && if p.digest != "" then CarriesDigest(before[id], p) else CarriesTag(before[id], p);
    if p.digest != "" {
      var d :| d in before[id].digests && ParseRef(d).repo == p.repo && ParseRef(d).digest == p.digest;
      assert DeclaresDigest(refs, ParseRef(d));
    } else {
      var t :| t in before[id].tags && SameTag(ParseRef(t), p);
      assert DeclaresTag(refs, ParseRef(t));
    }
    assert !IsCandidate(refs, used, before, id);
  }

  lemma TagOrDigest(ref: string)
    ensures ParseRef(ref).digest == "" ==> ParseRef(ref).tag != ""
  {
  }

  class Docker {
    var images: Daemon

    constructor (images: Daemon)
      ensures this.images == images
    {
      this.images := images;
    }

    /** `docker image rm`, by id or by tag; `works` is whether the daemon does as asked. */
    method Rm(ref: string, works: bool) returns (ok: bool)
      modifies this
      ensures ok <==> works && (ref in old(images) || exists id :: id in old(images) && CarriesTag(old(images)[id], ParseRef(ref)))
      ensures !ok ==> images == old(images)
      ensures ok && ref in old(images) ==> images == old(images) - {ref}
      ensures ok && ref !in old(images) ==>
                exists id :: id in old(images) && CarriesTag(old(images)[id], ParseRef(ref))
                             && images == Untagged(old(images), id, ParseRef(ref))
    {
      if !works {
        return false;
      }
      if ref in images {
        images := images - {ref};
        return true;
      }
      var p := ParseRef(ref);
      if id :| id in images && CarriesTag(images[id], p) {
        images := Untagged(images, id, p);
        return true;
      }
      return false;
    }

    /** `_remove`: by every reference the image carries, up to the first that fails. */
    method Remove(entry: Outdated, ghost image: LocalImage, works: set<string>) returns (ok: bool)
      requires WellNamed(images) && image.id in images && images[image.id] == image && entry.remove == RemoveBy(image)
      modifies this
      ensures OnlyShrinks(old(images), images, image.id) && WellNamed(images)
      ensures ok ==> image.id !in images
      ensures ok <==> forall ref :: ref in RemoveBy(image) ==> ref in works
    {
      hide ParseRef, WellNamed, CarriesTag, Untagged;
      ghost var before := images;
      var i := 0;
      assert image.tags[0..] == image.tags && image.(tags := image.tags[0..]) == image;
      while i < |entry.remove|
        invariant i <= |entry.remove| && OnlyShrinks(before, images, image.id) && WellNamed(images)
        invariant |entry.remove| == if image.tags == [] then 1 else |image.tags|
        invariant image.tags == [] && i == 0 ==> images == before
        invariant image.tags != [] && i < |image.tags| ==>
                    image.id in images && images[image.id] == image.(tags := image.tags[i..])
        invariant i == |entry.remove| ==> image.id !in images
        invariant forall k :: 0 <= k < i ==> entry.remove[k] in works
      {
        ghost var start := images;
        if image.tags != [] {
          assert entry.remove[i] == FirstRef(start[image.id]);
          FirstIsCarried(start, image.id);
        }
        var worked := Rm(entry.remove[i], entry.remove[i] in works);
        if !worked {
          assert entry.remove[i] !in works && entry.remove[i] in RemoveBy(image);
          return false;
        }
        if image.tags == [] {
          FewerIsWellNamed(before, images);
        } else {
          assert entry.remove[i] == FirstRef(start[image.id]);
          RmTakesFirstTag(start, images, image.id, entry.remove[i]);
          assert image.tags[i..][1..] == image.tags[i + 1..];
        }
        i := i + 1;
      }
      ok := true;
    }

    /** `prune` under its lock: the verdict is made here, and `only` merely narrows it. */
    method Prune(declared: seq<Source>, used: set<string>, errors: seq<string>, only: Option<set<string>>, works: set<string>)
      returns (result: Option<Result>)
      requires WellNamed(images)
      modifies this
      ensures result.None? <==> errors != []
      ensures result.None? ==> images == old(images)
      ensures Spares(DeclaredRefs(declared), used, old(images), images)
      ensures result.Some? ==>
                var refs, candidates := DeclaredRefs(declared), Candidates(DeclaredRefs(declared), used, old(images));
                && Ids(result.value.removed) + Ids(result.value.failed)
                   == (if only.None? then candidates else candidates * only.value)
                && Ids(result.value.removed) !! Ids(result.value.failed)
                && result.value.skipped == (if only.None? then {} else only.value - candidates)
                && (forall id :: id in Ids(result.value.removed) ==> id !in images)
                && forall id :: id in Ids(result.value.removed) + Ids(result.value.failed) ==>
                     (id in Ids(result.value.removed) <==> forall ref :: ref in RemoveBy(old(images)[id]) ==> ref in works)
    {
      hide ParseRef, WellNamed, IsOutdated, NameOf, LeastRepo, SourceOf, RemoveBy;
      if errors != [] {
        return None;
      }
      var byId := OutdatedNow(declared, used);
      assert byId.Keys == Candidates(DeclaredRefs(declared), used, images);
      var wanted := if only.None? then byId.Keys else byId.Keys * only.value;
      var removed, failed := RemoveWanted(DeclaredRefs(declared), used, byId, wanted, works);
      result := Some(Result(removed, failed, if only.None? then {} else only.value - byId.Keys));
    }

    /** The loop of `prune` over the images to remove. */
    method RemoveWanted(ghost refs: set<Ref>, ghost used: set<string>, byId: map<string, Outdated>, wanted: set<string>,
                        works: set<string>)
      returns (removed: seq<Outdated>, failed: seq<Outdated>)
      requires WellNamed(images) && wanted <= byId.Keys && byId.Keys == Candidates(refs, used, images)
      requires forall id :: id in byId ==> byId[id].remove == RemoveBy(images[id]) && byId[id].id == id
      modifies this
      ensures Spares(refs, used, old(images), images)
      ensures Ids(removed) + Ids(failed) == wanted && Ids(removed) !! Ids(failed)
      ensures forall id :: id in Ids(removed) ==> id !in images
      ensures forall id :: id in wanted ==> (id in Ids(removed) <==> forall ref :: ref in byId[id].remove ==> ref in works)
    {
      hide ParseRef, WellNamed, IsOutdated, RemoveBy, Ids;
      ghost var before := images;
      var left := wanted;
      removed, failed := [], [];
      NoIds();
      while left != {}
        invariant left <= wanted && WellNamed(images) && images.Keys <= before.Keys
        invariant forall id :: id in before && (id in left || id !in wanted) ==> id in images && images[id] == before[id]
        invariant Ids(removed) + Ids(failed) == wanted - left && Ids(removed) !! Ids(failed)
        invariant forall id :: id in Ids(removed) ==> id !in images
        invariant forall id :: id in wanted - left ==> (id in Ids(removed) <==> forall ref :: ref in byId[id].remove ==> ref in works)
      {
        var id :| id in left;
        IdIsItsName(before, id);
        var ok := Remove(byId[id], images[id], works);
        left := left - {id};
        if ok {
          IdsAppend(removed, byId[id]);
          removed := removed + [byId[id]];
        } else {
          IdsAppend(failed, byId[id]);
          failed := failed + [byId[id]];
        }
      }
    }

    /** `local_images`: every image of the daemon, in some order. */
    method LocalImages() returns (local: seq<LocalImage>)
      ensures forall image :: image in local <==> exists id :: id in images && images[id] == image
    {
      local := [];
      var left := images.Keys;
      while left != {}
        invariant left <= images.Keys
        invariant forall image :: image in local <==> exists id :: id in images && id !in left && images[id] == image
      {
        var id :| id in left;
        local := local + [images[id]];
        left := left - {id};
      }
    }

    /** `by_id` of the report: exactly the images that nothing uses or declares, though their
        repositories are declared, each with the references to remove it by. */
    method OutdatedNow(declared: seq<Source>, used: set<string>) returns (byId: map<string, Outdated>)
      requires WellNamed(images)
      ensures forall id :: id in byId <==> id in images && IsOutdated(DeclaredRefs(declared), used, images[id])
      ensures forall id :: id in byId ==> byId[id] == Entry(declared, images[id]) && byId[id].id == id
    {
      hide ParseRef, IsOutdated, Verdict, DeclaredRefs, NameOf, RemoveBy, LeastRepo, SourceOf, ListedBefore, Sorted;
      var local := LocalImages();
      var report := BuildReport(declared, local, used, []);
      ListedBeforeOrders();
      SortKeepsElements(Verdict(declared, used, local), ListedBefore);
      byId := map[];
      for k := 0 to |report.outdated|
        invariant forall id :: id in byId ==> byId[id].id == id && byId[id] in report.outdated[..k]
        invariant forall e :: e in report.outdated[..k] ==> e.id in byId
      {
        byId := byId[report.outdated[k].id := report.outdated[k]];
        assert report.outdated[..k + 1] == report.outdated[..k] + [report.outdated[k]];
      }
      assert report.outdated[..|report.outdated|] == report.outdated;
      forall id: string
        ensures id in byId <==> id in images && IsOutdated(DeclaredRefs(declared), used, images[id])
        ensures id in byId ==> byId[id] == Entry(declared, images[id])
      {
        if id in byId {
          VerdictLists(declared, used, local, byId[id]);
        }
        if id in images {
          assert images[id] in local;
          VerdictLists(declared, used, local, Entry(declared, images[id]));
        }
      }
    }
  }

  function Candidates(refs: set<Ref>, used: set<string>, daemon: Daemon): set<string> {
    set id | id in daemon && IsOutdated(refs, used, daemon[id])
  }

  function Ids(entries: seq<Outdated>): set<string> {
    set e | e in entries :: e.id
  }

  lemma NoIds()
    ensures Ids([]) == {}
  {
  }

  lemma IdsAppend(entries: seq<Outdated>, e: Outdated)
    ensures Ids(entries + [e]) == Ids(entries) + {e.id}
  {
  }

  lemma IdIsItsName(daemon: Daemon, id: string)
    requires WellNamed(daemon) && id in daemon
    ensures daemon[id].id == id
  {
  }

  /** What `docker image rm` of an image's first tag does, when it works: it takes that tag off
      that image, and nothing else. */
  lemma RmTakesFirstTag(before: Daemon, after: Daemon, id: string, ref: string)
    requires WellNamed(before) && id in before && before[id].tags != [] && ref == FirstRef(before[id])
    requires ref in before ==> after == before - {ref}
    requires ref !in before ==> exists k :: k in before && CarriesTag(before[k], ParseRef(ref)) && after == Untagged(before, k, ParseRef(ref))
    ensures after == (if |before[id].tags| == 1 then before - {id} else before[id := before[id].(tags := before[id].tags[1..])])
    ensures WellNamed(after)
  {
    hide ParseRef, WellNamed, FirstRef, CarriesTag, WithoutTag;
    RefIsNoId(before, id);
    var p := ParseRef(ref);
    var k :| k in before && CarriesTag(before[k], p) && after == Untagged(before, k, p);
    FoundIsTheImage(before, id, k, p);
    OnlyFirstTagGoes(before, id, p);
    FewerIsWellNamed(before, after);
  }
}
