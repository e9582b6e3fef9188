/** Which local Docker images are outdated, and their removal (`images.py`). */
module Images {
  import opened Sorting
  import opened Splitting
  import opened Text
  import opened Wrappers

  // ---------------------------------------------------------------- references

  datatype Ref = Ref(repo: string, tag: string, digest: string)

  /** `s.rfind(c)`. */
  function RFind(s: string, c: char): (at: int)
    ensures -1 <= at < |s|
    ensures at >= 0 ==> s[at] == c
    ensures forall i :: at < i < |s| ==> s[i] != c
  {
    if s == "" then -1 else if Last(s) == c then |s| - 1 else RFind(Init(s), c)
  }

  function DropPrefix(s: string, prefix: string): string {
    if prefix <= s then s[|prefix|..] else s
  }

  /** The names Docker Hub is reachable under: the first that fits is dropped. */
  function DropHost(s: string): string {
    if "docker.io/" <= s then s[|"docker.io/"|..]
    else if "index.docker.io/" <= s then s[|"index.docker.io/"|..]
    else if "registry-1.docker.io/" <= s then s[|"registry-1.docker.io/"|..]
    else s
  }

  function Repository(value: string): string {
    DropPrefix(DropHost(value), "library/")
  }

  /** A colon separates a tag only after the last slash. */
  function SplitTag(value: string): (string, string) {
    var colon := RFind(value, ':');
    if colon > RFind(value, '/') then (value[..colon], value[colon + 1..]) else (value, "")
  }

  /** `parse_ref`. */
  function ParseRef(ref: string): Ref {
    var (named, _, digest) := Partition(Strip(ref), '@');
    var (value, tag) := SplitTag(named);
    Ref(Repository(value), if tag == "" && digest == "" then "latest" else tag, digest)
  }

  function TagText(p: Ref): string {
    p.repo + ":" + p.tag
  }

  lemma {:induction false} RFindIs(s: string, c: char, at: int)
    requires -1 <= at < |s| && (at >= 0 ==> s[at] == c) && forall i :: at < i < |s| ==> s[i] != c
    ensures RFind(s, c) == at
  {
    var found := RFind(s, c);
    assert at >= 0 ==> at <= found;
    assert found >= 0 ==> found <= at;
  }

  lemma SplitTagReadsBack(repo: string, tag: string)
    requires ':' !in tag && '/' !in tag
    ensures SplitTag(repo + ":" + tag) == (repo, tag)
  {
    var s := repo + ":" + tag;
    assert forall i :: |repo| < i < |s| ==> s[i] == tag[i - |repo| - 1];
    RFindIs(s, ':', |repo|);
    assert RFind(s, '/') < |repo|;
    assert s[..|repo|] == repo && s[|repo| + 1..] == tag;
  }

  /** A repository and tag that are handed to Docker mean the same again if and only if dropping
      the Hub's names from the repository once more changes nothing. */
  lemma TagReadsBack(p: Ref)
    requires p.tag != "" && ':' !in p.tag && '/' !in p.tag && '@' !in TagText(p) && Strip(TagText(p)) == TagText(p)
    ensures ParseRef(TagText(p)) == Ref(p.repo, p.tag, "") <==> Repository(p.repo) == p.repo
  {
    PartitionNone(TagText(p), '@');
    SplitTagReadsBack(p.repo, p.tag);
  }

  const HUB_HOSTS: seq<string> := ["", "docker.io/", "index.docker.io/", "registry-1.docker.io/"]

  /** A repository as it is kept: no digest in it, a colon only before its last slash (a port), and
      none of the Hub's names in front. */
  ghost predicate IsPlainRepo(repo: string) {
    && '@' !in repo && RFind(repo, ':') <= RFind(repo, '/')
    && !("docker.io/" <= repo) && !("index.docker.io/" <= repo) && !("registry-1.docker.io/" <= repo)
    && !("library/" <= repo)
  }

  ghost predicate IsName(s: string) {
    s != "" && ':' !in s && '/' !in s && '@' !in s
  }

  function Front(host: string, library: bool): string {
    host + if library then "library/" else ""
  }

  function WithTag(value: string, tag: Option<string>): string {
    if tag.Some? then value + ":" + tag.value else value
  }

  function WithDigest(value: string, digest: Option<string>): string {
    if digest.Some? then value + "@" + digest.value else value
  }

  /** The text of a reference: the Hub's host and its `library/`, or not, then the repository, a tag
      or none, a digest or none. */
  function RefText(host: string, library: bool, repo: string, tag: Option<string>, digest: Option<string>): string {
    WithDigest(WithTag(Front(host, library) + repo, tag), digest)
  }

  lemma RFindAppend(a: string, b: string, c: char)
    requires RFind(b, c) == -1
    ensures RFind(a + b, c) == RFind(a, c)
  {
    var at := RFind(a, c);
    assert forall i :: 0 <= i < |b| ==> b[i] != c;
    RFindIs(a + b, c, at);
  }

  lemma RFindPrepend(a: string, b: string, c: char)
    ensures RFind(a + b, c) == if RFind(b, c) >= 0 then |a| + RFind(b, c) else RFind(a, c)
  {
    if RFind(b, c) >= 0 {
      RFindIs(a + b, c, |a| + RFind(b, c));
    } else {
      RFindAppend(a, b, c);
    }
  }

  lemma RFindNone(s: string, c: char)
    requires c !in s
    ensures RFind(s, c) == -1
  {
    RFindIs(s, c, -1);
  }

  lemma TagIsRead(front: string, repo: string, tag: Option<string>)
    requires RFind(repo, ':') <= RFind(repo, '/') && (front == "" || (Last(front) == '/' && ':' !in front))
    requires tag.Some? ==> IsName(tag.value)
    ensures SplitTag(WithTag(front + repo, tag)) == (front + repo, if tag.Some? then tag.value else "")
  {
    if tag.Some? {
      SplitTagReadsBack(front + repo, tag.value);
    } else {
      NoTagIsRead(front, repo);
    }
  }

  lemma NoTagIsRead(front: string, repo: string)
    requires RFind(repo, ':') <= RFind(repo, '/') && (front == "" || (Last(front) == '/' && ':' !in front))
    ensures RFind(front + repo, ':') <= RFind(front + repo, '/')
  {
    hide RFind;
    RFindPrepend(front, repo, ':');
    RFindPrepend(front, repo, '/');
    if front != "" {
      RFindNone(front, ':');
    } else {
      assert front + repo == repo;
    }
  }

  lemma DigestIsRead(value: string, digest: Option<string>)
    requires '@' !in value
    ensures Partition(WithDigest(value, digest), '@') == (value, digest.Some?, if digest.Some? then digest.value else "")
  {
    if digest.Some? {
      PartitionUnique(value + "@" + digest.value, '@', value, digest.value);
    } else {
      PartitionNone(value, '@');
    }
  }

  lemma HostDrops(host: string, rest: string)
    requires host in HUB_HOSTS
    requires !("docker.io/" <= rest) && !("index.docker.io/" <= rest) && !("registry-1.docker.io/" <= rest)
    ensures DropHost(host + rest) == rest
  {
    var text := host + rest;
    if host == "" {
      assert text == rest;
    } else {
      assert text[..|host|] == host && text[|host|..] == rest;
      assert "docker.io/"[0] == 'd' && "index.docker.io/"[0] == 'i' && "registry-1.docker.io/"[0] == 'r';
    }
  }

  lemma LibraryDrops(library: bool, repo: string)
    requires IsPlainRepo(repo)
    ensures var rest := Front("", library) + repo;
            DropPrefix(rest, "library/") == repo
            && !("docker.io/" <= rest) && !("index.docker.io/" <= rest) && !("registry-1.docker.io/" <= rest)
  {
    hide RFind;
    var rest := Front("", library) + repo;
    if library {
      assert Front("", library) == "library/";
      assert rest[..8] == "library/" && rest[8..] == repo;
      assert rest[0] == 'l' && "docker.io/"[0] == 'd' && "index.docker.io/"[0] == 'i' && "registry-1.docker.io/"[0] == 'r';
    } else {
      assert rest == repo;
    }
  }

  lemma FrontIsPlain(host: string, library: bool)
    requires host in HUB_HOSTS
    ensures var front := Front(host, library);
            '@' !in front && (front == "" || (Last(front) == '/' && ':' !in front))
  {
    HostIsPlain(host);
    hide HUB_HOSTS;
    if library {
      LibraryIsPlain();
    } else {
      assert Front(host, library) == host;
    }
  }

  lemma LibraryIsPlain()
    ensures '@' !in "library/" && ':' !in "library/" && Last("library/") == '/'
  {
  }

  lemma HostIsPlain(host: string)
    requires host in HUB_HOSTS
    ensures '@' !in host && (host == "" || (Last(host) == '/' && ':' !in host))
  {
  }

  lemma RepositoryIsRead(host: string, library: bool, repo: string)
    requires host in HUB_HOSTS && IsPlainRepo(repo)
    ensures Repository(Front(host, library) + repo) == repo
  {
    hide DropHost, DropPrefix, IsPlainRepo, HUB_HOSTS;
    LibraryDrops(library, repo);
    HostDrops(host, Front("", library) + repo);
    assert Front(host, library) + repo == host + (Front("", library) + repo);
  }

  /** Whichever of the Hub's names a reference is written with, it is read as the repository without
      them, its digest, and its tag: `latest` if it has neither tag nor digest. */
  lemma RefIsRead(host: string, library: bool, repo: string, tag: Option<string>, digest: Option<string>)
    requires host in HUB_HOSTS && IsPlainRepo(repo)
    requires (tag.Some? ==> IsName(tag.value)) && (digest.Some? ==> digest.value != "")
    requires Strip(RefText(host, library, repo, tag, digest)) == RefText(host, library, repo, tag, digest)
    ensures ParseRef(RefText(host, library, repo, tag, digest)) ==
            Ref(repo, if tag.Some? then tag.value else if digest.Some? then "" else "latest", if digest.Some? then digest.value else "")
  {
    hide Strip, RFind, Repository, SplitTag, Partition, WithDigest, Front, HUB_HOSTS;
    var value := Front(host, library) + repo;
    FrontIsPlain(host, library);
    DigestIsRead(WithTag(value, tag), digest);
    TagIsRead(Front(host, library), repo, tag);
    RepositoryIsRead(host, library, repo);
  }

  // ---------------------------------------------------------------- the verdict

  datatype LocalImage = LocalImage(id: string, tags: seq<string>, digests: seq<string>, size: nat)

  /** A source of the deployment with the references its Compose files name. */
  datatype Source = Source(name: string, refs: set<string>)

  datatype Outdated = Outdated(id: string, name: string, remove: seq<string>, size: nat, source: string)

  datatype Report = Report(outdated: seq<Outdated>, errors: seq<string>)

  function DeclaredRefs(declared: seq<Source>): set<Ref> {
    set source, ref | source in declared && ref in source.refs :: ParseRef(ref)
  }

  predicate DeclaresTag(refs: set<Ref>, p: Ref) {
    p.tag != "" && exists q :: q in refs && q.repo == p.repo && q.tag == p.tag
  }

  predicate DeclaresDigest(refs: set<Ref>, p: Ref) {
    p.digest != "" && exists q :: q in refs && q.repo == p.repo && q.digest == p.digest
  }

  predicate DeclaresRepo(refs: set<Ref>, repo: string) {
    exists q :: q in refs && q.repo == repo
  }

  function Repos(image: LocalImage): set<string> {
    (set t | t in image.tags :: ParseRef(t).repo) + (set d | d in image.digests :: ParseRef(d).repo)
  }

  /** What makes an image outdated. */
  predicate IsOutdated(refs: set<Ref>, used: set<string>, image: LocalImage) {
    && image.id !in used
    && (forall t :: t in image.tags ==> !DeclaresTag(refs, ParseRef(t)))
    && (forall d :: d in image.digests ==> !DeclaresDigest(refs, ParseRef(d)))
    && Repos(image) != {} && (forall repo :: repo in Repos(image) ==> DeclaresRepo(refs, repo))
  }

  /** What is handed to `docker image rm`: every tag, or the id of an image that has none. */
  function RemoveBy(image: LocalImage): seq<string> {
    if image.tags == [] then [image.id] else TagTexts(image)
  }

  function TagTexts(image: LocalImage): seq<string> {
    seq(|image.tags|, i requires 0 <= i < |image.tags| => TagText(ParseRef(image.tags[i])))
  }

  function NameOf(image: LocalImage): string {
    if image.tags != [] then CommaJoined(TagTexts(image))
    else if image.digests == [] then ""
    else var p := ParseRef(image.digests[0]); p.repo + "@" + p.digest[..if |p.digest| < 19 then |p.digest| else 19]
  }

  function CommaJoined(texts: seq<string>): string {
    if |texts| <= 1 then (if texts == [] then "" else texts[0]) else texts[0] + ", " + CommaJoined(texts[1..])
  }

  lemma {:induction false} CommasBetween(texts: seq<string>, text: string)
    ensures CommaJoined(texts + [text]) == if texts == [] then text else CommaJoined(texts) + ", " + text
  {
    if |texts| > 1 {
      CommasBetween(texts[1..], text);
      assert (texts + [text])[1..] == texts[1..] + [text];
    } else if |texts| == 1 {
      assert (texts + [text])[1..] == [text];
    }
  }

  /** An image is shown by its tags, with commas between them, or, if it has none, by the repository
      and the beginning of its first digest. */
  lemma ShownAs(image: LocalImage)
    ensures |image.tags| == 1 ==> NameOf(image) == TagText(ParseRef(image.tags[0]))
    ensures |image.tags| > 1 ==>
              NameOf(image) == NameOf(image.(tags := Init(image.tags))) + ", " + TagText(ParseRef(Last(image.tags)))
    ensures image.tags == [] && image.digests != [] ==>
              var p := ParseRef(image.digests[0]);
              && p.repo + "@" <= NameOf(image) <= p.repo + "@" + p.digest
              && |NameOf(image)| == |p.repo| + 1 + if |p.digest| < 19 then |p.digest| else 19
  {
    hide ParseRef;
    if |image.tags| > 1 {
      var before := TagTexts(image.(tags := Init(image.tags)));
      assert TagTexts(image) == before + [TagText(ParseRef(Last(image.tags)))];
      CommasBetween(before, TagText(ParseRef(Last(image.tags))));
    }
  }

  // ---------------------------------------------------------------- attribution

  predicate Names(source: Source, repo: string) {
    exists ref :: ref in source.refs && ParseRef(ref).repo == repo
  }

  predicate IsFirstSource(declared: seq<Source>, repo: string, i: int) {
    0 <= i < |declared| && Names(declared[i], repo) && forall k :: 0 <= k < i ==> !Names(declared[k], repo)
  }

  /** `repo_source`: the first source that declares a repository. */
  function SourceOf(declared: seq<Source>, repo: string): string {
    if declared == [] then ""
    else if DeclaresRepo(DeclaredRefs(Init(declared)), repo) then SourceOf(Init(declared), repo)
    else Last(declared).name
  }

  lemma {:induction false} SourceIsFirst(declared: seq<Source>, repo: string)
    requires DeclaresRepo(DeclaredRefs(declared), repo)
    ensures exists i :: IsFirstSource(declared, repo, i) && SourceOf(declared, repo) == declared[i].name
  {
    hide ParseRef;
    var init := Init(declared);
    DeclaredByOne(init, repo);
    DeclaredByOne(declared, repo);
    if DeclaresRepo(DeclaredRefs(init), repo) {
      SourceIsFirst(init, repo);
      var i :| IsFirstSource(init, repo, i) && SourceOf(init, repo) == init[i].name;
      assert IsFirstSource(declared, repo, i);
    } else {
      var i := |declared| - 1;
      assert forall k :: 0 <= k < i ==> declared[k] == init[k] && init[k] in init;
      assert IsFirstSource(declared, repo, i);
    }
  }

  lemma DeclaredByOne(declared: seq<Source>, repo: string)
    ensures DeclaresRepo(DeclaredRefs(declared), repo) <==> exists source :: source in declared && Names(source, repo)
  {
    hide ParseRef;
    if source :| source in declared && Names(source, repo) {
      var ref :| ref in source.refs && ParseRef(ref).repo == repo;
      assert ParseRef(ref) in DeclaredRefs(declared);
    }
  }

  function RepoList(image: LocalImage): seq<string> {
    seq(|image.tags|, i requires 0 <= i < |image.tags| => ParseRef(image.tags[i]).repo)
    + seq(|image.digests|, i requires 0 <= i < |image.digests| => ParseRef(image.digests[i]).repo)
  }

  /** `sorted(repos)[0]` */
  function LeastRepo(image: LocalImage): string {
    var repos := Sorted(RepoList(image), Less);
    if repos == [] then "" else repos[0]
  }

  lemma ReposAreListed(image: LocalImage)
    ensures forall repo :: repo in Repos(image) <==> repo in RepoList(image)
  {
    hide ParseRef;
    forall repo | repo in Repos(image)
      ensures repo in RepoList(image)
    {
      var repos := RepoList(image);
      if i: nat :| i < |image.tags| && ParseRef(image.tags[i]).repo == repo {
        assert repos[i] == repo;
      } else {
        var i: nat :| i < |image.digests| && ParseRef(image.digests[i]).repo == repo;
        assert repos[|image.tags| + i] == repo;
      }
    }
  }

  lemma LeastRepoIsLeast(image: LocalImage)
    requires Repos(image) != {}
    ensures LeastRepo(image) in Repos(image) && forall repo :: repo in Repos(image) ==> !Less(repo, LeastRepo(image))
  {
    hide Repos, RepoList, Less, Sorted;
    LessOrders();
    ReposAreListed(image);
    var repos := Sorted(RepoList(image), Less);
    SortSorts(RepoList(image), Less);
    SortKeepsElements(RepoList(image), Less);
    var some :| some in Repos(image);
    assert some in repos && repos[0] in repos;
    forall repo | repo in Repos(image)
      ensures !Less(repo, repos[0])
    {
      LessIsTotal(repo, repo);
      var k :| 0 <= k < |repos| && repos[k] == repo;
    }
  }

  lemma LessOrders()
    ensures IsOrdering(Less)
  {
    hide Less;
    forall a: string, b: string
      ensures Less(a, b) ==> !Less(b, a)
    {
      LessIsTotal(a, b);
    }
    forall a: string, b: string, c: string | !Less(b, a) && !Less(c, b)
      ensures !Less(c, a)
    {
      NotLessIsTransitive(a, b, c);
    }
  }

  lemma NotLessIsTransitive(a: string, b: string, c: string)
    requires !Less(b, a) && !Less(c, b)
    ensures !Less(c, a)
  {
    hide Less;
    LessIsTotal(a, b);
    LessIsTotal(b, c);
    LessIsTotal(a, c);
    if Less(a, b) && Less(b, c) {
      LessIsTransitive(a, b, c);
    }
  }

  // ---------------------------------------------------------------- the report

  function Entry(declared: seq<Source>, image: LocalImage): Outdated {
    Outdated(image.id, NameOf(image), RemoveBy(image), image.size, SourceOf(declared, LeastRepo(image)))
  }

  function Verdict(declared: seq<Source>, used: set<string>, local: seq<LocalImage>): seq<Outdated> {
    if local == [] then []
    else Verdict(declared, used, Init(local))
         + if IsOutdated(DeclaredRefs(declared), used, Last(local)) then [Entry(declared, Last(local))] else []
  }

  const CORE_SOURCE := "core"

  /** `(i.source != CORE_SOURCE, i.source, i.name)` */
  predicate ListedBefore(x: Outdated, y: Outdated) {
    if (x.source == CORE_SOURCE) != (y.source == CORE_SOURCE) then x.source == CORE_SOURCE
    else if x.source != y.source then Less(x.source, y.source)
    else Less(x.name, y.name)
  }

  lemma ListedBeforeOrders()
    ensures IsOrdering(ListedBefore)
  {
    hide Less;
    forall a: Outdated, b: Outdated
      ensures ListedBefore(a, b) ==> !ListedBefore(b, a)
    {
      LessIsTotal(a.source, b.source);
      LessIsTotal(a.name, b.name);
    }
    forall a: Outdated, b: Outdated, c: Outdated | !ListedBefore(b, a) && !ListedBefore(c, b)
      ensures !ListedBefore(c, a)
    {
      NotListedIsTransitive(a, b, c);
    }
  }

  lemma NotListedIsTransitive(a: Outdated, b: Outdated, c: Outdated)
    requires !ListedBefore(b, a) && !ListedBefore(c, b)
    ensures !ListedBefore(c, a)
  {
    hide Less;
    LessIsTotal(a.source, b.source);
    LessIsTotal(b.source, c.source);
    LessIsTotal(a.source, c.source);
    if a.source == b.source == c.source {
      NotLessIsTransitive(a.name, b.name, c.name);
    } else if Less(a.source, b.source) && Less(b.source, c.source) {
      LessIsTransitive(a.source, b.source, c.source);
    }
  }

  /** Exactly the outdated images are listed. */
  lemma {:induction false} VerdictLists(declared: seq<Source>, used: set<string>, local: seq<LocalImage>, e: Outdated)
    ensures e in Verdict(declared, used, local) <==>
              exists image :: image in local && IsOutdated(DeclaredRefs(declared), used, image) && e == Entry(declared, image)
  {
    hide ParseRef, Entry, IsOutdated, DeclaredRefs;
    if local != [] {
      VerdictLists(declared, used, Init(local), e);
      assert local == Init(local) + [Last(local)];
    }
  }

  /** The core's images first, then by source and by name. */
  ghost predicate IsListedBefore(a: Outdated, b: Outdated) {
    if a.source == b.source then !Less(b.name, a.name)
    else a.source == "core" || (b.source != "core" && Less(a.source, b.source))
  }

  lemma ListedInOrder(a: Outdated, b: Outdated)
    ensures !ListedBefore(b, a) <==> IsListedBefore(a, b)
  {
    LessIsTotal(a.source, b.source);
    hide Less;
  }

  /** The report lists exactly the outdated images: those of the core first, then by source and
      name, each under the first source that declares its least repository. */
  lemma ReportLists(declared: seq<Source>, used: set<string>, local: seq<LocalImage>)
    ensures var report := Sorted(Verdict(declared, used, local), ListedBefore);
            && multiset(report) == multiset(Verdict(declared, used, local))
            && (forall i, j :: 0 <= i < j < |report| ==> IsListedBefore(report[i], report[j]))
            && (forall e :: e in report ==>
                  exists image, i :: && image in local && IsOutdated(DeclaredRefs(declared), used, image)
                                     && e.id == image.id && e.remove == RemoveBy(image) && e.name == NameOf(image)
                                     && IsFirstSource(declared, LeastRepo(image), i) && e.source == declared[i].name)
  {
    hide ParseRef, IsOutdated, DeclaredRefs, Repos, NameOf, RemoveBy, Names, DeclaresRepo, LeastRepo, ListedBefore, SourceOf;
    ListedBeforeOrders();
    SortSorts(Verdict(declared, used, local), ListedBefore);
    SortKeepsElements(Verdict(declared, used, local), ListedBefore);
    var report := Sorted(Verdict(declared, used, local), ListedBefore);
    forall i, j | 0 <= i < j < |report|
      ensures IsListedBefore(report[i], report[j])
    {
      ListedInOrder(report[i], report[j]);
      assert !ListedBefore(report[j], report[i]);
    }
    hide IsListedBefore;
    forall e | e in Verdict(declared, used, local)
      ensures exists image, i :: && image in local && IsOutdated(DeclaredRefs(declared), used, image)
                                 && e.id == image.id && e.remove == RemoveBy(image) && e.name == NameOf(image)
                                 && IsFirstSource(declared, LeastRepo(image), i) && e.source == declared[i].name
    {
      VerdictLists(declared, used, local, e);
      var image :| image in local && IsOutdated(DeclaredRefs(declared), used, image) && e == Entry(declared, image);
      OutdatedHasSource(DeclaredRefs(declared), used, image);
      SourceIsFirst(declared, LeastRepo(image));
      var i :| IsFirstSource(declared, LeastRepo(image), i) && SourceOf(declared, LeastRepo(image)) == declared[i].name;
    }
  }

  lemma OutdatedHasSource(refs: set<Ref>, used: set<string>, image: LocalImage)
    requires IsOutdated(refs, used, image)
    ensures DeclaresRepo(refs, LeastRepo(image))
  {
    hide ParseRef, LeastRepo, Repos, DeclaresRepo;
    LeastRepoIsLeast(image);
  }

  /** What the deployment declares, as tags, digests and repositories. */
  method CollectDeclared(declared: seq<Source>)
    returns (tags: set<(string, string)>, digests: set<(string, string)>, repos: map<string, string>)
    ensures Collected(DeclaredRefs(declared), tags, digests, repos.Keys)
    ensures forall repo :: repo in repos ==> repos[repo] == SourceOf(declared, repo)
  {
    hide ParseRef, Collected, DeclaredRefs, ParsedRefs;
    tags, digests, repos := {}, {}, map[];
    ghost var seen: set<Ref> := {};
    NothingCollected(declared);
    assert repos.Keys == {};
    var i := 0;
    while i < |declared|
      invariant i <= |declared| && seen == DeclaredRefs(declared[..i])
      invariant Collected(seen, tags, digests, repos.Keys)
      invariant forall repo :: repo in repos ==> repos[repo] == SourceOf(declared[..i], repo)
    {
      var left := declared[i].refs;
      DeclaredAppend(declared, i);
      ghost var before, earlier, t, d := seen, repos, tags, digests;
      assert declared[i].refs - declared[i].refs == {};
      while left != {}
        invariant left <= declared[i].refs
        invariant seen == before + ParsedRefs(declared[i].refs - left)
        invariant Collected(seen, tags, digests, repos.Keys) && earlier.Keys <= repos.Keys
        invariant forall repo :: repo in repos ==> repos[repo] == if repo in earlier then earlier[repo] else declared[i].name
      {
        var ref :| ref in left;
        var p := ParseRef(ref);
        assert declared[i].refs - (left - {ref}) == declared[i].refs - left + {ref};
        ParsedAppend(declared[i].refs - left, ref);
        CollectedAppend(seen, p, tags, digests, repos.Keys);
        assert repos[p.repo := declared[i].name].Keys == repos.Keys + {p.repo};
        assert p.repo in repos ==> repos.Keys + {p.repo} == repos.Keys;
        left := left - {ref};
        if p.repo !in repos {
          repos := repos[p.repo := declared[i].name];
        }
        if p.digest != "" {
          digests := digests + {(p.repo, p.digest)};
        }
        if p.tag != "" {
          tags := tags + {(p.repo, p.tag)};
        }
        seen := seen + {p};
      }
      assert declared[i].refs - {} == declared[i].refs;
      SourceAppend(declared, i, before, t, d, earlier.Keys);
      i := i + 1;
    }
    assert declared[..i] == declared;
  }

  lemma SourceAppend(declared: seq<Source>, i: nat, refs: set<Ref>, tags: set<(string, string)>,
                     digests: set<(string, string)>, repos: set<string>)
    requires i < |declared| && refs == DeclaredRefs(declared[..i])
    requires Collected(refs, tags, digests, repos)
    ensures forall repo :: SourceOf(declared[..i + 1], repo)
                           == if repo in repos then SourceOf(declared[..i], repo) else declared[i].name
  {
    hide ParseRef, DeclaredRefs;
    assert Init(declared[..i + 1]) == declared[..i] && Last(declared[..i + 1]) == declared[i];
  }

  function ParsedRefs(refs: set<string>): set<Ref> {
    set ref | ref in refs :: ParseRef(ref)
  }

  lemma NothingCollected(declared: seq<Source>)
    ensures DeclaredRefs(declared[..0]) == {} && ParsedRefs({}) == {} && Collected({}, {}, {}, {})
  {
  }

  lemma ParsedAppend(refs: set<string>, ref: string)
    ensures ParsedRefs(refs + {ref}) == ParsedRefs(refs) + {ParseRef(ref)}
  {
    hide ParseRef;
  }

  lemma DeclaredAppend(declared: seq<Source>, i: nat)
    requires i < |declared|
    ensures DeclaredRefs(declared[..i + 1]) == DeclaredRefs(declared[..i]) + ParsedRefs(declared[i].refs)
  {
    hide ParseRef;
    assert declared[..i + 1] == declared[..i] + [declared[i]];
  }

  lemma CollectedAppend(refs: set<Ref>, p: Ref, tags: set<(string, string)>, digests: set<(string, string)>, repos: set<string>)
    requires Collected(refs, tags, digests, repos)
    ensures Collected(refs + {p}, if p.tag != "" then tags + {(p.repo, p.tag)} else tags,
                      if p.digest != "" then digests + {(p.repo, p.digest)} else digests, repos + {p.repo})
  {
    assert p in refs + {p};
  }

  /** `build_report`. */
  method BuildReport(declared: seq<Source>, local: seq<LocalImage>, used: set<string>, errors: seq<string>)
    returns (report: Report)
    ensures report == if errors != [] then Report([], errors)
                      else Report(Sorted(Verdict(declared, used, local), ListedBefore), [])
  {
    hide ParseRef, NameOf, RemoveBy, LeastRepo, SourceOf, DeclaredRefs, Repos;
    if errors != [] {
      return Report([], errors);
    }
    var tags, digests, repos := CollectDeclared(declared);
    var outdated: seq<Outdated> := [];
    var k := 0;
    while k < |local|
      invariant k <= |local| && outdated == Verdict(declared, used, local[..k])
    {
      var image := local[k];
      assert Init(local[..k + 1]) == local[..k] && Last(local[..k + 1]) == image;
      k := k + 1;
      if image.id in used {
        continue;
      }
      if exists t :: t in image.tags && (ParseRef(t).repo, ParseRef(t).tag) in tags {
        continue;
      }
      if exists d :: d in image.digests && (ParseRef(d).repo, ParseRef(d).digest) in digests {
        continue;
      }
      var found := Repos(image);
      if found == {} || !(found <= repos.Keys) {
        continue;
      }
      LeastRepoIsLeast(image);
      outdated := outdated + [Outdated(image.id, NameOf(image), RemoveBy(image), image.size, repos[LeastRepo(image)])];
    }
    assert local[..k] == local;
    report := Report(Sorted(outdated, ListedBefore), []);
  }

  ghost predicate Collected(refs: set<Ref>, tags: set<(string, string)>, digests: set<(string, string)>, repos: set<string>) {
    && (forall repo, tag :: (repo, tag) in tags <==> tag != "" && exists q :: q in refs && q.repo == repo && q.tag == tag)
    && (forall repo, digest :: (repo, digest) in digests <==> digest != "" && exists q :: q in refs && q.repo == repo && q.digest == digest)
    && (forall repo :: repo in repos <==> DeclaresRepo(refs, repo))
  }
}
