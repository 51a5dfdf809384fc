/** Repository announcements (crates/core/src/nip34.rs:1-185). */
module Announcement {
  import opened Wrappers
  import opened Sorting
  import opened Tags
  import opened Reading

  datatype RepoAnnouncement = RepoAnnouncement(
    identifier: string,
    name: Option<string>,
    description: Option<string>,
    rootCommit: Option<string>,
    clone: seq<string>,
    web: seq<string>,
    relays: seq<string>,
    blossoms: seq<string>,
    hashtags: seq<string>,
    maintainers: seq<string>)

  /** The commits of `["r", commit]` and `["r", commit, "euc"]`; longer or differently marked tags are skipped. */
  function RootCommits(tags: seq<Tag>): (r: seq<string>) {
    if tags == [] then []
    else
      var rest, tag := RootCommits(tags[..|tags| - 1]), tags[|tags| - 1];
      if |tag| == 2 || (|tag| == 3 && tag[2] == "euc") then rest + [tag[1]] else rest
  }

  lemma RootCommitsPush(tags: seq<Tag>, tag: Tag)
    ensures RootCommits(tags + [tag]) ==
            if |tag| == 2 || (|tag| == 3 && tag[2] == "euc") then RootCommits(tags) + [tag[1]] else RootCommits(tags)
  {
    assert (tags + [tag])[..|tags|] == tags;
  }

  function RootCommit(tags: seq<Tag>): (r: Option<string>) {
    Last(RootCommits(Named(tags, "r")))
  }

  lemma ReadRoot(tags: seq<Tag>, i: nat)
    requires i < |tags|
    ensures var tag := tags[i];
            RootCommit(tags[..i + 1]) ==
            if HasName(tag, "r") && (|tag| == 2 || (|tag| == 3 && tag[2] == "euc")) then Some(tag[1])
            else RootCommit(tags[..i])
  {
    ReadNamed(tags, i, "r");
    RootCommitsPush(Named(tags[..i], "r"), tags[i]);
  }

  /** What an announcement's tags mean, field by field. */
  function Parse(tags: seq<Tag>): (r: Result<RepoAnnouncement, CoreError>) {
    match LastValue(tags, "d")
    case None => Err(MissingField("d"))
    case Some(identifier) =>
      Ok(RepoAnnouncement(
           identifier,
           LastValue(tags, "name"),
           LastValue(tags, "description"),
           RootCommit(tags),
           UniqueValues(tags, "clone"),
           UniqueValues(tags, "web"),
           UniqueValues(tags, "relays"),
           UniqueValues(tags, "blossoms"),
           UniqueHeads(tags, "t"),
           UniqueValues(tags, "maintainers")))
  }

  method FromTags(tags: seq<Tag>) returns (r: Result<RepoAnnouncement, CoreError>)
    ensures r == Parse(tags)
    ensures r.Ok? ==> Reads(tags, r.value)
  {
    var identifier, name, description, rootCommit: Option<string> := None, None, None, None;
    var clone, web, relays, blossoms, hashtags, maintainers := [], [], [], [], [], [];
    for i := 0 to |tags|
      invariant identifier == LastValue(tags[..i], "d")
      invariant name == LastValue(tags[..i], "name")
      invariant description == LastValue(tags[..i], "description")
      invariant rootCommit == RootCommit(tags[..i])
      invariant clone == UniqueValues(tags[..i], "clone")
      invariant web == UniqueValues(tags[..i], "web")
      invariant relays == UniqueValues(tags[..i], "relays")
      invariant blossoms == UniqueValues(tags[..i], "blossoms")
      invariant hashtags == UniqueHeads(tags[..i], "t")
      invariant maintainers == UniqueValues(tags[..i], "maintainers")
    {
      var tag := tags[i];
      ReadLast(tags, i, "d");
      ReadLast(tags, i, "name");
      ReadLast(tags, i, "description");
      ReadRoot(tags, i);
      ReadValues(tags, i, "clone");
      ReadValues(tags, i, "web");
      ReadValues(tags, i, "relays");
      ReadValues(tags, i, "blossoms");
      ReadHeads(tags, i, "t");
      ReadValues(tags, i, "maintainers");
      if |tag| >= 2 && tag[0] == "d" {
        identifier := Some(tag[1]);
      } else if |tag| >= 2 && tag[0] == "name" {
        name := Some(tag[1]);
      } else if |tag| >= 2 && tag[0] == "description" {
        description := Some(tag[1]);
      } else if |tag| == 2 && tag[0] == "r" {
        rootCommit := Some(tag[1]);
      } else if |tag| == 3 && tag[0] == "r" && tag[2] == "euc" {
        rootCommit := Some(tag[1]);
      } else if |tag| >= 1 && tag[0] == "clone" {
        clone := ExtendUnique(clone, tag[1..], Values(Named(tags[..i], "clone")));
      } else if |tag| >= 1 && tag[0] == "web" {
        web := ExtendUnique(web, tag[1..], Values(Named(tags[..i], "web")));
      } else if |tag| >= 1 && tag[0] == "relays" {
        relays := ExtendUnique(relays, tag[1..], Values(Named(tags[..i], "relays")));
      } else if |tag| >= 1 && tag[0] == "blossoms" {
        blossoms := ExtendUnique(blossoms, tag[1..], Values(Named(tags[..i], "blossoms")));
      } else if |tag| >= 1 && tag[0] == "maintainers" {
        maintainers := ExtendUnique(maintainers, tag[1..], Values(Named(tags[..i], "maintainers")));
      } else if |tag| >= 2 && tag[0] == "t" {
        hashtags := PushUnique(hashtags, tag[1]);
      }
    }
    assert tags[..|tags|] == tags;
    match identifier
    case None => r := Err(MissingField("d"));
    case Some(id) =>
      r := Ok(RepoAnnouncement(id, name, description, rootCommit, clone, web, relays, blossoms, hashtags, maintainers));
      ReadsParsed(tags);
  }

  const NAMES := ["d", "name", "description", "r", "clone", "web", "relays", "blossoms", "maintainers", "t"]

  function RootTag(commit: Option<string>): (r: seq<Tag>)
    ensures AllNamed(r, "r")
  {
    match commit
    case None => []
    case Some(c) => [["r", c, "euc"]]
  }

  /** The printed form: one run of tags per field. */
  function Parts(a: RepoAnnouncement): (r: seq<seq<Tag>>) {
    [Maybe("d", Some(a.identifier)),
     Maybe("name", a.name),
     Maybe("description", a.description),
     RootTag(a.rootCommit),
     Joined("clone", a.clone),
     Joined("web", a.web),
     Joined("relays", a.relays),
     Joined("blossoms", a.blossoms),
     Joined("maintainers", a.maintainers),
     Each("t", a.hashtags)]
  }

  function Print(a: RepoAnnouncement): (r: seq<Tag>) {
    Concat(Parts(a), |NAMES|)
  }

  method ToTags(a: RepoAnnouncement) returns (tags: seq<Tag>)
    ensures tags == Print(a)
  {
    tags := [["d", a.identifier]];
    tags := PushMaybe(tags, "name", a.name);
    tags := PushMaybe(tags, "description", a.description);
    if a.rootCommit.Some? {
      tags := tags + [["r", a.rootCommit.value, "euc"]];
    }
    tags := PushJoined(tags, "clone", a.clone);
    tags := PushJoined(tags, "web", a.web);
    tags := PushJoined(tags, "relays", a.relays);
    tags := PushJoined(tags, "blossoms", a.blossoms);
    tags := PushJoined(tags, "maintainers", a.maintainers);
    tags := PushEach(tags, "t", a.hashtags);
    PrintSum(a);
  }

  lemma PrintSum(a: RepoAnnouncement)
    ensures Print(a) ==
            Maybe("d", Some(a.identifier)) + Maybe("name", a.name) + Maybe("description", a.description)
            + RootTag(a.rootCommit) + Joined("clone", a.clone) + Joined("web", a.web) + Joined("relays", a.relays)
            + Joined("blossoms", a.blossoms) + Joined("maintainers", a.maintainers) + Each("t", a.hashtags)
  {
    ConcatSums(Parts(a));
  }

  /** The printed tags, spelled out. */
  lemma PrintedForm(a: RepoAnnouncement)
    ensures Print(a) ==
            [["d", a.identifier]]
            + (if a.name.Some? then [["name", a.name.value]] else [])
            + (if a.description.Some? then [["description", a.description.value]] else [])
            + (if a.rootCommit.Some? then [["r", a.rootCommit.value, "euc"]] else [])
            + (if a.clone != [] then [["clone"] + a.clone] else [])
            + (if a.web != [] then [["web"] + a.web] else [])
            + (if a.relays != [] then [["relays"] + a.relays] else [])
            + (if a.blossoms != [] then [["blossoms"] + a.blossoms] else [])
            + (if a.maintainers != [] then [["maintainers"] + a.maintainers] else [])
            + Each("t", a.hashtags)
  {
    PrintSum(a);
  }

  // ---- what the raw tags mean

  /** The commit of an `r` tag with two elements, or three of which the last is the marker. */
  function RootOf(): (r: Reader) {
    (tag: Tag) =>
      if (|tag| == 2 || (|tag| == 3 && tag[2] == "euc")) && tag[0] == "r" then [tag[1]] else []
  }

  /** The announcement the tags describe: scalars by the last tag, lists by first occurrences. */
  ghost predicate Reads(tags: seq<Tag>, a: RepoAnnouncement) {
    && LastOne(Some(a.identifier), tags, HeadOf("d"))
    && LastOne(a.name, tags, HeadOf("name"))
    && LastOne(a.description, tags, HeadOf("description"))
    && LastOne(a.rootCommit, tags, RootOf())
    && FirstOccurrences(a.clone, tags, SlotsOf("clone"))
    && FirstOccurrences(a.web, tags, SlotsOf("web"))
    && FirstOccurrences(a.relays, tags, SlotsOf("relays"))
    && FirstOccurrences(a.blossoms, tags, SlotsOf("blossoms"))
    && FirstOccurrences(a.hashtags, tags, HeadOf("t"))
    && FirstOccurrences(a.maintainers, tags, SlotsOf("maintainers"))
  }

  lemma {:induction false} RootGathered(tags: seq<Tag>)
    ensures RootCommits(Named(tags, "r")) == Gathered(tags, RootOf())
  {
    if tags != [] {
      var n := |tags| - 1;
      RootGathered(tags[..n]);
      assert tags == tags[..n] + [tags[n]];
      NamedPush(tags[..n], tags[n], "r");
      RootCommitsPush(Named(tags[..n], "r"), tags[n]);
    }
  }

  lemma ReadsScalars(tags: seq<Tag>)
    ensures LastOne(LastValue(tags, "d"), tags, HeadOf("d"))
    ensures LastOne(LastValue(tags, "name"), tags, HeadOf("name"))
    ensures LastOne(LastValue(tags, "description"), tags, HeadOf("description"))
    ensures LastOne(RootCommit(tags), tags, RootOf())
  {
    ReadsLast(tags, "d");
    ReadsLast(tags, "name");
    ReadsLast(tags, "description");
    RootGathered(tags);
    LastReads(tags, RootOf());
  }

  lemma ReadsParsed(tags: seq<Tag>)
    requires Parse(tags).Ok?
    ensures Reads(tags, Parse(tags).value)
  {
    ReadsScalars(tags);
    ReadsValues(tags, "clone");
    ReadsValues(tags, "web");
    ReadsValues(tags, "relays");
    ReadsValues(tags, "blossoms");
    ReadsHeads(tags, "t");
    ReadsValues(tags, "maintainers");
  }

  lemma ReadsUnique(tags: seq<Tag>, a: RepoAnnouncement, b: RepoAnnouncement)
    requires Reads(tags, a) && Reads(tags, b)
    ensures a == b
  {
    LastOneUnique(Some(a.identifier), Some(b.identifier), tags, HeadOf("d"));
    LastOneUnique(a.name, b.name, tags, HeadOf("name"));
    LastOneUnique(a.description, b.description, tags, HeadOf("description"));
    LastOneUnique(a.rootCommit, b.rootCommit, tags, RootOf());
    FirstOccurrencesUnique(a.clone, b.clone, tags, SlotsOf("clone"));
    FirstOccurrencesUnique(a.web, b.web, tags, SlotsOf("web"));
    FirstOccurrencesUnique(a.relays, b.relays, tags, SlotsOf("relays"));
    FirstOccurrencesUnique(a.blossoms, b.blossoms, tags, SlotsOf("blossoms"));
    FirstOccurrencesUnique(a.hashtags, b.hashtags, tags, HeadOf("t"));
    FirstOccurrencesUnique(a.maintainers, b.maintainers, tags, SlotsOf("maintainers"));
  }

  /** Parsing gives exactly the announcement the raw tags describe, and fails exactly when no
      tag gives an identifier. */
  lemma ParseMeaning(tags: seq<Tag>, a: RepoAnnouncement)
    ensures Parse(tags) == Ok(a) <==> Reads(tags, a)
    ensures Parse(tags).Err? <==> LastOne(None, tags, HeadOf("d"))
    ensures Parse(tags).Err? ==> Parse(tags) == Err(MissingField("d"))
  {
    ReadsLast(tags, "d");
    if Parse(tags).Ok? {
      ReadsParsed(tags);
      if Reads(tags, a) {
        ReadsUnique(tags, a, Parse(tags).value);
      }
    } else if Reads(tags, a) {
      LastOneUnique(Some(a.identifier), None, tags, HeadOf("d"));
    }
  }

  /** The announcement with every list reduced to first occurrences. */
  function Canon(a: RepoAnnouncement): (r: RepoAnnouncement) {
    a.(clone := Dedup(a.clone), web := Dedup(a.web), relays := Dedup(a.relays), blossoms := Dedup(a.blossoms),
       hashtags := Dedup(a.hashtags), maintainers := Dedup(a.maintainers))
  }

  ghost predicate DuplicateFree(a: RepoAnnouncement) {
    && NoDuplicates(a.clone) && NoDuplicates(a.web) && NoDuplicates(a.relays)
    && NoDuplicates(a.blossoms) && NoDuplicates(a.hashtags) && NoDuplicates(a.maintainers)
  }

  lemma PrintedBlocks(a: RepoAnnouncement)
    ensures Blocks(NAMES, Parts(a))
  {
  }

  lemma PrintedRoot(tags: seq<Tag>, commit: Option<string>)
    requires Named(tags, "r") == RootTag(commit)
    ensures RootCommit(tags) == commit
  {
    if commit.Some? {
      RootCommitsPush([], ["r", commit.value, "euc"]);
      assert [] + [["r", commit.value, "euc"]] == RootTag(commit);
    }
  }

  lemma PrintedScalars(a: RepoAnnouncement)
    ensures LastValue(Print(a), "d") == Some(a.identifier)
    ensures LastValue(Print(a), "name") == a.name
    ensures LastValue(Print(a), "description") == a.description
    ensures RootCommit(Print(a)) == a.rootCommit
  {
    PrintedBlocks(a);
    PrintedMaybe(NAMES, Parts(a), 0, Some(a.identifier));
    PrintedMaybe(NAMES, Parts(a), 1, a.name);
    PrintedMaybe(NAMES, Parts(a), 2, a.description);
    NamedBlock(NAMES, Parts(a), 3, |NAMES|);
    PrintedRoot(Print(a), a.rootCommit);
  }

  lemma PrintedLists(a: RepoAnnouncement)
    ensures UniqueValues(Print(a), "clone") == Dedup(a.clone)
    ensures UniqueValues(Print(a), "web") == Dedup(a.web)
    ensures UniqueValues(Print(a), "relays") == Dedup(a.relays)
    ensures UniqueValues(Print(a), "blossoms") == Dedup(a.blossoms)
    ensures UniqueValues(Print(a), "maintainers") == Dedup(a.maintainers)
    ensures UniqueHeads(Print(a), "t") == Dedup(a.hashtags)
  {
    PrintedBlocks(a);
    PrintedJoined(NAMES, Parts(a), 4, a.clone);
    PrintedJoined(NAMES, Parts(a), 5, a.web);
    PrintedJoined(NAMES, Parts(a), 6, a.relays);
    PrintedJoined(NAMES, Parts(a), 7, a.blossoms);
    PrintedJoined(NAMES, Parts(a), 8, a.maintainers);
    PrintedEach(NAMES, Parts(a), 9, a.hashtags);
  }

  /** Parsing a printed announcement yields it with each list reduced to first occurrences. */
  lemma ParsePrint(a: RepoAnnouncement)
    ensures Parse(Print(a)) == Ok(Canon(a))
  {
    PrintedScalars(a);
    PrintedLists(a);
  }

  lemma RoundTrip(a: RepoAnnouncement)
    ensures Parse(Print(a)) == Ok(a) <==> DuplicateFree(a)
  {
    ParsePrint(a);
    DedupFixed(a.clone);
    DedupFixed(a.web);
    DedupFixed(a.relays);
    DedupFixed(a.blossoms);
    DedupFixed(a.hashtags);
    DedupFixed(a.maintainers);
  }

  lemma ParsedDuplicateFree(tags: seq<Tag>)
    requires Parse(tags).Ok?
    ensures DuplicateFree(Parse(tags).value)
  {
    DedupElements(Values(Named(tags, "clone")));
    DedupElements(Values(Named(tags, "web")));
    DedupElements(Values(Named(tags, "relays")));
    DedupElements(Values(Named(tags, "blossoms")));
    DedupElements(Heads(Named(tags, "t")));
    DedupElements(Values(Named(tags, "maintainers")));
  }

  lemma FixedPoint(tags: seq<Tag>)
    requires Parse(tags).Ok?
    ensures Parse(Print(Parse(tags).value)) == Parse(tags)
  {
    ParsedDuplicateFree(tags);
    RoundTrip(Parse(tags).value);
  }
}
