/** Pull requests and their updates (crates/core/src/nip34_proposals.rs). */
module PullRequests {
  import opened Wrappers
  import opened Sorting
  import opened Tags
  import opened Reading

  datatype PullRequest = PullRequest(
    repoAddress: string,
    repoRefs: seq<string>,
    mentions: seq<string>,
    subject: Option<string>,
    labels: seq<string>,
    tipCommit: string,
    clone: seq<string>,
    branchName: Option<string>,
    revisionOf: Option<string>,
    mergeBase: Option<string>)

  function Parse(tags: seq<Tag>): (r: Result<PullRequest, CoreError>) {
    match (LastValue(tags, "a"), LastValue(tags, "c"))
    case (None, _) => Err(MissingField("a"))
    case (_, None) => Err(MissingField("c"))
    case (Some(address), Some(tip)) =>
      Ok(PullRequest(
           address,
           UniqueHeads(tags, "r"),
           UniqueHeads(tags, "p"),
           LastValue(tags, "subject"),
           UniqueHeads(tags, "t"),
           tip,
           UniqueValues(tags, "clone"),
           LastValue(tags, "branch-name"),
           LastValue(tags, "e"),
           LastValue(tags, "merge-base")))
  }

  method FromTags(tags: seq<Tag>) returns (r: Result<PullRequest, CoreError>)
    ensures r == Parse(tags)
    ensures r.Ok? ==> Reads(tags, r.value)
  {
    var address, subject, tip, branchName, revisionOf, mergeBase: Option<string> := None, None, None, None, None, None;
    var repoRefs, mentions, labels, clone := [], [], [], [];
    for i := 0 to |tags|
      invariant address == LastValue(tags[..i], "a")
      invariant repoRefs == UniqueHeads(tags[..i], "r")
      invariant mentions == UniqueHeads(tags[..i], "p")
      invariant subject == LastValue(tags[..i], "subject")
      invariant labels == UniqueHeads(tags[..i], "t")
      invariant tip == LastValue(tags[..i], "c")
      invariant clone == UniqueValues(tags[..i], "clone")
      invariant branchName == LastValue(tags[..i], "branch-name")
      invariant revisionOf == LastValue(tags[..i], "e")
      invariant mergeBase == LastValue(tags[..i], "merge-base")
    {
      var tag := tags[i];
      ReadLast(tags, i, "a");
      ReadHeads(tags, i, "r");
      ReadHeads(tags, i, "p");
      ReadLast(tags, i, "subject");
      ReadHeads(tags, i, "t");
      ReadLast(tags, i, "c");
      ReadValues(tags, i, "clone");
      ReadLast(tags, i, "branch-name");
      ReadLast(tags, i, "e");
      ReadLast(tags, i, "merge-base");
      if |tag| >= 2 && tag[0] == "a" {
        address := Some(tag[1]);
      } else if |tag| >= 2 && tag[0] == "r" {
        repoRefs := PushUnique(repoRefs, tag[1]);
      } else if |tag| >= 2 && tag[0] == "p" {
        mentions := PushUnique(mentions, tag[1]);
      } else if |tag| >= 2 && tag[0] == "subject" {
        subject := Some(tag[1]);
      } else if |tag| >= 2 && tag[0] == "t" {
        labels := PushUnique(labels, tag[1]);
      } else if |tag| >= 2 && tag[0] == "c" {
        tip := Some(tag[1]);
      } else if |tag| >= 1 && tag[0] == "clone" {
        clone := ExtendUnique(clone, tag[1..], Values(Named(tags[..i], "clone")));
      } else if |tag| >= 2 && tag[0] == "branch-name" {
        branchName := Some(tag[1]);
      } else if |tag| >= 2 && tag[0] == "e" {
        revisionOf := Some(tag[1]);
      } else if |tag| >= 2 && tag[0] == "merge-base" {
        mergeBase := Some(tag[1]);
      }
    }
    assert tags[..|tags|] == tags;
    match address
    case None => r := Err(MissingField("a"));
    case Some(value) =>
      match tip
      case None => r := Err(MissingField("c"));
      case Some(commit) =>
        r := Ok(PullRequest(
                  value, repoRefs, mentions, subject, labels, commit, clone, branchName, revisionOf, mergeBase));
        ReadsParsed(tags);
  }

  const NAMES := ["a", "r", "p", "subject", "t", "c", "clone", "branch-name", "e", "merge-base"]

  function Parts(e: PullRequest): (r: seq<seq<Tag>>) {
    [Maybe("a", Some(e.repoAddress)),
     Each("r", e.repoRefs),
     Each("p", e.mentions),
     Maybe("subject", e.subject),
     Each("t", e.labels),
     Maybe("c", Some(e.tipCommit)),
     Joined("clone", e.clone),
     Maybe("branch-name", e.branchName),
     Maybe("e", e.revisionOf),
     Maybe("merge-base", e.mergeBase)]
  }

  function Print(e: PullRequest): (r: seq<Tag>) {
    Concat(Parts(e), |NAMES|)
  }

  method ToTags(e: PullRequest) returns (tags: seq<Tag>)
    ensures tags == Print(e)
  {
    tags := [["a", e.repoAddress]];
    tags := PushEach(tags, "r", e.repoRefs);
    tags := PushEach(tags, "p", e.mentions);
    tags := PushMaybe(tags, "subject", e.subject);
    tags := PushEach(tags, "t", e.labels);
    tags := tags + [["c", e.tipCommit]];
    tags := PushJoined(tags, "clone", e.clone);
    tags := PushMaybe(tags, "branch-name", e.branchName);
    tags := PushMaybe(tags, "e", e.revisionOf);
    tags := PushMaybe(tags, "merge-base", e.mergeBase);
    PrintedForm(e);
  }

  // ---- what the raw tags mean

  ghost predicate Reads(tags: seq<Tag>, e: PullRequest) {
    && LastOne(Some(e.repoAddress), tags, HeadOf("a"))
    && FirstOccurrences(e.repoRefs, tags, HeadOf("r"))
    && FirstOccurrences(e.mentions, tags, HeadOf("p"))
    && LastOne(e.subject, tags, HeadOf("subject"))
    && FirstOccurrences(e.labels, tags, HeadOf("t"))
    && LastOne(Some(e.tipCommit), tags, HeadOf("c"))
    && FirstOccurrences(e.clone, tags, SlotsOf("clone"))
    && LastOne(e.branchName, tags, HeadOf("branch-name"))
    && LastOne(e.revisionOf, tags, HeadOf("e"))
    && LastOne(e.mergeBase, tags, HeadOf("merge-base"))
  }

  lemma ReadsParsed(tags: seq<Tag>)
    requires Parse(tags).Ok?
    ensures Reads(tags, Parse(tags).value)
  {
    ReadsLast(tags, "a");
    ReadsHeads(tags, "r");
    ReadsHeads(tags, "p");
    ReadsLast(tags, "subject");
    ReadsHeads(tags, "t");
    ReadsLast(tags, "c");
    ReadsValues(tags, "clone");
    ReadsLast(tags, "branch-name");
    ReadsLast(tags, "e");
    ReadsLast(tags, "merge-base");
  }

  lemma ReadsUnique(tags: seq<Tag>, x: PullRequest, y: PullRequest)
    requires Reads(tags, x) && Reads(tags, y)
    ensures x == y
  {
    LastOneUnique(Some(x.repoAddress), Some(y.repoAddress), tags, HeadOf("a"));
    FirstOccurrencesUnique(x.repoRefs, y.repoRefs, tags, HeadOf("r"));
    FirstOccurrencesUnique(x.mentions, y.mentions, tags, HeadOf("p"));
    LastOneUnique(x.subject, y.subject, tags, HeadOf("subject"));
    FirstOccurrencesUnique(x.labels, y.labels, tags, HeadOf("t"));
    LastOneUnique(Some(x.tipCommit), Some(y.tipCommit), tags, HeadOf("c"));
    FirstOccurrencesUnique(x.clone, y.clone, tags, SlotsOf("clone"));
    LastOneUnique(x.branchName, y.branchName, tags, HeadOf("branch-name"));
    LastOneUnique(x.revisionOf, y.revisionOf, tags, HeadOf("e"));
    LastOneUnique(x.mergeBase, y.mergeBase, tags, HeadOf("merge-base"));
  }

  /** Parsing gives exactly the pull request the raw tags describe; otherwise the address is
      missing, or only the commit is. */
  lemma ParseMeaning(tags: seq<Tag>, e: PullRequest)
    ensures Parse(tags) == Ok(e) <==> Reads(tags, e)
    ensures Parse(tags) == Err(MissingField("a")) <==> LastOne(None, tags, HeadOf("a"))
    ensures Parse(tags) == Err(MissingField("c")) <==>
            !LastOne(None, tags, HeadOf("a")) && LastOne(None, tags, HeadOf("c"))
    ensures Parse(tags).Err? ==> Parse(tags).error == MissingField("a") || Parse(tags).error == MissingField("c")
  {
    MissingMeaning(tags, "a");
    MissingMeaning(tags, "c");
    if Parse(tags).Ok? {
      ReadsParsed(tags);
      if Reads(tags, e) {
        ReadsUnique(tags, e, Parse(tags).value);
      }
    } else if Reads(tags, e) {
      ReadsLast(tags, "a");
      ReadsLast(tags, "c");
      LastOneUnique(Some(e.repoAddress), LastValue(tags, "a"), tags, HeadOf("a"));
      LastOneUnique(Some(e.tipCommit), LastValue(tags, "c"), tags, HeadOf("c"));
    }
  }

  /** The printed tags, spelled out. */
  lemma PrintedForm(e: PullRequest)
    ensures Print(e) ==
            [["a", e.repoAddress]]
            + Each("r", e.repoRefs)
            + Each("p", e.mentions)
            + (if e.subject.Some? then [["subject", e.subject.value]] else [])
            + Each("t", e.labels)
            + [["c", e.tipCommit]]
            + (if e.clone != [] then [["clone"] + e.clone] else [])
            + (if e.branchName.Some? then [["branch-name", e.branchName.value]] else [])
            + (if e.revisionOf.Some? then [["e", e.revisionOf.value]] else [])
            + (if e.mergeBase.Some? then [["merge-base", e.mergeBase.value]] else [])
  {
    ConcatSums(Parts(e));
  }

  function Canon(e: PullRequest): (r: PullRequest) {
    e.(repoRefs := Dedup(e.repoRefs), mentions := Dedup(e.mentions), labels := Dedup(e.labels), clone := Dedup(e.clone))
  }

  lemma PrintedBlocks(e: PullRequest)
    ensures Blocks(NAMES, Parts(e))
  {
  }

  lemma PrintedScalars(e: PullRequest)
    ensures LastValue(Print(e), "a") == Some(e.repoAddress)
    ensures LastValue(Print(e), "subject") == e.subject
    ensures LastValue(Print(e), "c") == Some(e.tipCommit)
    ensures LastValue(Print(e), "branch-name") == e.branchName
    ensures LastValue(Print(e), "e") == e.revisionOf
    ensures LastValue(Print(e), "merge-base") == e.mergeBase
  {
    PrintedBlocks(e);
    PrintedMaybe(NAMES, Parts(e), 0, Some(e.repoAddress));
    PrintedMaybe(NAMES, Parts(e), 3, e.subject);
    PrintedMaybe(NAMES, Parts(e), 5, Some(e.tipCommit));
    PrintedMaybe(NAMES, Parts(e), 7, e.branchName);
    PrintedMaybe(NAMES, Parts(e), 8, e.revisionOf);
    PrintedMaybe(NAMES, Parts(e), 9, e.mergeBase);
  }

  lemma PrintedLists(e: PullRequest)
    ensures UniqueHeads(Print(e), "r") == Dedup(e.repoRefs)
    ensures UniqueHeads(Print(e), "p") == Dedup(e.mentions)
    ensures UniqueHeads(Print(e), "t") == Dedup(e.labels)
    ensures UniqueValues(Print(e), "clone") == Dedup(e.clone)
  {
    PrintedBlocks(e);
    PrintedEach(NAMES, Parts(e), 1, e.repoRefs);
    PrintedEach(NAMES, Parts(e), 2, e.mentions);
    PrintedEach(NAMES, Parts(e), 4, e.labels);
    PrintedJoined(NAMES, Parts(e), 6, e.clone);
  }

  lemma ParsePrint(e: PullRequest)
    ensures Parse(Print(e)) == Ok(Canon(e))
  {
    PrintedScalars(e);
    PrintedLists(e);
  }

  lemma RoundTrip(e: PullRequest)
    ensures Parse(Print(e)) == Ok(e) <==>
            && NoDuplicates(e.repoRefs) && NoDuplicates(e.mentions)
            && NoDuplicates(e.labels) && NoDuplicates(e.clone)
  {
    ParsePrint(e);
    DedupFixed(e.repoRefs);
    DedupFixed(e.mentions);
    DedupFixed(e.labels);
    DedupFixed(e.clone);
  }

  lemma FixedPoint(tags: seq<Tag>)
    requires Parse(tags).Ok?
    ensures Parse(Print(Parse(tags).value)) == Parse(tags)
  {
    DedupElements(Heads(Named(tags, "r")));
    DedupElements(Heads(Named(tags, "p")));
    DedupElements(Heads(Named(tags, "t")));
    DedupElements(Values(Named(tags, "clone")));
    RoundTrip(Parse(tags).value);
  }
}

module PullRequestUpdates {
  import opened Wrappers
  import opened Sorting
  import opened Tags
  import opened Reading

  datatype PullRequestUpdate = PullRequestUpdate(
    repoAddress: string,
    repoRefs: seq<string>,
    mentions: seq<string>,
    rootEventId: string,
    rootAuthor: string,
    tipCommit: string,
    clone: seq<string>,
    mergeBase: Option<string>)

  function Parse(tags: seq<Tag>): (r: Result<PullRequestUpdate, CoreError>) {
    match LastValue(tags, "a")
    case None => Err(MissingField("a"))
    case Some(address) =>
      match LastValue(tags, "E")
      case None => Err(MissingField("E"))
      case Some(root) =>
        match LastValue(tags, "P")
        case None => Err(MissingField("P"))
        case Some(author) =>
          match LastValue(tags, "c")
          case None => Err(MissingField("c"))
          case Some(tip) =>
            Ok(PullRequestUpdate(
                 address,
                 UniqueHeads(tags, "r"),
                 UniqueHeads(tags, "p"),
                 root,
                 author,
                 tip,
                 UniqueValues(tags, "clone"),
                 LastValue(tags, "merge-base")))
  }

  method FromTags(tags: seq<Tag>) returns (r: Result<PullRequestUpdate, CoreError>)
    ensures r == Parse(tags)
    ensures r.Ok? ==> Reads(tags, r.value)
  {
    var address, root, author, tip, mergeBase: Option<string> := None, None, None, None, None;
    var repoRefs, mentions, clone := [], [], [];
    for i := 0 to |tags|
      invariant address == LastValue(tags[..i], "a")
      invariant repoRefs == UniqueHeads(tags[..i], "r")
      invariant mentions == UniqueHeads(tags[..i], "p")
      invariant root == LastValue(tags[..i], "E")
      invariant author == LastValue(tags[..i], "P")
      invariant tip == LastValue(tags[..i], "c")
      invariant clone == UniqueValues(tags[..i], "clone")
      invariant mergeBase == LastValue(tags[..i], "merge-base")
    {
      var tag := tags[i];
      ReadLast(tags, i, "a");
      ReadHeads(tags, i, "r");
      ReadHeads(tags, i, "p");
      ReadLast(tags, i, "E");
      ReadLast(tags, i, "P");
      ReadLast(tags, i, "c");
      ReadValues(tags, i, "clone");
      ReadLast(tags, i, "merge-base");
      if |tag| >= 2 && tag[0] == "a" {
        address := Some(tag[1]);
      } else if |tag| >= 2 && tag[0] == "r" {
        repoRefs := PushUnique(repoRefs, tag[1]);
      } else if |tag| >= 2 && tag[0] == "p" {
        mentions := PushUnique(mentions, tag[1]);
      } else if |tag| >= 2 && tag[0] == "E" {
        root := Some(tag[1]);
      } else if |tag| >= 2 && tag[0] == "P" {
        author := Some(tag[1]);
      } else if |tag| >= 2 && tag[0] == "c" {
        tip := Some(tag[1]);
      } else if |tag| >= 1 && tag[0] == "clone" {
        clone := ExtendUnique(clone, tag[1..], Values(Named(tags[..i], "clone")));
      } else if |tag| >= 2 && tag[0] == "merge-base" {
        mergeBase := Some(tag[1]);
      }
    }
    assert tags[..|tags|] == tags;
    if address.None? {
      r := Err(MissingField("a"));
    } else if root.None? {
      r := Err(MissingField("E"));
    } else if author.None? {
      r := Err(MissingField("P"));
    } else if tip.None? {
      r := Err(MissingField("c"));
    } else {
      r := Ok(PullRequestUpdate(
                address.value, repoRefs, mentions, root.value, author.value, tip.value, clone, mergeBase));
    }
    if r.Ok? {
      ReadsParsed(tags);
    }
  }

  const NAMES := ["a", "r", "p", "E", "P", "c", "clone", "merge-base"]

  function Parts(e: PullRequestUpdate): (r: seq<seq<Tag>>) {
    [Maybe("a", Some(e.repoAddress)),
     Each("r", e.repoRefs),
     Each("p", e.mentions),
     Maybe("E", Some(e.rootEventId)),
     Maybe("P", Some(e.rootAuthor)),
     Maybe("c", Some(e.tipCommit)),
     Joined("clone", e.clone),
     Maybe("merge-base", e.mergeBase)]
  }

  function Print(e: PullRequestUpdate): (r: seq<Tag>) {
    Concat(Parts(e), |NAMES|)
  }

  method ToTags(e: PullRequestUpdate) returns (tags: seq<Tag>)
    ensures tags == Print(e)
  {
    tags := [["a", e.repoAddress]];
    tags := PushEach(tags, "r", e.repoRefs);
    tags := PushEach(tags, "p", e.mentions);
    tags := tags + [["E", e.rootEventId]];
    tags := tags + [["P", e.rootAuthor]];
    tags := tags + [["c", e.tipCommit]];
    tags := PushJoined(tags, "clone", e.clone);
    tags := PushMaybe(tags, "merge-base", e.mergeBase);
    PrintedForm(e);
  }

  // ---- what the raw tags mean

  ghost predicate Reads(tags: seq<Tag>, e: PullRequestUpdate) {
    && LastOne(Some(e.repoAddress), tags, HeadOf("a"))
    && FirstOccurrences(e.repoRefs, tags, HeadOf("r"))
    && FirstOccurrences(e.mentions, tags, HeadOf("p"))
    && LastOne(Some(e.rootEventId), tags, HeadOf("E"))
    && LastOne(Some(e.rootAuthor), tags, HeadOf("P"))
    && LastOne(Some(e.tipCommit), tags, HeadOf("c"))
    && FirstOccurrences(e.clone, tags, SlotsOf("clone"))
    && LastOne(e.mergeBase, tags, HeadOf("merge-base"))
  }

  lemma ReadsParsed(tags: seq<Tag>)
    requires Parse(tags).Ok?
    ensures Reads(tags, Parse(tags).value)
  {
    ReadsLast(tags, "a");
    ReadsHeads(tags, "r");
    ReadsHeads(tags, "p");
    ReadsLast(tags, "E");
    ReadsLast(tags, "P");
    ReadsLast(tags, "c");
    ReadsValues(tags, "clone");
    ReadsLast(tags, "merge-base");
  }

  lemma ReadsUnique(tags: seq<Tag>, x: PullRequestUpdate, y: PullRequestUpdate)
    requires Reads(tags, x) && Reads(tags, y)
    ensures x == y
  {
    LastOneUnique(Some(x.repoAddress), Some(y.repoAddress), tags, HeadOf("a"));
    FirstOccurrencesUnique(x.repoRefs, y.repoRefs, tags, HeadOf("r"));
    FirstOccurrencesUnique(x.mentions, y.mentions, tags, HeadOf("p"));
    LastOneUnique(Some(x.rootEventId), Some(y.rootEventId), tags, HeadOf("E"));
    LastOneUnique(Some(x.rootAuthor), Some(y.rootAuthor), tags, HeadOf("P"));
    LastOneUnique(Some(x.tipCommit), Some(y.tipCommit), tags, HeadOf("c"));
    FirstOccurrencesUnique(x.clone, y.clone, tags, SlotsOf("clone"));
    LastOneUnique(x.mergeBase, y.mergeBase, tags, HeadOf("merge-base"));
  }

  /** The first of the required fields that no tag gives. */
  ghost function FirstMissing(tags: seq<Tag>): (r: Option<string>) {
    if LastOne(None, tags, HeadOf("a")) then Some("a")
    else if LastOne(None, tags, HeadOf("E")) then Some("E")
    else if LastOne(None, tags, HeadOf("P")) then Some("P")
    else if LastOne(None, tags, HeadOf("c")) then Some("c")
    else None
  }

  /** Parsing gives exactly the update the raw tags describe, or names the first missing field. */
  lemma ParseMeaning(tags: seq<Tag>, e: PullRequestUpdate)
    ensures Parse(tags) == Ok(e) <==> Reads(tags, e)
    ensures Parse(tags).Err? <==> FirstMissing(tags).Some?
    ensures Parse(tags).Err? ==> Parse(tags) == Err(MissingField(FirstMissing(tags).value))
  {
    MissingMeaning(tags, "a");
    MissingMeaning(tags, "E");
    MissingMeaning(tags, "P");
    MissingMeaning(tags, "c");
    if Parse(tags).Ok? {
      ReadsParsed(tags);
      if Reads(tags, e) {
        ReadsUnique(tags, e, Parse(tags).value);
      }
    } else if Reads(tags, e) {
      ReadsNoneMissing(tags, e);
    }
  }

  lemma ReadsNoneMissing(tags: seq<Tag>, e: PullRequestUpdate)
    requires Reads(tags, e)
    ensures FirstMissing(tags).None?
  {
    GivenNotMissing(e.repoAddress, tags, HeadOf("a"));
    GivenNotMissing(e.rootEventId, tags, HeadOf("E"));
    GivenNotMissing(e.rootAuthor, tags, HeadOf("P"));
    GivenNotMissing(e.tipCommit, tags, HeadOf("c"));
  }

  /** The printed tags, spelled out. */
  lemma PrintedForm(e: PullRequestUpdate)
    ensures Print(e) ==
            [["a", e.repoAddress]]
            + Each("r", e.repoRefs)
            + Each("p", e.mentions)
            + [["E", e.rootEventId]]
            + [["P", e.rootAuthor]]
            + [["c", e.tipCommit]]
            + (if e.clone != [] then [["clone"] + e.clone] else [])
            + (if e.mergeBase.Some? then [["merge-base", e.mergeBase.value]] else [])
  {
    ConcatSums(Parts(e));
  }

  function Canon(e: PullRequestUpdate): (r: PullRequestUpdate) {
    e.(repoRefs := Dedup(e.repoRefs), mentions := Dedup(e.mentions), clone := Dedup(e.clone))
  }

  lemma PrintedBlocks(e: PullRequestUpdate)
    ensures Blocks(NAMES, Parts(e))
  {
  }

  lemma PrintedScalars(e: PullRequestUpdate)
    ensures LastValue(Print(e), "a") == Some(e.repoAddress)
    ensures LastValue(Print(e), "E") == Some(e.rootEventId)
    ensures LastValue(Print(e), "P") == Some(e.rootAuthor)
    ensures LastValue(Print(e), "c") == Some(e.tipCommit)
    ensures LastValue(Print(e), "merge-base") == e.mergeBase
  {
    PrintedBlocks(e);
    PrintedMaybe(NAMES, Parts(e), 0, Some(e.repoAddress));
    PrintedMaybe(NAMES, Parts(e), 3, Some(e.rootEventId));
    PrintedMaybe(NAMES, Parts(e), 4, Some(e.rootAuthor));
    PrintedMaybe(NAMES, Parts(e), 5, Some(e.tipCommit));
    PrintedMaybe(NAMES, Parts(e), 7, e.mergeBase);
  }

  lemma PrintedLists(e: PullRequestUpdate)
    ensures UniqueHeads(Print(e), "r") == Dedup(e.repoRefs)
    ensures UniqueHeads(Print(e), "p") == Dedup(e.mentions)
    ensures UniqueValues(Print(e), "clone") == Dedup(e.clone)
  {
    PrintedBlocks(e);
    PrintedEach(NAMES, Parts(e), 1, e.repoRefs);
    PrintedEach(NAMES, Parts(e), 2, e.mentions);
    PrintedJoined(NAMES, Parts(e), 6, e.clone);
  }

  lemma ParsePrint(e: PullRequestUpdate)
    ensures Parse(Print(e)) == Ok(Canon(e))
  {
    PrintedScalars(e);
    PrintedLists(e);
  }

  lemma RoundTrip(e: PullRequestUpdate)
    ensures Parse(Print(e)) == Ok(e) <==> NoDuplicates(e.repoRefs) && NoDuplicates(e.mentions) && NoDuplicates(e.clone)
  {
    ParsePrint(e);
    DedupFixed(e.repoRefs);
    DedupFixed(e.mentions);
    DedupFixed(e.clone);
  }

  lemma FixedPoint(tags: seq<Tag>)
    requires Parse(tags).Ok?
    ensures Parse(Print(Parse(tags).value)) == Parse(tags)
  {
    DedupElements(Heads(Named(tags, "r")));
    DedupElements(Heads(Named(tags, "p")));
    DedupElements(Values(Named(tags, "clone")));
    RoundTrip(Parse(tags).value);
  }
}
