/** Issues (crates/core/src/nip34_issues.rs) and user grasp lists (crates/core/src/nip34_grasp_list.rs). */
module Issues {
  import opened Wrappers
  import opened Sorting
  import opened Tags
  import opened Reading

  datatype Issue = Issue(repoAddress: string, mentions: seq<string>, subject: Option<string>, labels: seq<string>)

  function Parse(tags: seq<Tag>): (r: Result<Issue, CoreError>) {
    match LastValue(tags, "a")
    case None => Err(MissingField("a"))
    case Some(address) =>
      Ok(Issue(address, UniqueHeads(tags, "p"), LastValue(tags, "subject"), UniqueHeads(tags, "t")))
  }

  method FromTags(tags: seq<Tag>) returns (r: Result<Issue, CoreError>)
    ensures r == Parse(tags)
    ensures r.Ok? ==> Reads(tags, r.value)
  {
    var address, subject: Option<string> := None, None;
    var mentions, labels := [], [];
    for i := 0 to |tags|
      invariant address == LastValue(tags[..i], "a")
      invariant mentions == UniqueHeads(tags[..i], "p")
      invariant subject == LastValue(tags[..i], "subject")
      invariant labels == UniqueHeads(tags[..i], "t")
    {
      var tag := tags[i];
      ReadLast(tags, i, "a");
      ReadHeads(tags, i, "p");
      ReadLast(tags, i, "subject");
      ReadHeads(tags, i, "t");
      if |tag| >= 2 && tag[0] == "a" {
        address := Some(tag[1]);
      } else if |tag| >= 2 && tag[0] == "p" {
        mentions := PushUnique(mentions, tag[1]);
      } else if |tag| >= 2 && tag[0] == "subject" {
        subject := Some(tag[1]);
      } else if |tag| >= 2 && tag[0] == "t" {
        labels := PushUnique(labels, tag[1]);
      }
    }
    assert tags[..|tags|] == tags;
    match address
    case None => r := Err(MissingField("a"));
    case Some(value) =>
      r := Ok(Issue(value, mentions, subject, labels));
      ParseMeaning(tags, r.value);
  }

  const NAMES := ["a", "p", "subject", "t"]

  function Parts(e: Issue): (r: seq<seq<Tag>>) {
    [Maybe("a", Some(e.repoAddress)), Each("p", e.mentions), Maybe("subject", e.subject), Each("t", e.labels)]
  }

  function Print(e: Issue): (r: seq<Tag>) {
    Concat(Parts(e), |NAMES|)
  }

  method ToTags(e: Issue) returns (tags: seq<Tag>)
    ensures tags == Print(e)
  {
    tags := [["a", e.repoAddress]];
    tags := PushEach(tags, "p", e.mentions);
    tags := PushMaybe(tags, "subject", e.subject);
    tags := PushEach(tags, "t", e.labels);
    PrintedForm(e);
  }

  // ---- what the raw tags mean

  ghost predicate Reads(tags: seq<Tag>, e: Issue) {
    && LastOne(Some(e.repoAddress), tags, HeadOf("a"))
    && FirstOccurrences(e.mentions, tags, HeadOf("p"))
    && LastOne(e.subject, tags, HeadOf("subject"))
    && FirstOccurrences(e.labels, tags, HeadOf("t"))
  }

  lemma ReadsUnique(tags: seq<Tag>, x: Issue, y: Issue)
    requires Reads(tags, x) && Reads(tags, y)
    ensures x == y
  {
    LastOneUnique(Some(x.repoAddress), Some(y.repoAddress), tags, HeadOf("a"));
    FirstOccurrencesUnique(x.mentions, y.mentions, tags, HeadOf("p"));
    LastOneUnique(x.subject, y.subject, tags, HeadOf("subject"));
    FirstOccurrencesUnique(x.labels, y.labels, tags, HeadOf("t"));
  }

  /** Parsing gives exactly the issue the raw tags describe, and fails exactly without an address. */
  lemma ParseMeaning(tags: seq<Tag>, e: Issue)
    ensures Parse(tags) == Ok(e) <==> Reads(tags, e)
    ensures Parse(tags).Err? <==> LastOne(None, tags, HeadOf("a"))
    ensures Parse(tags).Err? ==> Parse(tags) == Err(MissingField("a"))
  {
    MissingMeaning(tags, "a");
    ReadsLast(tags, "a");
    ReadsHeads(tags, "p");
    ReadsLast(tags, "subject");
    ReadsHeads(tags, "t");
    if Parse(tags).Ok? && Reads(tags, e) {
      ReadsUnique(tags, e, Parse(tags).value);
    }
  }

  /** The printed tags, spelled out. */
  lemma PrintedForm(e: Issue)
    ensures Print(e) ==
            [["a", e.repoAddress]]
            + Each("p", e.mentions)
            + (if e.subject.Some? then [["subject", e.subject.value]] else [])
            + Each("t", e.labels)
  {
    ConcatSums(Parts(e));
  }

  function Canon(e: Issue): (r: Issue) {
    e.(mentions := Dedup(e.mentions), labels := Dedup(e.labels))
  }

  lemma ParsePrint(e: Issue)
    ensures Parse(Print(e)) == Ok(Canon(e))
  {
    assert Blocks(NAMES, Parts(e));
    PrintedMaybe(NAMES, Parts(e), 0, Some(e.repoAddress));
    PrintedEach(NAMES, Parts(e), 1, e.mentions);
    PrintedMaybe(NAMES, Parts(e), 2, e.subject);
    PrintedEach(NAMES, Parts(e), 3, e.labels);
  }

  /** An issue survives printing and parsing exactly when its lists have no duplicates. */
  lemma RoundTrip(e: Issue)
    ensures Parse(Print(e)) == Ok(e) <==> NoDuplicates(e.mentions) && NoDuplicates(e.labels)
  {
    ParsePrint(e);
    DedupFixed(e.mentions);
    DedupFixed(e.labels);
  }

  lemma FixedPoint(tags: seq<Tag>)
    requires Parse(tags).Ok?
    ensures Parse(Print(Parse(tags).value)) == Parse(tags)
  {
    DedupElements(Heads(Named(tags, "p")));
    DedupElements(Heads(Named(tags, "t")));
    RoundTrip(Parse(tags).value);
  }
}

module GraspLists {
  import opened Sorting
  import opened Tags
  import opened Reading

  datatype UserGraspList = UserGraspList(urls: seq<string>)

  function Parse(tags: seq<Tag>): (r: UserGraspList) {
    UserGraspList(UniqueHeads(tags, "g"))
  }

  method FromTagsLossy(tags: seq<Tag>) returns (r: UserGraspList)
    ensures r == Parse(tags)
    ensures FirstOccurrences(r.urls, tags, HeadOf("g"))
  {
    var urls := [];
    for i := 0 to |tags|
      invariant urls == UniqueHeads(tags[..i], "g")
    {
      ReadHeads(tags, i, "g");
      if |tags[i]| >= 2 && tags[i][0] == "g" {
        urls := PushUnique(urls, tags[i][1]);
      }
    }
    assert tags[..|tags|] == tags;
    r := UserGraspList(urls);
    ReadsHeads(tags, "g");
  }

  function Print(e: UserGraspList): (r: seq<Tag>) {
    Each("g", e.urls)
  }

  method ToTags(e: UserGraspList) returns (tags: seq<Tag>)
    ensures tags == Print(e)
  {
    tags := PushEach([], "g", e.urls);
  }

  /** The list holds the first occurrences of the `g` values, and prints one tag for each. */
  lemma ParseMeaning(tags: seq<Tag>, e: UserGraspList)
    ensures Parse(tags) == e <==> FirstOccurrences(e.urls, tags, HeadOf("g"))
    ensures |Print(e)| == |e.urls|
    ensures forall i :: 0 <= i < |e.urls| ==> Print(e)[i] == ["g", e.urls[i]]
  {
    ReadsHeads(tags, "g");
    if FirstOccurrences(e.urls, tags, HeadOf("g")) {
      FirstOccurrencesUnique(e.urls, Parse(tags).urls, tags, HeadOf("g"));
    }
  }

  lemma RoundTrip(e: UserGraspList)
    ensures Parse(Print(e)) == UserGraspList(Dedup(e.urls))
    ensures Parse(Print(e)) == e <==> NoDuplicates(e.urls)
  {
    NamedUniform(Print(e), "g", "g");
    HeadsEach("g", e.urls);
    DedupFixed(e.urls);
  }

  lemma FixedPoint(tags: seq<Tag>)
    ensures Parse(Print(Parse(tags))) == Parse(tags)
  {
    DedupElements(Heads(Named(tags, "g")));
    RoundTrip(Parse(tags));
  }
}
