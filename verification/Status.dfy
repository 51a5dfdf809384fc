/** Status events (crates/core/src/nip34_status.rs). */
module Status {
  import opened Wrappers
  import opened Sorting
  import opened Tags
  import opened Reading

  datatype AppliedRef = AppliedRef(eventId: string, relay: string, pubkey: string)

  datatype StatusEvent = StatusEvent(
    rootEvent: string,
    replyEvents: seq<string>,
    mentions: seq<string>,
    repoAddress: Option<string>,
    repoRefs: seq<string>,
    appliedRefs: seq<AppliedRef>,
    mergeCommit: Option<string>,
    appliedAsCommits: seq<string>)

  /** The applied refs of well-formed `q` tags. */
  function AppliedRefs(tags: seq<Tag>): (r: seq<AppliedRef>) {
    if tags == [] then []
    else
      var rest, tag := AppliedRefs(tags[..|tags| - 1]), tags[|tags| - 1];
      if |tag| >= 4 then rest + [AppliedRef(tag[1], tag[2], tag[3])] else rest
  }

  lemma AppliedRefsPush(tags: seq<Tag>, tag: Tag)
    ensures AppliedRefs(tags + [tag]) ==
            if |tag| >= 4 then AppliedRefs(tags) + [AppliedRef(tag[1], tag[2], tag[3])] else AppliedRefs(tags)
  {
    assert (tags + [tag])[..|tags|] == tags;
  }

  /** The root every later root must repeat. */
  function Root(tags: seq<Tag>): (r: Option<string>) {
    var roots := Marked(Named(tags, "e"), "root");
    if roots == [] then None else Some(roots[0])
  }

  /** What is wrong with a tag read after `root` was established. */
  function TagError(tag: Tag, root: Option<string>): (r: Option<CoreError>) {
    if HasMarker(tag, "e", "root") && root.Some? && root.value != tag[1] then Some(InvalidTag("e"))
    else if HasName(tag, "q") && |tag| < 4 then Some(InvalidField("q"))
    else None
  }

  /** The error of the first offending tag. */
  function FirstError(tags: seq<Tag>): (r: Option<CoreError>) {
    if tags == [] then None
    else
      var init := tags[..|tags| - 1];
      if FirstError(init).Some? then FirstError(init) else TagError(tags[|tags| - 1], Root(init))
  }

  function Parse(tags: seq<Tag>): (r: Result<StatusEvent, CoreError>) {
    if FirstError(tags).Some? then Err(FirstError(tags).value)
    else
      match Root(tags)
      case None => Err(MissingField("e"))
      case Some(root) =>
        Ok(StatusEvent(
             root,
             UniqueMarked(tags, "e", "reply"),
             UniqueHeads(tags, "p"),
             LastValue(tags, "a"),
             UniqueHeads(tags, "r"),
             AppliedOf(tags),
             LastValue(tags, "merge-commit"),
             UniqueValues(tags, "applied-as-commits")))
  }

  lemma ReadRoot(tags: seq<Tag>, i: nat)
    requires i < |tags|
    ensures Root(tags[..i + 1]) ==
            if HasMarker(tags[i], "e", "root") && Root(tags[..i]).None? then Some(tags[i][1]) else Root(tags[..i])
  {
    ReadMarked(tags, i, "e", "root");
  }

  lemma ReadError(tags: seq<Tag>, i: nat)
    requires i < |tags|
    ensures FirstError(tags[..i + 1]) ==
            if FirstError(tags[..i]).Some? then FirstError(tags[..i]) else TagError(tags[i], Root(tags[..i]))
  {
    assert tags[..i + 1][..i] == tags[..i];
  }

  function AppliedOf(tags: seq<Tag>): (r: seq<AppliedRef>) {
    AppliedRefs(Named(tags, "q"))
  }

  lemma ReadApplied(tags: seq<Tag>, i: nat)
    requires i < |tags|
    ensures AppliedOf(tags[..i + 1]) ==
            if HasName(tags[i], "q") && |tags[i]| >= 4
            then AppliedOf(tags[..i]) + [AppliedRef(tags[i][1], tags[i][2], tags[i][3])]
            else AppliedOf(tags[..i])
  {
    ReadNamed(tags, i, "q");
    AppliedRefsPush(Named(tags[..i], "q"), tags[i]);
  }

  lemma {:induction false} ErrorStays(tags: seq<Tag>, i: nat)
    requires i <= |tags| && FirstError(tags[..i]).Some?
    ensures FirstError(tags) == FirstError(tags[..i])
    decreases |tags| - i
  {
    if i < |tags| {
      ReadError(tags, i);
      ErrorStays(tags, i + 1);
    } else {
      assert tags[..i] == tags;
    }
  }

  ghost predicate RootsAre(tags: seq<Tag>, root: string) {
    forall tag :: tag in tags && HasMarker(tag, "e", "root") ==> tag[1] == root
  }

  ghost predicate QuotesComplete(tags: seq<Tag>) {
    forall tag :: tag in tags && HasName(tag, "q") ==> |tag| >= 4
  }

  lemma {:induction false} RootMeaning(tags: seq<Tag>)
    ensures Root(tags).None? ==> forall tag :: tag in tags ==> !HasMarker(tag, "e", "root")
    ensures Root(tags).Some? ==> exists tag :: tag in tags && HasMarker(tag, "e", "root") && tag[1] == Root(tags).value
  {
    if tags != [] {
      var n := |tags| - 1;
      RootMeaning(tags[..n]);
      ReadRoot(tags, n);
      assert tags[..n + 1] == tags == tags[..n] + [tags[n]];
    }
  }

  lemma RootIs(tags: seq<Tag>, root: string)
    requires RootsAre(tags, root) && Root(tags).Some?
    ensures Root(tags).value == root
  {
    RootMeaning(tags);
  }

  lemma {:induction false} NoErrorSound(tags: seq<Tag>)
    requires FirstError(tags).None?
    ensures QuotesComplete(tags)
    ensures Root(tags).Some? ==> RootsAre(tags, Root(tags).value)
  {
    if tags != [] {
      var n := |tags| - 1;
      ReadRoot(tags, n);
      ReadError(tags, n);
      assert tags[..n + 1] == tags == tags[..n] + [tags[n]];
      NoErrorSound(tags[..n]);
      RootMeaning(tags[..n]);
    }
  }

  lemma {:induction false} NoErrorComplete(tags: seq<Tag>, root: string)
    requires RootsAre(tags, root) && QuotesComplete(tags)
    ensures FirstError(tags).None?
  {
    if tags != [] {
      var n := |tags| - 1;
      var init, last := tags[..n], tags[n];
      ReadError(tags, n);
      assert tags[..n + 1] == tags;
      assert last in tags && forall tag :: tag in init ==> tag in tags;
      NoErrorComplete(init, root);
      if Root(init).Some? {
        RootIs(init, root);
      }
    }
  }

  /** Parsing is free of tag errors exactly when all root references agree and every
      `q` tag is complete. */
  lemma NoErrorMeaning(tags: seq<Tag>)
    ensures FirstError(tags).None? <==> (exists root :: RootsAre(tags, root)) && QuotesComplete(tags)
  {
    if FirstError(tags).None? {
      NoErrorSound(tags);
      RootMeaning(tags);
      assert RootsAre(tags, if Root(tags).Some? then Root(tags).value else "");
    }
    if root :| RootsAre(tags, root) && QuotesComplete(tags) {
      NoErrorComplete(tags, root);
    }
  }

  /** The variables of the reading loop. */
  datatype Fields = Fields(
    root: Option<string>,
    replies: seq<string>,
    mentions: seq<string>,
    address: Option<string>,
    repoRefs: seq<string>,
    applied: seq<AppliedRef>,
    mergeCommit: Option<string>,
    commits: seq<string>)

  function FieldsOf(tags: seq<Tag>): (r: Fields) {
    Fields(
      Root(tags),
      UniqueMarked(tags, "e", "reply"),
      UniqueHeads(tags, "p"),
      LastValue(tags, "a"),
      UniqueHeads(tags, "r"),
      AppliedOf(tags),
      LastValue(tags, "merge-commit"),
      UniqueValues(tags, "applied-as-commits"))
  }

  /** An `e` tag touches only the root and the replies. */
  lemma EventFields(tags: seq<Tag>, i: nat)
    requires i < |tags| && |tags[i]| >= 2 && tags[i][0] == "e"
    ensures var f, g := FieldsOf(tags[..i]), FieldsOf(tags[..i + 1]);
            g == f.(root := g.root, replies := g.replies)
  {
    ReadHeads(tags, i, "p");
    ReadLast(tags, i, "a");
    ReadHeads(tags, i, "r");
    ReadApplied(tags, i);
    ReadLast(tags, i, "merge-commit");
    ReadValues(tags, i, "applied-as-commits");
  }

  /** Any other tag leaves these two alone. */
  lemma OtherFields(tags: seq<Tag>, i: nat)
    requires i < |tags| && !(|tags[i]| >= 2 && tags[i][0] == "e")
    ensures var f, g := FieldsOf(tags[..i]), FieldsOf(tags[..i + 1]);
            g.root == f.root && g.replies == f.replies
  {
    ReadRoot(tags, i);
    ReadUniqueMarked(tags, i, "e", "reply");
  }

  method ReadEventTag(tags: seq<Tag>, i: nat, f: Fields) returns (r: Result<Fields, CoreError>)
    requires i < |tags| && |tags[i]| >= 2 && tags[i][0] == "e" && f == FieldsOf(tags[..i])
    ensures r == match TagError(tags[i], f.root)
                 case Some(e) => Err(e)
                 case None => Ok(FieldsOf(tags[..i + 1]))
  {
    var tag := tags[i];
    EventFields(tags, i);
    ReadRoot(tags, i);
    ReadUniqueMarked(tags, i, "e", "reply");
    if |tag| >= 4 && tag[3] == "root" {
      if f.root.Some? {
        if f.root.value != tag[1] {
          return Err(InvalidTag("e"));
        }
        return Ok(f);
      }
      return Ok(f.(root := Some(tag[1])));
    }
    if |tag| >= 4 && tag[3] == "reply" {
      var replies := PushUnique(f.replies, tag[1]);
      return Ok(f.(replies := replies));
    }
    return Ok(f);
  }

  method ReadOtherTag(tags: seq<Tag>, i: nat, f: Fields) returns (r: Result<Fields, CoreError>)
    requires i < |tags| && !(|tags[i]| >= 2 && tags[i][0] == "e") && f == FieldsOf(tags[..i])
    ensures r == match TagError(tags[i], f.root)
                 case Some(e) => Err(e)
                 case None => Ok(FieldsOf(tags[..i + 1]))
  {
    var tag := tags[i];
    OtherFields(tags, i);
    ReadHeads(tags, i, "p");
    ReadLast(tags, i, "a");
    ReadHeads(tags, i, "r");
    ReadApplied(tags, i);
    ReadLast(tags, i, "merge-commit");
    ReadValues(tags, i, "applied-as-commits");
    if |tag| >= 2 && tag[0] == "a" {
      return Ok(f.(address := Some(tag[1])));
    } else if |tag| >= 2 && tag[0] == "p" {
      var mentions := PushUnique(f.mentions, tag[1]);
      return Ok(f.(mentions := mentions));
    } else if |tag| >= 2 && tag[0] == "r" {
      var repoRefs := PushUnique(f.repoRefs, tag[1]);
      return Ok(f.(repoRefs := repoRefs));
    } else if |tag| >= 1 && tag[0] == "applied-as-commits" {
      var commits := ExtendUnique(f.commits, tag[1..], Values(Named(tags[..i], "applied-as-commits")));
      return Ok(f.(commits := commits));
    } else if |tag| >= 2 && tag[0] == "merge-commit" {
      return Ok(f.(mergeCommit := Some(tag[1])));
    } else if |tag| >= 1 && tag[0] == "q" {
      if |tag| < 4 {
        return Err(InvalidField("q"));
      }
      return Ok(f.(applied := f.applied + [AppliedRef(tag[1], tag[2], tag[3])]));
    }
    return Ok(f);
  }

  method FromTags(tags: seq<Tag>) returns (r: Result<StatusEvent, CoreError>)
    ensures r == Parse(tags)
    ensures r.Ok? ==> Reads(tags, r.value)
  {
    var f := Fields(None, [], [], None, [], [], None, []);
    for i := 0 to |tags|
      invariant FirstError(tags[..i]).None?
      invariant f == FieldsOf(tags[..i])
    {
      ReadError(tags, i);
      var step;
      if |tags[i]| >= 2 && tags[i][0] == "e" {
        step := ReadEventTag(tags, i, f);
      } else {
        step := ReadOtherTag(tags, i, f);
      }
      if step.Err? {
        ErrorStays(tags, i + 1);
        return Err(step.error);
      }
      f := step.value;
    }
    assert tags[..|tags|] == tags;
    match f.root
    case None => r := Err(MissingField("e"));
    case Some(id) =>
      r := Ok(StatusEvent(
                id, f.replies, f.mentions, f.address, f.repoRefs, f.applied, f.mergeCommit, f.commits));
      ReadsParsed(tags);
  }

  // ---- printing

  const NAMES := ["e", "p", "a", "r", "q", "merge-commit", "applied-as-commits"]

  function EventTags(e: StatusEvent): (r: seq<Tag>)
    ensures AllNamed(r, "e")
  {
    EachMarked("e", [e.rootEvent], "root") + EachMarked("e", e.replyEvents, "reply")
  }

  function AppliedTags(refs: seq<AppliedRef>): (r: seq<Tag>)
    ensures |r| == |refs|
    ensures forall i :: 0 <= i < |r| ==> r[i] == ["q", refs[i].eventId, refs[i].relay, refs[i].pubkey]
    ensures AllNamed(r, "q")
  {
    seq(|refs|, i requires 0 <= i < |refs| => ["q", refs[i].eventId, refs[i].relay, refs[i].pubkey])
  }

  function Parts(e: StatusEvent): (r: seq<seq<Tag>>) {
    [EventTags(e),
     Each("p", e.mentions),
     Maybe("a", e.repoAddress),
     Each("r", e.repoRefs),
     AppliedTags(e.appliedRefs),
     Maybe("merge-commit", e.mergeCommit),
     Joined("applied-as-commits", e.appliedAsCommits)]
  }

  function Print(e: StatusEvent): (r: seq<Tag>) {
    Concat(Parts(e), |NAMES|)
  }

  method PushApplied(tags: seq<Tag>, refs: seq<AppliedRef>) returns (r: seq<Tag>)
    ensures r == tags + AppliedTags(refs)
  {
    r := tags;
    for i := 0 to |refs|
      invariant r == tags + AppliedTags(refs)[..i]
    {
      r := r + [["q", refs[i].eventId, refs[i].relay, refs[i].pubkey]];
    }
  }

  method ToTags(e: StatusEvent) returns (tags: seq<Tag>)
    ensures tags == Print(e)
  {
    tags := [["e", e.rootEvent, "", "root"]];
    tags := PushEachMarked(tags, "e", e.replyEvents, "reply");
    assert tags == EventTags(e);
    tags := PushEach(tags, "p", e.mentions);
    tags := PushMaybe(tags, "a", e.repoAddress);
    tags := PushEach(tags, "r", e.repoRefs);
    tags := PushApplied(tags, e.appliedRefs);
    tags := PushMaybe(tags, "merge-commit", e.mergeCommit);
    tags := PushJoined(tags, "applied-as-commits", e.appliedAsCommits);
    ConcatSums(Parts(e));
  }

  // ---- what the raw tags mean

  /** The applied refs of the complete `q` tags, in order, read from the front. */
  function Quoted(tags: seq<Tag>): (r: seq<AppliedRef>) {
    if tags == [] then []
    else
      (if |tags[0]| >= 4 && tags[0][0] == "q" then [AppliedRef(tags[0][1], tags[0][2], tags[0][3])] else [])
      + Quoted(tags[1..])
  }

  lemma {:induction false} QuotedPush(tags: seq<Tag>, tag: Tag)
    ensures Quoted(tags + [tag]) ==
            if |tag| >= 4 && tag[0] == "q" then Quoted(tags) + [AppliedRef(tag[1], tag[2], tag[3])] else Quoted(tags)
  {
    if tags == [] {
      assert tags + [tag] == [tag];
    } else {
      QuotedPush(tags[1..], tag);
      assert (tags + [tag])[1..] == tags[1..] + [tag];
    }
  }

  lemma {:induction false} AppliedQuoted(tags: seq<Tag>)
    ensures AppliedOf(tags) == Quoted(tags)
  {
    if tags != [] {
      AppliedQuoted(tags[..|tags| - 1]);
      QuotedNext(tags);
    }
  }

  lemma QuotedNext(tags: seq<Tag>)
    requires tags != [] && AppliedOf(tags[..|tags| - 1]) == Quoted(tags[..|tags| - 1])
    ensures AppliedOf(tags) == Quoted(tags)
  {
    var n := |tags| - 1;
    assert tags[..n + 1] == tags && tags[..n] + [tags[n]] == tags;
    QuotedPush(tags[..n], tags[n]);
    ReadApplied(tags, n);
  }

  predicate IsRootTag(tag: Tag) {
    |tag| >= 4 && tag[0] == "e" && tag[3] == "root"
  }

  predicate IsIncomplete(tag: Tag) {
    1 <= |tag| < 4 && tag[0] == "q"
  }

  /** Tag `i` names another root than an earlier tag. */
  ghost predicate Conflicts(tags: seq<Tag>, i: nat)
    requires i < |tags|
  {
    IsRootTag(tags[i]) && exists j :: 0 <= j < i && IsRootTag(tags[j]) && tags[j][1] != tags[i][1]
  }

  ghost predicate Offends(tags: seq<Tag>, i: nat)
    requires i < |tags|
  {
    Conflicts(tags, i) || IsIncomplete(tags[i])
  }

  ghost predicate FirstOffends(tags: seq<Tag>, i: nat) {
    i < |tags| && Offends(tags, i) && forall j :: 0 <= j < i ==> !Offends(tags, j)
  }

  lemma RootTagMeaning(tag: Tag)
    ensures IsRootTag(tag) <==> HasMarker(tag, "e", "root")
  {
  }

  lemma ConflictMeaning(tags: seq<Tag>, n: nat)
    requires n < |tags| && FirstError(tags[..n]).None?
    ensures Conflicts(tags, n) <==>
            IsRootTag(tags[n]) && Root(tags[..n]).Some? && Root(tags[..n]).value != tags[n][1]
  {
    var init := tags[..n];
    NoErrorSound(init);
    RootMeaning(init);
    forall j | 0 <= j < n ensures tags[j] in init && (IsRootTag(tags[j]) <==> HasMarker(tags[j], "e", "root")) {
      assert tags[j] == init[j];
      RootTagMeaning(tags[j]);
    }
    if Root(init).Some? {
      var other :| other in init && HasMarker(other, "e", "root") && other[1] == Root(init).value;
      var j :| 0 <= j < n && init[j] == other;
      assert tags[j] == other;
    }
  }

  lemma TagErrorMeaning(tags: seq<Tag>, n: nat)
    requires n < |tags| && FirstError(tags[..n]).None?
    ensures FirstError(tags[..n + 1]) ==
            if Conflicts(tags, n) then Some(InvalidTag("e"))
            else if IsIncomplete(tags[n]) then Some(InvalidField("q"))
            else None
  {
    ReadError(tags, n);
    ConflictMeaning(tags, n);
    RootTagMeaning(tags[n]);
  }

  lemma {:induction false} NoneOffends(tags: seq<Tag>, n: nat)
    requires n <= |tags| && forall j :: 0 <= j < n ==> !Offends(tags, j)
    ensures FirstError(tags[..n]).None?
  {
    if n > 0 {
      NoneOffends(tags, n - 1);
      assert !Offends(tags, n - 1);
      TagErrorMeaning(tags, n - 1);
    }
  }

  /** The error of a parse is that of the first offending tag. */
  lemma ErrorMeaning(tags: seq<Tag>, i: nat)
    requires FirstOffends(tags, i)
    ensures Parse(tags) == Err(if Conflicts(tags, i) then InvalidTag("e") else InvalidField("q"))
  {
    NoneOffends(tags, i);
    TagErrorMeaning(tags, i);
    ErrorStays(tags, i + 1);
  }

  /** The status the tags describe. */
  ghost predicate Reads(tags: seq<Tag>, e: StatusEvent) {
    && (exists tag :: tag in tags && IsRootTag(tag) && tag[1] == e.rootEvent)
    && FirstOccurrences(e.replyEvents, tags, MarkedOf("e", "reply"))
    && FirstOccurrences(e.mentions, tags, HeadOf("p"))
    && LastOne(e.repoAddress, tags, HeadOf("a"))
    && FirstOccurrences(e.repoRefs, tags, HeadOf("r"))
    && e.appliedRefs == Quoted(tags)
    && LastOne(e.mergeCommit, tags, HeadOf("merge-commit"))
    && FirstOccurrences(e.appliedAsCommits, tags, SlotsOf("applied-as-commits"))
  }

  lemma ReadsParsed(tags: seq<Tag>)
    requires Parse(tags).Ok?
    ensures Reads(tags, Parse(tags).value)
  {
    RootMeaning(tags);
    var root :| root in tags && HasMarker(root, "e", "root") && root[1] == Root(tags).value;
    RootTagMeaning(root);
    ReadsUniqueMarked(tags, "e", "reply");
    ReadsHeads(tags, "p");
    ReadsLast(tags, "a");
    ReadsHeads(tags, "r");
    AppliedQuoted(tags);
    ReadsLast(tags, "merge-commit");
    ReadsValues(tags, "applied-as-commits");
  }

  lemma ReadsUnique(tags: seq<Tag>, x: StatusEvent, y: StatusEvent)
    requires Reads(tags, x) && Reads(tags, y) && x.rootEvent == y.rootEvent
    ensures x == y
  {
    FirstOccurrencesUnique(x.replyEvents, y.replyEvents, tags, MarkedOf("e", "reply"));
    FirstOccurrencesUnique(x.mentions, y.mentions, tags, HeadOf("p"));
    LastOneUnique(x.repoAddress, y.repoAddress, tags, HeadOf("a"));
    FirstOccurrencesUnique(x.repoRefs, y.repoRefs, tags, HeadOf("r"));
    LastOneUnique(x.mergeCommit, y.mergeCommit, tags, HeadOf("merge-commit"));
    FirstOccurrencesUnique(x.appliedAsCommits, y.appliedAsCommits, tags, SlotsOf("applied-as-commits"));
  }

  /** Two root tags of an error-free list name the same root. */
  lemma RootsAgree(tags: seq<Tag>, a: Tag, b: Tag)
    requires FirstError(tags).None? && a in tags && b in tags && IsRootTag(a) && IsRootTag(b)
    ensures Root(tags) == Some(a[1]) && a[1] == b[1]
  {
    NoErrorSound(tags);
    RootMeaning(tags);
    RootTagMeaning(a);
    RootTagMeaning(b);
  }

  /** Parsing gives exactly the status the raw tags describe when no tag offends; without a
      root it is the root that is missing, and otherwise the first offending tag decides. */
  lemma ParseMeaning(tags: seq<Tag>, e: StatusEvent)
    ensures Parse(tags) == Ok(e) <==> (forall i :: 0 <= i < |tags| ==> !Offends(tags, i)) && Reads(tags, e)
    ensures Parse(tags) == Err(MissingField("e")) <==>
            && (forall i :: 0 <= i < |tags| ==> !Offends(tags, i))
            && (forall tag :: tag in tags ==> !IsRootTag(tag))
    ensures Parse(tags).Err? && Parse(tags).error != MissingField("e") ==> exists i: nat :: FirstOffends(tags, i)
  {
    if i: nat :| i < |tags| && Offends(tags, i) {
      var k := FirstOffending(tags, i);
      ErrorMeaning(tags, k);
    } else {
      NoneOffends(tags, |tags|);
      assert tags[..|tags|] == tags;
      CleanParse(tags, e);
    }
  }

  lemma CleanParse(tags: seq<Tag>, e: StatusEvent)
    requires FirstError(tags).None?
    ensures Parse(tags) == Ok(e) <==> Reads(tags, e)
    ensures Parse(tags).Err? <==> forall tag :: tag in tags ==> !IsRootTag(tag)
  {
    RootMeaning(tags);
    forall tag ensures IsRootTag(tag) <==> HasMarker(tag, "e", "root") {
      RootTagMeaning(tag);
    }
    if Parse(tags).Ok? {
      ReadsParsed(tags);
      if Reads(tags, e) {
        var a :| a in tags && IsRootTag(a) && a[1] == e.rootEvent;
        RootsAgree(tags, a, a);
        ReadsUnique(tags, e, Parse(tags).value);
      }
    }
  }

  lemma {:induction false} FirstOffending(tags: seq<Tag>, i: nat) returns (k: nat)
    requires i < |tags| && Offends(tags, i)
    ensures FirstOffends(tags, k)
    decreases i
  {
    if j: nat :| j < i && Offends(tags, j) {
      k := FirstOffending(tags, j);
    } else {
      k := i;
    }
  }

  /** The printed tags, spelled out. */
  lemma PrintedForm(e: StatusEvent)
    ensures Print(e) ==
            [["e", e.rootEvent, "", "root"]]
            + EachMarked("e", e.replyEvents, "reply")
            + Each("p", e.mentions)
            + (if e.repoAddress.Some? then [["a", e.repoAddress.value]] else [])
            + Each("r", e.repoRefs)
            + AppliedTags(e.appliedRefs)
            + (if e.mergeCommit.Some? then [["merge-commit", e.mergeCommit.value]] else [])
            + (if e.appliedAsCommits != [] then [["applied-as-commits"] + e.appliedAsCommits] else [])
  {
    ConcatSums(Parts(e));
    assert EachMarked("e", [e.rootEvent], "root") == [["e", e.rootEvent, "", "root"]];
  }

  function Canon(e: StatusEvent): (r: StatusEvent) {
    e.(replyEvents := Dedup(e.replyEvents), mentions := Dedup(e.mentions), repoRefs := Dedup(e.repoRefs),
       appliedAsCommits := Dedup(e.appliedAsCommits))
  }

  lemma PrintedBlocks(e: StatusEvent)
    ensures Blocks(NAMES, Parts(e))
  {
  }

  lemma MarkedEvents(e: StatusEvent)
    ensures Marked(EventTags(e), "root") == [e.rootEvent]
    ensures Marked(EventTags(e), "reply") == e.replyEvents
  {
    var a, b := EachMarked("e", [e.rootEvent], "root"), EachMarked("e", e.replyEvents, "reply");
    MarkedConcat(a, b, "root");
    MarkedConcat(a, b, "reply");
    MarkedEach("e", [e.rootEvent], "root", "root");
    MarkedEach("e", [e.rootEvent], "root", "reply");
    MarkedEach("e", e.replyEvents, "reply", "root");
    MarkedEach("e", e.replyEvents, "reply", "reply");
  }

  lemma {:induction false} PrintedApplied(refs: seq<AppliedRef>)
    ensures AppliedRefs(AppliedTags(refs)) == refs
  {
    if refs != [] {
      var n := |refs| - 1;
      PrintedApplied(refs[..n]);
      var tag := ["q", refs[n].eventId, refs[n].relay, refs[n].pubkey];
      assert AppliedTags(refs) == AppliedTags(refs[..n]) + [tag];
      AppliedRefsPush(AppliedTags(refs[..n]), tag);
      assert refs == refs[..n] + [refs[n]];
    }
  }

  lemma PrintedEvents(e: StatusEvent)
    ensures Root(Print(e)) == Some(e.rootEvent)
    ensures UniqueMarked(Print(e), "e", "reply") == Dedup(e.replyEvents)
    ensures AppliedOf(Print(e)) == e.appliedRefs
  {
    PrintedBlocks(e);
    NamedBlock(NAMES, Parts(e), 0, |NAMES|);
    NamedBlock(NAMES, Parts(e), 4, |NAMES|);
    MarkedEvents(e);
    PrintedApplied(e.appliedRefs);
  }

  lemma PrintedFields(e: StatusEvent)
    ensures UniqueHeads(Print(e), "p") == Dedup(e.mentions)
    ensures LastValue(Print(e), "a") == e.repoAddress
    ensures UniqueHeads(Print(e), "r") == Dedup(e.repoRefs)
    ensures LastValue(Print(e), "merge-commit") == e.mergeCommit
    ensures UniqueValues(Print(e), "applied-as-commits") == Dedup(e.appliedAsCommits)
  {
    PrintedBlocks(e);
    PrintedEach(NAMES, Parts(e), 1, e.mentions);
    PrintedMaybe(NAMES, Parts(e), 2, e.repoAddress);
    PrintedEach(NAMES, Parts(e), 3, e.repoRefs);
    PrintedMaybe(NAMES, Parts(e), 5, e.mergeCommit);
    PrintedJoined(NAMES, Parts(e), 6, e.appliedAsCommits);
  }

  /** Membership in the tags of one name. */
  lemma {:induction false} NamedMember(tags: seq<Tag>, name: string, tag: Tag)
    ensures tag in Named(tags, name) <==> tag in tags && HasName(tag, name)
  {
    if tags != [] {
      var n := |tags| - 1;
      NamedMember(tags[..n], name, tag);
      assert tags == tags[..n] + [tags[n]];
    }
  }

  /** A printed status never conflicts with itself. */
  lemma PrintedNoError(e: StatusEvent)
    ensures FirstError(Print(e)).None?
  {
    PrintedBlocks(e);
    NamedBlock(NAMES, Parts(e), 0, |NAMES|);
    NamedBlock(NAMES, Parts(e), 4, |NAMES|);
    var tags := Print(e);
    forall tag | tag in tags
      ensures HasMarker(tag, "e", "root") ==> tag[1] == e.rootEvent
      ensures HasName(tag, "q") ==> |tag| >= 4
    {
      NamedMember(tags, "e", tag);
      NamedMember(tags, "q", tag);
      RootTagUnique(e, tag);
    }
    assert RootsAre(tags, e.rootEvent);
    NoErrorMeaning(tags);
  }

  lemma RootTagUnique(e: StatusEvent, tag: Tag)
    ensures tag in EventTags(e) && IsMarked(tag, "root") ==> tag[1] == e.rootEvent
  {
  }

  lemma ParsePrint(e: StatusEvent)
    ensures Parse(Print(e)) == Ok(Canon(e))
  {
    PrintedNoError(e);
    PrintedEvents(e);
    PrintedFields(e);
  }

  lemma RoundTrip(e: StatusEvent)
    ensures Parse(Print(e)) == Ok(e) <==>
            && NoDuplicates(e.replyEvents) && NoDuplicates(e.mentions)
            && NoDuplicates(e.repoRefs) && NoDuplicates(e.appliedAsCommits)
  {
    ParsePrint(e);
    DedupFixed(e.replyEvents);
    DedupFixed(e.mentions);
    DedupFixed(e.repoRefs);
    DedupFixed(e.appliedAsCommits);
  }

  lemma FixedPoint(tags: seq<Tag>)
    requires Parse(tags).Ok?
    ensures Parse(Print(Parse(tags).value)) == Parse(tags)
  {
    DedupElements(Marked(Named(tags, "e"), "reply"));
    DedupElements(Heads(Named(tags, "p")));
    DedupElements(Heads(Named(tags, "r")));
    DedupElements(Values(Named(tags, "applied-as-commits")));
    RoundTrip(Parse(tags).value);
  }
}
