/** Patches and their committer tag (crates/core/src/nip34_patches.rs). */
module Patches {
  import opened Wrappers
  import opened Text
  import opened Sorting
  import opened Decimal
  import opened Tags
  import opened Reading
  import Addresses

  datatype Committer = Committer(name: string, email: string, timestamp: I64, timezoneMinutes: I32)

  function Slot(tag: Tag, k: nat): (r: string) {
    if k < |tag| then tag[k] else ""
  }

  /** `CommitterTag::from_tag`; missing numbers fail to parse like empty ones. */
  function ReadCommitter(tag: Tag): (r: Option<Committer>) {
    var name, email := Slot(tag, 1), Slot(tag, 2);
    match (ParseI64(Slot(tag, 3)), ParseI32(Slot(tag, 4)))
    case (Some(timestamp), Some(minutes)) =>
      if IsBlank(name) || IsBlank(email) then None else Some(Committer(name, email, timestamp, minutes))
    case _ => None
  }

  function CommitterTag(c: Committer): (r: Tag) {
    ["committer", c.name, c.email, PrintInt(c.timestamp), PrintInt(c.timezoneMinutes)]
  }

  predicate HasIdentity(c: Committer) {
    !IsBlank(c.name) && !IsBlank(c.email)
  }

  /** A committer tag round-trips for every timestamp and timezone of its type,
      exactly when name and email are not blank. */
  lemma CommitterRoundTrip(c: Committer)
    ensures ReadCommitter(CommitterTag(c)) == if HasIdentity(c) then Some(c) else None
  {
    ParsePrintI64(c.timestamp);
    ParsePrintI32(c.timezoneMinutes);
  }

  datatype Patch = Patch(
    repoAddress: string,
    repoRefs: seq<string>,
    mentions: seq<string>,
    rootEvent: Option<string>,
    replyEvent: Option<string>,
    isRoot: bool,
    isRootRevision: bool,
    commit: Option<string>,
    parentCommit: Option<string>,
    commitPgpSig: Option<string>,
    committer: Option<Committer>)

  /** The last committer, when every committer tag is well formed. */
  function Committers(tags: seq<Tag>): (r: Result<Option<Committer>, CoreError>) {
    if tags == [] then Ok(None)
    else
      match Committers(tags[..|tags| - 1])
      case Err(e) => Err(e)
      case Ok(_) =>
        match ReadCommitter(tags[|tags| - 1])
        case None => Err(InvalidField("committer"))
        case Some(c) => Ok(Some(c))
  }

  lemma CommittersPush(tags: seq<Tag>, tag: Tag)
    ensures Committers(tags + [tag]) ==
            if Committers(tags).Err? then Committers(tags)
            else if ReadCommitter(tag).None? then Err(InvalidField("committer"))
            else Ok(Some(ReadCommitter(tag).value))
  {
    assert (tags + [tag])[..|tags|] == tags;
  }

  lemma {:induction false} CommittersMeaning(tags: seq<Tag>)
    ensures Committers(tags).Ok? <==> forall i :: 0 <= i < |tags| ==> ReadCommitter(tags[i]).Some?
    ensures Committers(tags).Ok? ==>
              Committers(tags).value == if tags == [] then None else ReadCommitter(tags[|tags| - 1])
  {
    if tags != [] {
      var n := |tags| - 1;
      CommittersMeaning(tags[..n]);
      assert forall i :: 0 <= i < n ==> tags[..n][i] == tags[i];
    }
  }

  function CommitterOf(tags: seq<Tag>): (r: Result<Option<Committer>, CoreError>) {
    Committers(Named(tags, "committer"))
  }

  lemma ReadCommitters(tags: seq<Tag>, i: nat)
    requires i < |tags|
    ensures CommitterOf(tags[..i + 1]) ==
            if !HasName(tags[i], "committer") || CommitterOf(tags[..i]).Err? then CommitterOf(tags[..i])
            else if ReadCommitter(tags[i]).None? then Err(InvalidField("committer"))
            else Ok(Some(ReadCommitter(tags[i]).value))
  {
    ReadNamed(tags, i, "committer");
    CommittersPush(Named(tags[..i], "committer"), tags[i]);
  }

  function Parse(tags: seq<Tag>): (r: Result<Patch, CoreError>) {
    match CommitterOf(tags)
    case Err(e) => Err(e)
    case Ok(committer) =>
      match LastValue(tags, "a")
      case None => Err(MissingField("a"))
      case Some(address) =>
        Ok(Patch(
             address,
             UniqueHeads(tags, "r"),
             UniqueHeads(tags, "p"),
             LastMarked(tags, "e", "root"),
             LastMarked(tags, "e", "reply"),
             HasFlag(tags, "t", "root"),
             HasFlag(tags, "t", "root-revision"),
             LastValue(tags, "commit"),
             LastValue(tags, "parent-commit"),
             LastValue(tags, "commit-pgp-sig"),
             committer))
  }

  /** The variables of the reading loop, the committer apart. */
  datatype Fields = Fields(
    address: Option<string>,
    repoRefs: seq<string>,
    mentions: seq<string>,
    rootEvent: Option<string>,
    replyEvent: Option<string>,
    isRoot: bool,
    isRootRevision: bool,
    commit: Option<string>,
    parentCommit: Option<string>,
    commitPgpSig: Option<string>)

  function FieldsOf(tags: seq<Tag>): (r: Fields) {
    Fields(
      LastValue(tags, "a"),
      UniqueHeads(tags, "r"),
      UniqueHeads(tags, "p"),
      LastMarked(tags, "e", "root"),
      LastMarked(tags, "e", "reply"),
      HasFlag(tags, "t", "root"),
      HasFlag(tags, "t", "root-revision"),
      LastValue(tags, "commit"),
      LastValue(tags, "parent-commit"),
      LastValue(tags, "commit-pgp-sig"))
  }

  /** Only a tag with its own name changes a scalar or a list. */
  lemma ReadScalars(tags: seq<Tag>, i: nat)
    requires i < |tags|
    ensures var f, g, tag := FieldsOf(tags[..i]), FieldsOf(tags[..i + 1]), tags[i];
            && g.address == (if |tag| >= 2 && tag[0] == "a" then Some(tag[1]) else f.address)
            && g.commit == (if |tag| >= 2 && tag[0] == "commit" then Some(tag[1]) else f.commit)
            && g.parentCommit == (if |tag| >= 2 && tag[0] == "parent-commit" then Some(tag[1]) else f.parentCommit)
            && g.commitPgpSig == (if |tag| >= 2 && tag[0] == "commit-pgp-sig" then Some(tag[1]) else f.commitPgpSig)
  {
    ReadLast(tags, i, "a");
    ReadLast(tags, i, "commit");
    ReadLast(tags, i, "parent-commit");
    ReadLast(tags, i, "commit-pgp-sig");
  }

  method ReadTag(tags: seq<Tag>, i: nat, f: Fields) returns (g: Fields)
    requires i < |tags| && f == FieldsOf(tags[..i])
    ensures g == FieldsOf(tags[..i + 1])
  {
    var tag := tags[i];
    g := f;
    ReadScalars(tags, i);
    ReadHeads(tags, i, "r");
    ReadHeads(tags, i, "p");
    ReadLastMarked(tags, i, "e", "root");
    ReadLastMarked(tags, i, "e", "reply");
    ReadFlag(tags, i, "t", "root");
    ReadFlag(tags, i, "t", "root-revision");
    if |tag| >= 2 && tag[0] == "a" {
      g := g.(address := Some(tag[1]));
    } else if |tag| >= 2 && tag[0] == "r" {
      var repoRefs := PushUnique(g.repoRefs, tag[1]);
      g := g.(repoRefs := repoRefs);
    } else if |tag| >= 2 && tag[0] == "p" {
      var mentions := PushUnique(g.mentions, tag[1]);
      g := g.(mentions := mentions);
    } else if |tag| >= 2 && tag[0] == "t" && tag[1] == "root" {
      g := g.(isRoot := true);
    } else if |tag| >= 2 && tag[0] == "t" && tag[1] == "root-revision" {
      g := g.(isRootRevision := true);
    } else if |tag| >= 2 && tag[0] == "commit" {
      g := g.(commit := Some(tag[1]));
    } else if |tag| >= 2 && tag[0] == "parent-commit" {
      g := g.(parentCommit := Some(tag[1]));
    } else if |tag| >= 2 && tag[0] == "commit-pgp-sig" {
      g := g.(commitPgpSig := Some(tag[1]));
    } else if |tag| >= 2 && tag[0] == "e" && |tag| >= 4 {
      if tag[3] == "root" {
        g := g.(rootEvent := Some(tag[1]));
      } else if tag[3] == "reply" {
        g := g.(replyEvent := Some(tag[1]));
      }
    }
  }

  method FromTags(tags: seq<Tag>) returns (r: Result<Patch, CoreError>)
    ensures r == Parse(tags)
    ensures r.Ok? ==> Reads(tags, r.value)
  {
    var f := Fields(None, [], [], None, None, false, false, None, None, None);
    var committer: Option<Committer> := None;
    for i := 0 to |tags|
      invariant f == FieldsOf(tags[..i])
      invariant CommitterOf(tags[..i]) == Ok(committer)
    {
      var tag := tags[i];
      ReadCommitters(tags, i);
      if |tag| >= 1 && tag[0] == "committer" {
        var c := ReadCommitter(tag);
        if c.None? {
          CommittersPrefix(tags, i + 1);
          return Err(InvalidField("committer"));
        }
        committer := c;
      }
      f := ReadTag(tags, i, f);
    }
    assert tags[..|tags|] == tags;
    match f.address
    case None => r := Err(MissingField("a"));
    case Some(value) =>
      r := Ok(Patch(
                value, f.repoRefs, f.mentions, f.rootEvent, f.replyEvent, f.isRoot, f.isRootRevision, f.commit,
                f.parentCommit, f.commitPgpSig, committer));
      ReadsParsed(tags);
  }

  /** A malformed committer tag is never forgiven. */
  lemma {:induction false} CommittersPrefix(tags: seq<Tag>, i: nat)
    requires i <= |tags| && CommitterOf(tags[..i]).Err?
    ensures CommitterOf(tags) == Err(InvalidField("committer"))
    decreases |tags| - i
  {
    if i < |tags| {
      ReadCommitters(tags, i);
      CommittersPrefix(tags, i + 1);
    } else {
      assert tags[..i] == tags;
      CommittersError(Named(tags, "committer"));
    }
  }

  lemma {:induction false} CommittersError(tags: seq<Tag>)
    ensures Committers(tags).Err? ==> Committers(tags) == Err(InvalidField("committer"))
  {
    if tags != [] {
      CommittersError(tags[..|tags| - 1]);
    }
  }

  // ---- printing

  const NAMES := ["a", "r", "p", "t", "commit", "parent-commit", "commit-pgp-sig", "e", "committer"]

  function OptionSeq(value: Option<string>): (r: seq<string>) {
    match value
    case None => []
    case Some(v) => [v]
  }

  function RootFlags(e: Patch): (r: seq<string>) {
    (if e.isRoot then ["root"] else []) + (if e.isRootRevision then ["root-revision"] else [])
  }

  function EventTags(e: Patch): (r: seq<Tag>)
    ensures AllNamed(r, "e")
  {
    EachMarked("e", OptionSeq(e.rootEvent), "root") + EachMarked("e", OptionSeq(e.replyEvent), "reply")
  }

  function CommitterTags(c: Option<Committer>): (r: seq<Tag>)
    ensures AllNamed(r, "committer")
  {
    match c
    case None => []
    case Some(value) => [CommitterTag(value)]
  }

  function Parts(e: Patch): (r: seq<seq<Tag>>) {
    [Maybe("a", Some(e.repoAddress)),
     Each("r", e.repoRefs),
     Each("p", e.mentions),
     Each("t", RootFlags(e)),
     Maybe("commit", e.commit),
     Maybe("parent-commit", e.parentCommit),
     Maybe("commit-pgp-sig", e.commitPgpSig),
     EventTags(e),
     CommitterTags(e.committer)]
  }

  function Print(e: Patch): (r: seq<Tag>) {
    Concat(Parts(e), |NAMES|)
  }

  method PushFlags(tags: seq<Tag>, e: Patch) returns (r: seq<Tag>)
    ensures r == tags + Each("t", RootFlags(e))
  {
    r := tags;
    if e.isRoot {
      r := r + [["t", "root"]];
    }
    if e.isRootRevision {
      r := r + [["t", "root-revision"]];
    }
  }

  method PushEvents(tags: seq<Tag>, e: Patch) returns (r: seq<Tag>)
    ensures r == tags + EventTags(e)
  {
    r := tags;
    if e.rootEvent.Some? {
      r := r + [["e", e.rootEvent.value, "", "root"]];
    }
    if e.replyEvent.Some? {
      r := r + [["e", e.replyEvent.value, "", "reply"]];
    }
  }

  method ToTags(e: Patch) returns (tags: seq<Tag>)
    ensures tags == Print(e)
  {
    tags := [["a", e.repoAddress]];
    tags := PushEach(tags, "r", e.repoRefs);
    tags := PushEach(tags, "p", e.mentions);
    tags := PushFlags(tags, e);
    tags := PushMaybe(tags, "commit", e.commit);
    tags := PushMaybe(tags, "parent-commit", e.parentCommit);
    tags := PushMaybe(tags, "commit-pgp-sig", e.commitPgpSig);
    tags := PushEvents(tags, e);
    if e.committer.Some? {
      tags := tags + [CommitterTag(e.committer.value)];
    }
    ConcatSums(Parts(e));
  }

  // ---- what the raw tags mean

  /** A committer tag reads as a committer exactly when it has five slots, the last two are
      decimal integers in range, and name and email are not blank. */
  lemma ReadCommitterMeaning(tag: Tag, c: Committer)
    ensures ReadCommitter(tag) == Some(c) <==>
            && |tag| >= 5 && tag[1] == c.name && tag[2] == c.email && !IsBlank(tag[1]) && !IsBlank(tag[2])
            && ParseSigned(tag[3], -0x8000_0000_0000_0000, 0x8000_0000_0000_0000) == Some(c.timestamp)
            && ParseSigned(tag[4], -0x8000_0000, 0x8000_0000) == Some(c.timezoneMinutes)
  {
  }

  predicate IsCommitterTag(tag: Tag) {
    |tag| >= 1 && tag[0] == "committer"
  }

  ghost predicate CommittersOk(tags: seq<Tag>) {
    forall i :: 0 <= i < |tags| && IsCommitterTag(tags[i]) ==> ReadCommitter(tags[i]).Some?
  }

  ghost predicate LastCommitterAt(tags: seq<Tag>, i: nat) {
    i < |tags| && IsCommitterTag(tags[i]) && forall j :: i < j < |tags| ==> !IsCommitterTag(tags[j])
  }

  /** The committer of the last committer tag. */
  ghost predicate LastCommitter(c: Option<Committer>, tags: seq<Tag>) {
    match c
    case None => forall i :: 0 <= i < |tags| ==> !IsCommitterTag(tags[i])
    case Some(_) => exists i: nat :: LastCommitterAt(tags, i) && ReadCommitter(tags[i]) == c
  }

  lemma CommittersOkPush(tags: seq<Tag>)
    requires tags != []
    ensures var n := |tags| - 1;
            CommittersOk(tags) <==>
            CommittersOk(tags[..n]) && (IsCommitterTag(tags[n]) ==> ReadCommitter(tags[n]).Some?)
  {
    var n := |tags| - 1;
    assert forall i :: 0 <= i < n ==> tags[..n][i] == tags[i];
  }

  lemma LastCommitterPush(c: Option<Committer>, tags: seq<Tag>)
    requires tags != [] && !IsCommitterTag(tags[|tags| - 1]) && LastCommitter(c, tags[..|tags| - 1])
    ensures LastCommitter(c, tags)
  {
    var n := |tags| - 1;
    var init := tags[..n];
    if c.Some? {
      var i: nat :| LastCommitterAt(init, i) && ReadCommitter(init[i]) == c;
      LastCommitterStays(tags, i);
    } else {
      assert forall i :: 0 <= i < n ==> init[i] == tags[i];
    }
  }

  lemma LastCommitterStays(tags: seq<Tag>, i: nat)
    requires tags != [] && !IsCommitterTag(tags[|tags| - 1]) && LastCommitterAt(tags[..|tags| - 1], i)
    ensures LastCommitterAt(tags, i) && tags[i] == tags[..|tags| - 1][i]
  {
    assert forall j :: 0 <= j < |tags| - 1 ==> tags[..|tags| - 1][j] == tags[j];
  }

  lemma {:induction false} CommitterReads(tags: seq<Tag>)
    ensures CommitterOf(tags).Ok? <==> CommittersOk(tags)
    ensures CommitterOf(tags).Ok? ==> LastCommitter(CommitterOf(tags).value, tags)
    ensures CommitterOf(tags).Err? ==> CommitterOf(tags) == Err(InvalidField("committer"))
  {
    if tags != [] {
      var n := |tags| - 1;
      CommitterReads(tags[..n]);
      CommitterNext(tags);
    }
  }

  lemma CommitterNext(tags: seq<Tag>)
    requires tags != []
    requires var init := tags[..|tags| - 1];
             && (CommitterOf(init).Ok? <==> CommittersOk(init))
             && (CommitterOf(init).Ok? ==> LastCommitter(CommitterOf(init).value, init))
             && (CommitterOf(init).Err? ==> CommitterOf(init) == Err(InvalidField("committer")))
    ensures CommitterOf(tags).Ok? <==> CommittersOk(tags)
    ensures CommitterOf(tags).Ok? ==> LastCommitter(CommitterOf(tags).value, tags)
    ensures CommitterOf(tags).Err? ==> CommitterOf(tags) == Err(InvalidField("committer"))
  {
    var n := |tags| - 1;
    ReadCommitters(tags, n);
    assert tags[..n + 1] == tags;
    CommittersOkPush(tags);
    assert IsCommitterTag(tags[n]) ==> LastCommitterAt(tags, n);
    if CommitterOf(tags[..n]).Ok? && !IsCommitterTag(tags[n]) {
      LastCommitterPush(CommitterOf(tags[..n]).value, tags);
    }
  }

  ghost predicate Reads(tags: seq<Tag>, e: Patch) {
    && LastOne(Some(e.repoAddress), tags, HeadOf("a"))
    && FirstOccurrences(e.repoRefs, tags, HeadOf("r"))
    && FirstOccurrences(e.mentions, tags, HeadOf("p"))
    && LastOne(e.rootEvent, tags, MarkedOf("e", "root"))
    && LastOne(e.replyEvent, tags, MarkedOf("e", "reply"))
    && (e.isRoot <==> Given(tags, HeadOf("t"), "root"))
    && (e.isRootRevision <==> Given(tags, HeadOf("t"), "root-revision"))
    && LastOne(e.commit, tags, HeadOf("commit"))
    && LastOne(e.parentCommit, tags, HeadOf("parent-commit"))
    && LastOne(e.commitPgpSig, tags, HeadOf("commit-pgp-sig"))
    && LastCommitter(e.committer, tags)
  }

  lemma ReadsParsed(tags: seq<Tag>)
    requires Parse(tags).Ok?
    ensures Reads(tags, Parse(tags).value)
  {
    ReadsLast(tags, "a");
    ReadsHeads(tags, "r");
    ReadsHeads(tags, "p");
    ReadsLastMarked(tags, "e", "root");
    ReadsLastMarked(tags, "e", "reply");
    ReadsFlag(tags, "t", "root");
    ReadsFlag(tags, "t", "root-revision");
    ReadsLast(tags, "commit");
    ReadsLast(tags, "parent-commit");
    ReadsLast(tags, "commit-pgp-sig");
    CommitterReads(tags);
  }

  lemma LastCommitterUnique(a: Option<Committer>, b: Option<Committer>, tags: seq<Tag>)
    requires LastCommitter(a, tags) && LastCommitter(b, tags)
    ensures a == b
  {
  }

  lemma ReadsUnique(tags: seq<Tag>, x: Patch, y: Patch)
    requires Reads(tags, x) && Reads(tags, y)
    ensures x == y
  {
    LastOneUnique(Some(x.repoAddress), Some(y.repoAddress), tags, HeadOf("a"));
    FirstOccurrencesUnique(x.repoRefs, y.repoRefs, tags, HeadOf("r"));
    FirstOccurrencesUnique(x.mentions, y.mentions, tags, HeadOf("p"));
    LastOneUnique(x.rootEvent, y.rootEvent, tags, MarkedOf("e", "root"));
    LastOneUnique(x.replyEvent, y.replyEvent, tags, MarkedOf("e", "reply"));
    LastOneUnique(x.commit, y.commit, tags, HeadOf("commit"));
    LastOneUnique(x.parentCommit, y.parentCommit, tags, HeadOf("parent-commit"));
    LastOneUnique(x.commitPgpSig, y.commitPgpSig, tags, HeadOf("commit-pgp-sig"));
    LastCommitterUnique(x.committer, y.committer, tags);
  }

  /** Parsing gives exactly the patch the raw tags describe when every committer tag is well
      formed; a malformed one is the error, and otherwise a missing address. */
  lemma ParseMeaning(tags: seq<Tag>, e: Patch)
    ensures Parse(tags) == Ok(e) <==> CommittersOk(tags) && Reads(tags, e)
    ensures !CommittersOk(tags) ==> Parse(tags) == Err(InvalidField("committer"))
    ensures CommittersOk(tags) ==> (Parse(tags).Err? <==> LastOne(None, tags, HeadOf("a")))
    ensures CommittersOk(tags) && Parse(tags).Err? ==> Parse(tags) == Err(MissingField("a"))
  {
    CommitterReads(tags);
    MissingMeaning(tags, "a");
    if Parse(tags).Ok? {
      ReadsParsed(tags);
      if Reads(tags, e) {
        ReadsUnique(tags, e, Parse(tags).value);
      }
    } else if CommittersOk(tags) && Reads(tags, e) {
      LastOneUnique(Some(e.repoAddress), None, tags, HeadOf("a"));
    }
  }

  /** The printed tags, spelled out. */
  lemma PrintedForm(e: Patch)
    ensures Print(e) ==
            [["a", e.repoAddress]]
            + Each("r", e.repoRefs)
            + Each("p", e.mentions)
            + ((if e.isRoot then [["t", "root"]] else []) + (if e.isRootRevision then [["t", "root-revision"]] else []))
            + (if e.commit.Some? then [["commit", e.commit.value]] else [])
            + (if e.parentCommit.Some? then [["parent-commit", e.parentCommit.value]] else [])
            + (if e.commitPgpSig.Some? then [["commit-pgp-sig", e.commitPgpSig.value]] else [])
            + ((if e.rootEvent.Some? then [["e", e.rootEvent.value, "", "root"]] else [])
               + (if e.replyEvent.Some? then [["e", e.replyEvent.value, "", "reply"]] else []))
            + (if e.committer.Some?
               then [["committer", e.committer.value.name, e.committer.value.email,
                      PrintInt(e.committer.value.timestamp), PrintInt(e.committer.value.timezoneMinutes)]]
               else [])
  {
    ConcatSums(Parts(e));
    PrintedFlagTags(e);
    PrintedEventTags(e);
  }

  lemma PrintedFlagTags(e: Patch)
    ensures Each("t", RootFlags(e)) ==
            (if e.isRoot then [["t", "root"]] else []) + (if e.isRootRevision then [["t", "root-revision"]] else [])
  {
  }

  lemma PrintedEventTags(e: Patch)
    ensures EventTags(e) ==
            (if e.rootEvent.Some? then [["e", e.rootEvent.value, "", "root"]] else [])
            + (if e.replyEvent.Some? then [["e", e.replyEvent.value, "", "reply"]] else [])
  {
  }

  function Canon(e: Patch): (r: Patch) {
    e.(repoRefs := Dedup(e.repoRefs), mentions := Dedup(e.mentions))
  }

  lemma NamesDiffer()
    ensures NoDuplicates(NAMES)
  {
  }

  lemma PrintedBlocks(e: Patch)
    ensures Blocks(NAMES, Parts(e))
  {
    NamesDiffer();
  }

  lemma PrintedScalars(e: Patch)
    ensures LastValue(Print(e), "a") == Some(e.repoAddress)
    ensures LastValue(Print(e), "commit") == e.commit
    ensures LastValue(Print(e), "parent-commit") == e.parentCommit
    ensures LastValue(Print(e), "commit-pgp-sig") == e.commitPgpSig
  {
    PrintedBlocks(e);
    PrintedMaybe(NAMES, Parts(e), 0, Some(e.repoAddress));
    PrintedMaybe(NAMES, Parts(e), 4, e.commit);
    PrintedMaybe(NAMES, Parts(e), 5, e.parentCommit);
    PrintedMaybe(NAMES, Parts(e), 6, e.commitPgpSig);
  }

  lemma PrintedLists(e: Patch)
    ensures UniqueHeads(Print(e), "r") == Dedup(e.repoRefs)
    ensures UniqueHeads(Print(e), "p") == Dedup(e.mentions)
  {
    PrintedBlocks(e);
    PrintedEach(NAMES, Parts(e), 1, e.repoRefs);
    PrintedEach(NAMES, Parts(e), 2, e.mentions);
  }

  lemma PrintedFlags(e: Patch)
    ensures HasFlag(Print(e), "t", "root") <==> e.isRoot
    ensures HasFlag(Print(e), "t", "root-revision") <==> e.isRootRevision
  {
    PrintedBlocks(e);
    NamedBlock(NAMES, Parts(e), 3, |NAMES|);
    HeadsEach("t", RootFlags(e));
  }

  lemma PrintedEvents(e: Patch)
    ensures LastMarked(Print(e), "e", "root") == e.rootEvent
    ensures LastMarked(Print(e), "e", "reply") == e.replyEvent
    ensures Named(Print(e), "committer") == CommitterTags(e.committer)
  {
    PrintedBlocks(e);
    NamedBlock(NAMES, Parts(e), 7, |NAMES|);
    NamedBlock(NAMES, Parts(e), 8, |NAMES|);
    MarkedEvents(e);
  }

  lemma MarkedEvents(e: Patch)
    ensures Last(Marked(EventTags(e), "root")) == e.rootEvent
    ensures Last(Marked(EventTags(e), "reply")) == e.replyEvent
  {
    var a, b := EachMarked("e", OptionSeq(e.rootEvent), "root"), EachMarked("e", OptionSeq(e.replyEvent), "reply");
    MarkedConcat(a, b, "root");
    MarkedConcat(a, b, "reply");
    MarkedEach("e", OptionSeq(e.rootEvent), "root", "root");
    MarkedEach("e", OptionSeq(e.rootEvent), "root", "reply");
    MarkedEach("e", OptionSeq(e.replyEvent), "reply", "root");
    MarkedEach("e", OptionSeq(e.replyEvent), "reply", "reply");
  }

  lemma PrintedCommitter(c: Option<Committer>)
    ensures Committers(CommitterTags(c)) ==
            if c.Some? && !HasIdentity(c.value) then Err(InvalidField("committer")) else Ok(c)
  {
    if c.Some? {
      CommitterRoundTrip(c.value);
      CommittersPush([], CommitterTag(c.value));
      assert [] + [CommitterTag(c.value)] == CommitterTags(c);
    }
  }

  /** Printing and parsing de-duplicates the lists and refuses a committer without
      name or email. */
  lemma ParsePrint(e: Patch)
    ensures Parse(Print(e)) ==
            if e.committer.Some? && !HasIdentity(e.committer.value) then Err(InvalidField("committer"))
            else Ok(Canon(e))
  {
    PrintedScalars(e);
    PrintedLists(e);
    PrintedFlags(e);
    PrintedEvents(e);
    PrintedCommitter(e.committer);
  }

  ghost predicate Normal(e: Patch) {
    && NoDuplicates(e.repoRefs) && NoDuplicates(e.mentions)
    && (e.committer.Some? ==> HasIdentity(e.committer.value))
  }

  lemma RoundTrip(e: Patch)
    ensures Parse(Print(e)) == Ok(e) <==> Normal(e)
  {
    ParsePrint(e);
    DedupFixed(e.repoRefs);
    DedupFixed(e.mentions);
  }

  lemma FixedPoint(tags: seq<Tag>)
    requires Parse(tags).Ok?
    ensures Parse(Print(Parse(tags).value)) == Parse(tags)
  {
    DedupElements(Heads(Named(tags, "r")));
    DedupElements(Heads(Named(tags, "p")));
    CommittersMeaning(Named(tags, "committer"));
    RoundTrip(Parse(tags).value);
  }

  // ---- validation

  predicate IsEventId(id: Option<string>) {
    id.Some? ==> IsHexLen(id.value, 64)
  }

  predicate IsCommit(hash: Option<string>) {
    hash.Some? ==> Addresses.IsHexHash(hash.value)
  }

  predicate AllHashes(refs: seq<string>) {
    forall r :: r in refs ==> Addresses.IsHexHash(r)
  }

  predicate AllKeys(mentions: seq<string>) {
    forall p :: p in mentions ==> IsHexLen(p, 64)
  }

  /** `validate`: the first defect found. */
  function Validate(e: Patch): (r: Option<CoreError>) {
    if Addresses.Parse(e.repoAddress).Err? then Some(InvalidField("a"))
    else if e.isRootRevision && !e.isRoot then Some(InvalidField("t"))
    else if !IsEventId(e.rootEvent) || !IsEventId(e.replyEvent) then Some(InvalidField("e"))
    else if !AllHashes(e.repoRefs) then Some(InvalidField("r"))
    else if !AllKeys(e.mentions) then Some(InvalidField("p"))
    else if !IsCommit(e.commit) then Some(InvalidField("commit"))
    else if !IsCommit(e.parentCommit) then Some(InvalidField("parent-commit"))
    else None
  }

  /** Exactly when each defect is reported, in the order of the checks. */
  lemma ValidateMeaning(e: Patch)
    ensures var a := Addresses.Parse(e.repoAddress).Ok?;
            var t := e.isRootRevision ==> e.isRoot;
            var ids := (e.rootEvent.Some? ==> IsHexLen(e.rootEvent.value, 64))
                       && (e.replyEvent.Some? ==> IsHexLen(e.replyEvent.value, 64));
            var r := forall x :: x in e.repoRefs ==> IsHexLen(x, 40) || IsHexLen(x, 64);
            var p := forall x :: x in e.mentions ==> IsHexLen(x, 64);
            var c := e.commit.Some? ==> IsHexLen(e.commit.value, 40) || IsHexLen(e.commit.value, 64);
            var pc := e.parentCommit.Some? ==> IsHexLen(e.parentCommit.value, 40) || IsHexLen(e.parentCommit.value, 64);
            && (Validate(e) == Some(InvalidField("a")) <==> !a)
            && (Validate(e) == Some(InvalidField("t")) <==> a && !t)
            && (Validate(e) == Some(InvalidField("e")) <==> a && t && !ids)
            && (Validate(e) == Some(InvalidField("r")) <==> a && t && ids && !r)
            && (Validate(e) == Some(InvalidField("p")) <==> a && t && ids && r && !p)
            && (Validate(e) == Some(InvalidField("commit")) <==> a && t && ids && r && p && !c)
            && (Validate(e) == Some(InvalidField("parent-commit")) <==> a && t && ids && r && p && c && !pc)
            && (Validate(e).None? <==> a && t && ids && r && p && c && pc)
  {
    assert AllHashes(e.repoRefs) <==> forall x :: x in e.repoRefs ==> IsHexLen(x, 40) || IsHexLen(x, 64);
    assert AllKeys(e.mentions) <==> forall x :: x in e.mentions ==> IsHexLen(x, 64);
  }

  /** Validation says the same before and after printing and parsing, whenever that succeeds;
      and a validated patch fails to parse back exactly for a committer without name or email,
      since validation is the same whatever the committer. */
  lemma ValidationSurvives(e: Patch, other: Option<Committer>)
    ensures Parse(Print(e)).Ok? ==> Validate(Parse(Print(e)).value) == Validate(e)
    ensures Validate(e.(committer := other)) == Validate(e)
    ensures Validate(e).None? ==>
              (Parse(Print(e)).Err? <==> e.committer.Some? && !HasIdentity(e.committer.value))
  {
    ParsePrint(e);
    CanonValidation(e);
  }

  lemma CanonValidation(e: Patch)
    ensures Validate(Canon(e)) == Validate(e)
  {
    DedupElements(e.repoRefs);
    DedupElements(e.mentions);
    assert AllHashes(Dedup(e.repoRefs)) <==> AllHashes(e.repoRefs);
    assert AllKeys(Dedup(e.mentions)) <==> AllKeys(e.mentions);
  }

  /** Such patches exist: they validate, print, and do not parse. */
  lemma ValidatedButLost(pubkey: string, timestamp: I64, e: Patch)
    requires IsHexLen(pubkey, 64)
    requires e == Patch(Addresses.Display(Addresses.RepoAddress(pubkey, "repo")), [], [], None, None, true, false,
                        None, None, None, Some(Committer("", "", timestamp, 0)))
    ensures Validate(e).None? && Parse(Print(e)) == Err(InvalidField("committer"))
  {
    Addresses.DisplayParse(Addresses.RepoAddress(pubkey, "repo"));
    ParsePrint(e);
  }
}
