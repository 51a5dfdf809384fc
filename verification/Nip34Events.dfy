/** Dispatch over the NIP-34 event kinds (crates/core/src/nip34_events.rs). */
module Nip34Events {
  import opened Wrappers
  import opened Tags
  import opened RepoEvents
  import Announcement
  import RepoStates
  import Patches
  import PullRequests
  import PullRequestUpdates
  import Issues
  import Status
  import GraspLists

  const KIND_PATCH := 1617
  const KIND_PULL_REQUEST := 1618
  const KIND_PULL_REQUEST_UPDATE := 1619
  const KIND_ISSUE := 1621
  const KIND_STATUS_OPEN := 1630
  const KIND_STATUS_APPLIED := 1631
  const KIND_STATUS_CLOSED := 1632
  const KIND_STATUS_DRAFT := 1633
  const KIND_USER_GRASP_LIST := 10317

  datatype Nip34Event =
    | AnnouncementEvent(announcement: Announcement.RepoAnnouncement)
    | StateEvent(state: RepoStates.RepoState)
    | PatchEvent(patch: Patches.Patch)
    | PullRequestEvent(pullRequest: PullRequests.PullRequest)
    | PullRequestUpdateEvent(update: PullRequestUpdates.PullRequestUpdate)
    | IssueEvent(issue: Issues.Issue)
    | StatusChange(statusKind: nat, status: Status.StatusEvent)
    | GraspListEvent(list: GraspLists.UserGraspList)

  predicate IsStatusKind(kind: nat) {
    kind == KIND_STATUS_OPEN || kind == KIND_STATUS_APPLIED || kind == KIND_STATUS_CLOSED || kind == KIND_STATUS_DRAFT
  }

  function Wrap<T>(r: Result<T, CoreError>, make: T -> Nip34Event): (w: Result<Nip34Event, CoreError>) {
    match r
    case Ok(value) => Ok(make(value))
    case Err(e) => Err(e)
  }

  function Parse(kind: nat, tags: seq<Tag>): (r: Result<Nip34Event, CoreError>) {
    if kind == KIND_REPO_ANNOUNCEMENT then Wrap(Announcement.Parse(tags), a => AnnouncementEvent(a))
    else if kind == KIND_REPO_STATE then Wrap(RepoStates.Parse(tags), s => StateEvent(s))
    else if kind == KIND_PATCH then Wrap(Patches.Parse(tags), p => PatchEvent(p))
    else if kind == KIND_PULL_REQUEST then Wrap(PullRequests.Parse(tags), p => PullRequestEvent(p))
    else if kind == KIND_PULL_REQUEST_UPDATE then Wrap(PullRequestUpdates.Parse(tags), u => PullRequestUpdateEvent(u))
    else if kind == KIND_ISSUE then Wrap(Issues.Parse(tags), i => IssueEvent(i))
    else if IsStatusKind(kind) then Wrap(Status.Parse(tags), s => StatusChange(kind, s))
    else if kind == KIND_USER_GRASP_LIST then Ok(GraspListEvent(GraspLists.Parse(tags)))
    else Err(InvalidField("kind"))
  }

  function Kind(e: Nip34Event): (kind: nat) {
    match e
    case AnnouncementEvent(_) => KIND_REPO_ANNOUNCEMENT
    case StateEvent(_) => KIND_REPO_STATE
    case PatchEvent(_) => KIND_PATCH
    case PullRequestEvent(_) => KIND_PULL_REQUEST
    case PullRequestUpdateEvent(_) => KIND_PULL_REQUEST_UPDATE
    case IssueEvent(_) => KIND_ISSUE
    case StatusChange(kind, _) => kind
    case GraspListEvent(_) => KIND_USER_GRASP_LIST
  }

  ghost function Print(e: Nip34Event): (r: seq<Tag>) {
    match e
    case AnnouncementEvent(a) => Announcement.Print(a)
    case StateEvent(s) => RepoStates.Print(s)
    case PatchEvent(p) => Patches.Print(p)
    case PullRequestEvent(p) => PullRequests.Print(p)
    case PullRequestUpdateEvent(u) => PullRequestUpdates.Print(u)
    case IssueEvent(i) => Issues.Print(i)
    case StatusChange(_, s) => Status.Print(s)
    case GraspListEvent(l) => GraspLists.Print(l)
  }

  /** The dispatching methods, over the codecs' own loops. */
  method FromTags(kind: nat, tags: seq<Tag>) returns (r: Result<Nip34Event, CoreError>)
    ensures r == Parse(kind, tags)
  {
    if kind == KIND_REPO_ANNOUNCEMENT {
      var x := Announcement.FromTags(tags);
      r := Wrap(x, a => AnnouncementEvent(a));
    } else if kind == KIND_REPO_STATE {
      var x := RepoStates.FromTags(tags);
      r := Wrap(x, s => StateEvent(s));
    } else if kind == KIND_PATCH {
      var x := Patches.FromTags(tags);
      r := Wrap(x, p => PatchEvent(p));
    } else if kind == KIND_PULL_REQUEST {
      var x := PullRequests.FromTags(tags);
      r := Wrap(x, p => PullRequestEvent(p));
    } else if kind == KIND_PULL_REQUEST_UPDATE {
      var x := PullRequestUpdates.FromTags(tags);
      r := Wrap(x, u => PullRequestUpdateEvent(u));
    } else if kind == KIND_ISSUE {
      var x := Issues.FromTags(tags);
      r := Wrap(x, i => IssueEvent(i));
    } else if IsStatusKind(kind) {
      var x := Status.FromTags(tags);
      r := Wrap(x, s => StatusChange(kind, s));
    } else if kind == KIND_USER_GRASP_LIST {
      var x := GraspLists.FromTagsLossy(tags);
      r := Ok(GraspListEvent(x));
    } else {
      r := Err(InvalidField("kind"));
    }
  }

  method ToTags(e: Nip34Event) returns (tags: seq<Tag>)
    ensures tags == Print(e)
  {
    match e
    case AnnouncementEvent(a) => tags := Announcement.ToTags(a);
    case StateEvent(s) => tags := RepoStates.ToTags(s);
    case PatchEvent(p) => tags := Patches.ToTags(p);
    case PullRequestEvent(p) => tags := PullRequests.ToTags(p);
    case PullRequestUpdateEvent(u) => tags := PullRequestUpdates.ToTags(u);
    case IssueEvent(i) => tags := Issues.ToTags(i);
    case StatusChange(_, s) => tags := Status.ToTags(s);
    case GraspListEvent(l) => tags := GraspLists.ToTags(l);
  }

  /** Every parsed event has the kind it was parsed under. */
  lemma ParsedKind(kind: nat, tags: seq<Tag>)
    requires Parse(kind, tags).Ok?
    ensures Kind(Parse(kind, tags).value) == kind
  {
  }

  /** The kinds that parse, by number, and the codec that reads each. */
  lemma ParseMeaning(kind: nat, tags: seq<Tag>, e: Nip34Event)
    ensures Parse(kind, tags) == Ok(e) <==>
            match e
            case AnnouncementEvent(a) => kind == 30617 && Announcement.Parse(tags) == Ok(a)
            case StateEvent(s) => kind == 30618 && RepoStates.Parse(tags) == Ok(s)
            case PatchEvent(p) => kind == 1617 && Patches.Parse(tags) == Ok(p)
            case PullRequestEvent(p) => kind == 1618 && PullRequests.Parse(tags) == Ok(p)
            case PullRequestUpdateEvent(u) => kind == 1619 && PullRequestUpdates.Parse(tags) == Ok(u)
            case IssueEvent(i) => kind == 1621 && Issues.Parse(tags) == Ok(i)
            case StatusChange(k, s) => kind == k && kind in {1630, 1631, 1632, 1633} && Status.Parse(tags) == Ok(s)
            case GraspListEvent(l) => kind == 10317 && GraspLists.Parse(tags) == l
    ensures kind !in {30617, 30618, 1617, 1618, 1619, 1621, 1630, 1631, 1632, 1633, 10317} ==>
              Parse(kind, tags) == Err(InvalidField("kind"))
  {
  }

  /** Parsing is a fixed point: what any parse returns, printed and parsed under its own
      kind, comes back unchanged, for all event kinds. */
  lemma FixedPoint(kind: nat, tags: seq<Tag>)
    requires Parse(kind, tags).Ok?
    ensures var e := Parse(kind, tags).value;
            Parse(Kind(e), Print(e)) == Ok(e)
  {
    ParsedKind(kind, tags);
    if kind == KIND_REPO_ANNOUNCEMENT {
      Announcement.FixedPoint(tags);
    } else if kind == KIND_REPO_STATE {
      RepoStates.FixedPoint(tags);
    } else if kind == KIND_PATCH {
      Patches.FixedPoint(tags);
    } else if kind == KIND_PULL_REQUEST {
      PullRequests.FixedPoint(tags);
    } else if kind == KIND_PULL_REQUEST_UPDATE {
      PullRequestUpdates.FixedPoint(tags);
    } else if kind == KIND_ISSUE {
      Issues.FixedPoint(tags);
    } else if IsStatusKind(kind) {
      Status.FixedPoint(tags);
    } else {
      GraspLists.FixedPoint(tags);
    }
  }
}
