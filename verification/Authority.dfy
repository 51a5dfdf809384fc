/** End-to-end authority: from the event log to an accepted push. */
module Authority {
  import opened Wrappers
  import opened Text
  import opened Sorting
  import opened RepoEvents
  import opened Maintainers
  import opened GitRefs
  import opened GitReceive
  import opened Replicas
  import opened Convergence
  import opened Announcement
  import RepoStates
  import PushRuns

  /** The state a repository's log resolves to. */
  ghost function ResolvedState(events: Log, owner: string, identifier: string): (r: Option<RepoStates.RepoState>) {
    LatestStateFromMaintainers(events, Listing(Closure(events, owner, identifier)))
  }

  ghost function EvaluatePush(events: Log, owner: string, identifier: string, updates: seq<RefUpdate>): (r: Decision) {
    EvaluateUpdates(updates, ResolvedState(events, owner, identifier))
  }

  /** Event `i` is the state the push is judged by: written by a trusted key, the
      newest such state in the log, and the last of the newest. */
  ghost predicate Governs(events: Log, owner: string, identifier: string, i: nat) {
    && i < |events|
    && events[i].kind == 30618
    && Trusted(events, owner, identifier, events[i].pubkey)
    && (forall j :: 0 <= j < |events| && events[j].kind == 30618
                    && Trusted(events, owner, identifier, events[j].pubkey) ==>
          events[j].createdAt <= events[i].createdAt && (j > i ==> events[j].createdAt < events[i].createdAt))
  }

  ghost predicate IsGoverning(events: Log, owner: string, identifier: string, s: RepoStates.RepoState) {
    exists i: nat :: Governs(events, owner, identifier, i) && RepoStates.Parse(events[i].tags) == Ok(s)
  }

  /** The update writes what the state says, symbolic refs resolved one level. */
  ghost predicate Follows(u: RefUpdate, s: RepoStates.RepoState) {
    IsSupported(u.name) && !IsPrBranchRef(u.name) && Resolved(s, u.name) == Some(u.newRev)
  }

  lemma GovernsIsNewest(events: Log, owner: string, identifier: string, i: nat)
    ensures Governs(events, owner, identifier, i) <==> IsNewest(events, Closure(events, owner, identifier), i)
  {
    forall j | 0 <= j < |events|
      ensures IsCandidate(events[j], Closure(events, owner, identifier)) <==>
              events[j].kind == KIND_REPO_STATE && Trusted(events, owner, identifier, events[j].pubkey)
    {
      ClosureMeaning(events, owner, identifier, events[j].pubkey);
    }
  }

  lemma GoverningUnique(events: Log, owner: string, identifier: string, i: nat, j: nat)
    requires Governs(events, owner, identifier, i) && Governs(events, owner, identifier, j)
    ensures i == j
  {
  }

  /** The resolved state is the parse of the governing event, and absent exactly when
      there is no governing event or it does not parse. */
  lemma ResolvedStateMeaning(events: Log, owner: string, identifier: string, s: RepoStates.RepoState)
    ensures ResolvedState(events, owner, identifier) == Some(s) <==> IsGoverning(events, owner, identifier, s)
  {
    var keys := Closure(events, owner, identifier);
    var maintainers := Listing(keys);
    NewestMeaning(events, keys);
    ElementsEmpty(maintainers);
    var newest := NewestCandidate(events, keys);
    if newest.Some? {
      var i: nat :| IsNewest(events, keys, i) && events[i] == newest.value;
      GovernsIsNewest(events, owner, identifier, i);
      assert newest.value.pubkey in keys;
      forall j: nat | Governs(events, owner, identifier, j) ensures j == i {
        GoverningUnique(events, owner, identifier, i, j);
      }
    } else {
      forall j: nat ensures !Governs(events, owner, identifier, j) {
        GovernsIsNewest(events, owner, identifier, j);
      }
    }
  }

  lemma NostrOrFollows(u: RefUpdate, state: Option<RepoStates.RepoState>)
    ensures EvaluateRefUpdate(u, state) == Accept <==>
            IsNostrRefName(u.name) || (state.Some? && RepoStates.Valid(state.value) && Follows(u, state.value))
  {
    AcceptedUpdate(u, state);
  }

  /** A push passes exactly when every update is a well-formed nostr ref or writes what
      the governing state says, and the governing state, if there is one, is valid. */
  lemma EndToEnd(events: Log, owner: string, identifier: string, updates: seq<RefUpdate>)
    ensures EvaluatePush(events, owner, identifier, updates) == Accept <==>
            && (forall s :: IsGoverning(events, owner, identifier, s) ==> RepoStates.Valid(s))
            && (forall u :: u in updates ==>
                  || IsNostrRefName(u.name)
                  || exists s :: IsGoverning(events, owner, identifier, s) && Follows(u, s))
  {
    var state := ResolvedState(events, owner, identifier);
    forall s ensures IsGoverning(events, owner, identifier, s) <==> state == Some(s) {
      ResolvedStateMeaning(events, owner, identifier, s);
    }
    BatchRefinesUpdates(updates, state);
    assert Usable(state) <==> forall s :: IsGoverning(events, owner, identifier, s) ==> RepoStates.Valid(s);
    if Usable(state) {
      forall u ensures EvaluateRefUpdate(u, state) == Accept <==>
                       || IsNostrRefName(u.name)
                       || exists s :: IsGoverning(events, owner, identifier, s) && Follows(u, s)
      {
        NostrOrFollows(u, state);
      }
    }
  }

  // ---- runs of pushes

  /** Push `i` brings batch `i` and is judged by the state that log `i` resolves to. */
  ghost function JudgedPushes(logs: seq<Log>, batches: seq<seq<RefUpdate>>, owner: string, identifier: string)
    : (r: seq<PushRuns.Push>)
    requires |logs| == |batches|
    ensures |r| == |logs|
    ensures forall i :: 0 <= i < |r| ==>
                          r[i] == PushRuns.Push(batches[i], ResolvedState(logs[i], owner, identifier))
  {
    seq(|logs|, i requires 0 <= i < |logs| => PushRuns.Push(batches[i], ResolvedState(logs[i], owner, identifier)))
  }

  /** The governing state of the log is valid and gives the ref this value. */
  ghost predicate LogGives(log: Log, owner: string, identifier: string, name: string, value: Option<string>) {
    exists s :: IsGoverning(log, owner, identifier, s) && PushRuns.Authorises(Some(s), name, value)
  }

  /** Over any run of pushes against any logs, a ref outside refs/nostr/ holds its initial
      value or the one that the governing state of some log of the run gives it, and a
      protected ref holds its initial value. */
  lemma RunAuthority(
    store: PushRuns.RefStore, logs: seq<Log>, batches: seq<seq<RefUpdate>>, owner: string, identifier: string,
    name: string)
    requires |logs| == |batches|
    ensures var after := RepoStates.Get(PushRuns.Run(store, JudgedPushes(logs, batches, owner, identifier)), name);
            && (PushRuns.Protected(name) ==> after == RepoStates.Get(store, name))
            && (!IsNostrRefName(name) ==>
                  || after == RepoStates.Get(store, name)
                  || exists i :: 0 <= i < |logs| && LogGives(logs[i], owner, identifier, name, after))
  {
    var pushes := JudgedPushes(logs, batches, owner, identifier);
    var after := RepoStates.Get(PushRuns.Run(store, pushes), name);
    PushRuns.RunSafe(store, pushes, name);
    if !IsNostrRefName(name) && after != RepoStates.Get(store, name) {
      PushRuns.RunProvenance(store, pushes, name);
      var i :| 0 <= i < |pushes| && PushRuns.Authorises(pushes[i].fetched, name, after);
      ResolvedStateMeaning(logs[i], owner, identifier, pushes[i].fetched.value);
      assert LogGives(logs[i], owner, identifier, name, after);
    }
  }

  // ---- when the governing state is one for the repository

  lemma StateEventsAnnounceNothing(events: Log, keep: NostrEvent -> bool, owner: string, identifier: string)
    requires forall e: NostrEvent :: e.kind != KIND_REPO_STATE ==> keep(e)
    ensures Closure(Where(events, keep), owner, identifier) == Closure(events, owner, identifier)
  {
    forall key
      ensures FindRepoAnnouncement(Where(events, keep), key, identifier) ==
              FindRepoAnnouncement(events, key, identifier)
    {
      FindWhere(events, keep, key, identifier);
    }
    AgreeOutside(events, Where(events, keep), owner, identifier, {});
  }

  /** The event holds a state that names the repository. */
  predicate IsFor(e: NostrEvent, identifier: string) {
    StateOf(e).Some? && StateOf(e).value.identifier == identifier
  }

  /** The log without the state events that do not parse or name another repository. */
  function OnlyFor(events: Log, identifier: string): (r: Log) {
    Where(events, (e: NostrEvent) => e.kind != KIND_REPO_STATE || IsFor(e, identifier))
  }

  lemma NewestOnlyFor(events: Log, keys: set<string>, identifier: string)
    ensures var newest, proper := NewestCandidate(events, keys), NewestCandidate(OnlyFor(events, identifier), keys);
            && (newest.Some? && IsFor(newest.value, identifier) ==> proper == newest)
            && (proper.Some? ==> IsFor(proper.value, identifier))
            && (proper.None? <==> forall e :: e in events && IsCandidate(e, keys) ==> !IsFor(e, identifier))
  {
    var keep := (e: NostrEvent) => e.kind != KIND_REPO_STATE || IsFor(e, identifier);
    var log := Where(events, keep);
    assert OnlyFor(events, identifier) == log;
    NewestWhere(events, keep, keys);
    NewestIsMaximal(log, keys);
    forall e ensures e in log <==> e in events && keep(e) {
      WhereMember(events, keep, e);
    }
  }

  /** The newest state event of the maintainers names the repository, or there is none, or
      it does not parse but no state of theirs names the repository anyway. */
  ghost predicate NewestIsProper(events: Log, keys: set<string>, identifier: string) {
    var newest := NewestCandidate(events, keys);
    || newest.None?
    || IsFor(newest.value, identifier)
    || (StateOf(newest.value).None? && forall e :: e in events && IsCandidate(e, keys) ==> !IsFor(e, identifier))
  }

  /** The code judges by what the maintainers last said about this repository exactly when
      their newest state event is proper: nothing filters by identifier and nothing falls
      back when the newest does not parse. */
  lemma ProperStateIff(events: Log, owner: string, identifier: string)
    ensures ResolvedState(events, owner, identifier) == ResolvedState(OnlyFor(events, identifier), owner, identifier)
            <==> NewestIsProper(events, Closure(events, owner, identifier), identifier)
  {
    var keys := Closure(events, owner, identifier);
    var keep := (e: NostrEvent) => e.kind != KIND_REPO_STATE || IsFor(e, identifier);
    assert OnlyFor(events, identifier) == Where(events, keep);
    StateEventsAnnounceNothing(events, keep, owner, identifier);
    NewestOnlyFor(events, keys, identifier);
    NewestMeaning(events, keys);
    ElementsEmpty(Listing(keys));
  }

  /** A trusted key's newest state takes over at once, whatever repository it names and even
      when it does not parse. */
  lemma NewestStateTakesOver(events: Log, e: NostrEvent, owner: string, identifier: string)
    requires e.kind == KIND_REPO_STATE && Trusted(events, owner, identifier, e.pubkey)
    requires forall f :: f in events && IsCandidate(f, Closure(events, owner, identifier)) ==>
                           f.createdAt <= e.createdAt
    ensures ResolvedState(events + [e], owner, identifier) == StateOf(e)
  {
    var keys := Closure(events, owner, identifier);
    ClosureKept(events, e, owner, identifier);
    ClosureMeaning(events, owner, identifier, e.pubkey);
    ElementsEmpty(Listing(keys));
    NewestMeaning(events, keys);
    assert (events + [e])[..|events|] == events;
  }

  lemma ClosureKept(events: Log, e: NostrEvent, owner: string, identifier: string)
    requires e.kind == KIND_REPO_STATE
    ensures Closure(events + [e], owner, identifier) == Closure(events, owner, identifier)
  {
    forall key
      ensures FindRepoAnnouncement(events + [e], key, identifier) == FindRepoAnnouncement(events, key, identifier)
    {
      FindConcat(events, [e], key, identifier);
    }
    AgreeOutside(events, events + [e], owner, identifier, {});
  }

  /** The event that prints a state. */
  ghost function StateEvent(pubkey: string, createdAt: int, s: RepoStates.RepoState): (r: NostrEvent) {
    NostrEvent(KIND_REPO_STATE, pubkey, createdAt, RepoStates.Print(s))
  }

  const MAIN := "refs/heads/main"

  ghost function MainAt(identifier: string, commit: string): (r: RepoStates.RepoState) {
    RepoStates.RepoState(identifier, map[RepoStates.HEAD := "ref: " + MAIN, MAIN := commit])
  }

  lemma MainLegal(commit: string)
    requires RepoStates.IsHex40(commit)
    ensures RepoStates.IsLegal(RepoStates.HEAD, "ref: " + MAIN) && RepoStates.IsLegal(MAIN, commit)
  {
    assert MAIN == "refs/heads/" + "main";
    assert "ref: " + MAIN == "ref: refs/" + "heads/main";
    assert MAIN[|MAIN| - 1] == 'n' && RepoStates.HEAD[3] == 'D' && "^{}"[2] == '}';
  }

  lemma MainAtValid(identifier: string, commit: string)
    requires !IsBlank(identifier) && RepoStates.IsHex40(commit)
    ensures RepoStates.Valid(MainAt(identifier, commit))
    ensures RepoStates.Parse(RepoStates.Print(MainAt(identifier, commit))) == Ok(MainAt(identifier, commit))
  {
    var s := MainAt(identifier, commit);
    MainLegal(commit);
    assert RepoStates.AllLegal(s.refs);
    RepoStates.RoundTrip(s);
    HeadShapes("ref: " + MAIN);
    assert ("ref: " + MAIN)[5..] == MAIN;
    RepoStates.ValidMeaning(s);
  }

  lemma MainDecision(identifier: string, commit: string, pushed: string)
    requires !IsBlank(identifier) && RepoStates.IsHex40(commit)
    ensures EvaluateUpdates([RefUpdate("", pushed, MAIN)], Some(MainAt(identifier, commit))) ==
            if pushed == commit then Accept else Reject(OtherRevision(commit))
  {
    var u, s := RefUpdate("", pushed, MAIN), MainAt(identifier, commit);
    MainAtValid(identifier, commit);
    MainResolved(identifier, commit);
    SingleUpdate(u, Some(s));
    JudgedUpdate(u, s);
  }

  lemma MainResolved(identifier: string, commit: string)
    requires RepoStates.IsHex40(commit)
    ensures IsBranchRef(MAIN) && !IsPrBranchRef(MAIN)
    ensures Resolved(MainAt(identifier, commit), MAIN) == Some(commit)
  {
    assert MAIN == HEADS_PREFIX + "main";
    PlainBranch(MAIN);
    assert IsHexDigit(commit[0]) && "ref: "[0] == 'r';
  }

  const OWNED := RepoAnnouncement("repo", None, None, None, [], [], [], [], [], [])

  ghost function OwnedAnnouncement(): (r: NostrEvent) {
    NostrEvent(KIND_REPO_ANNOUNCEMENT, "a", 0, Announcement.Print(OWNED))
  }

  /** An owner "a" that announced "repo" and put its main branch at a commit. */
  ghost function OwnedLog(commit: string): (r: Log) {
    [OwnedAnnouncement()] + [StateEvent("a", 1, MainAt("repo", commit))]
  }

  lemma OwnedTrusts(log: Log)
    requires log != [] && log[0] == OwnedAnnouncement()
    ensures Trusted(log, "a", "repo", "a")
  {
    PrintedAnnounces(OWNED, "a", 0);
    assert FindRepoAnnouncement(log, "a", "repo") == Announces(log[0], "a", "repo");
    assert Connects(log, "repo", ["a"], "a", "a");
  }

  lemma OwnedState(commit: string)
    requires RepoStates.IsHex40(commit)
    ensures ResolvedState(OwnedLog(commit), "a", "repo") == Some(MainAt("repo", commit))
  {
    OwnedTrusts([OwnedAnnouncement()]);
    NewestStateTakesOver([OwnedAnnouncement()], StateEvent("a", 1, MainAt("repo", commit)), "a", "repo");
    assert !IsWhitespace("repo"[0]);
    MainAtValid("repo", commit);
  }

  lemma OwnedTakenOver(commit: string, newer: NostrEvent)
    requires newer.kind == KIND_REPO_STATE && newer.pubkey == "a" && newer.createdAt >= 1
    ensures ResolvedState(OwnedLog(commit) + [newer], "a", "repo") == StateOf(newer)
  {
    OwnedTrusts(OwnedLog(commit));
    NewestStateTakesOver(OwnedLog(commit), newer, "a", "repo");
  }

  /** A concrete log on which the owner's state for "other" judges the pushes to "repo": the
      commit recorded for "repo" is refused and the one recorded for "other" accepted. */
  lemma ForeignStateJudges(commit: string, foreign: string, log: Log)
    requires RepoStates.IsHex40(commit) && RepoStates.IsHex40(foreign) && commit != foreign
    requires log == OwnedLog(commit) + [StateEvent("a", 2, MainAt("other", foreign))]
    ensures EvaluatePush(OwnedLog(commit), "a", "repo", [RefUpdate("", commit, MAIN)]) == Accept
    ensures EvaluatePush(log, "a", "repo", [RefUpdate("", commit, MAIN)]) == Reject(OtherRevision(foreign))
    ensures EvaluatePush(log, "a", "repo", [RefUpdate("", foreign, MAIN)]) == Accept
  {
    assert !IsWhitespace("repo"[0]) && !IsWhitespace("other"[0]);
    MainAtValid("other", foreign);
    OwnedState(commit);
    OwnedTakenOver(commit, StateEvent("a", 2, MainAt("other", foreign)));
    MainDecision("repo", commit, commit);
    MainDecision("other", foreign, commit);
    MainDecision("other", foreign, foreign);
  }

  /** A concrete log on which a newest state without a `d` tag leaves the repository stateless. */
  lemma BrokenStateHides(commit: string, log: Log)
    requires RepoStates.IsHex40(commit)
    requires log == OwnedLog(commit) + [NostrEvent(KIND_REPO_STATE, "a", 2, [])]
    ensures EvaluatePush(OwnedLog(commit), "a", "repo", [RefUpdate("", commit, MAIN)]) == Accept
    ensures EvaluatePush(log, "a", "repo", [RefUpdate("", commit, MAIN)]) == Reject(NoState)
  {
    assert !IsWhitespace("repo"[0]);
    OwnedState(commit);
    OwnedTakenOver(commit, NostrEvent(KIND_REPO_STATE, "a", 2, []));
    MainDecision("repo", commit, commit);
    MainResolved("repo", commit);
    SingleUpdate(RefUpdate("", commit, MAIN), None);
    NotNostr(MAIN);
  }

  /** Events by authors whom no maintainer names change no push decision, wherever they
      stand in the log. */
  lemma OutsidersCannotPush(
    a: Log, b: Log, owner: string, identifier: string, outsiders: set<string>, updates: seq<RefUpdate>)
    requires Outside(a, owner, identifier, outsiders) && Without(a, outsiders) == Without(b, outsiders)
    ensures EvaluatePush(b, owner, identifier, updates) == EvaluatePush(a, owner, identifier, updates)
  {
    OutsidersCannotInterfere(a, b, owner, identifier, outsiders);
  }

  /** When the order of the log does not affect the maintainers, every replica resolves to the
      same state, and so decides every push alike, exactly when their newest states agree. */
  lemma ReplicasDecideAlike(events: Log, owner: string, identifier: string)
    requires OrderFree(events, owner, identifier)
    ensures (forall log :: SameEvents(log, events) ==>
               ResolvedState(log, owner, identifier) == ResolvedState(events, owner, identifier)) <==>
            NewestAgree(events, Closure(events, owner, identifier))
    ensures NewestAgree(events, Closure(events, owner, identifier)) ==>
              forall log, updates :: SameEvents(log, events) ==>
                EvaluatePush(log, owner, identifier, updates) == EvaluatePush(events, owner, identifier, updates)
  {
    var maintainers := Listing(Closure(events, owner, identifier));
    LatestConverges(events, maintainers);
    forall log | SameEvents(log, events)
      ensures ResolvedState(log, owner, identifier) == LatestStateFromMaintainers(log, maintainers)
    {
      assert Closure(log, owner, identifier) == Closure(events, owner, identifier);
    }
  }
}
