/** What a set of events can resolve to over all orders of the log. The order matters in two
    ways only: it selects one announcement per key, and one of the newest states. */
module Outcomes {
  import opened Wrappers
  import opened Sorting
  import opened RepoEvents
  import opened Maintainers
  import opened Replicas
  import opened Convergence
  import opened Authority
  import GitReceive
  import RepoStates

  // ---- choices of announcements

  /** One announcement for every key that has any. */
  type Choice = map<string, NostrEvent>

  ghost predicate IsChoice(events: Log, identifier: string, choice: Choice) {
    && (forall key :: key in choice <==> IsAnnouncer(events, identifier, key))
    && (forall key :: key in choice ==> choice[key] in events && IsAnnouncement(choice[key], key, identifier))
  }

  function ChosenList(choice: Choice, identifier: string, key: string): (r: seq<string>) {
    if key !in choice then []
    else
      match Announces(choice[key], key, identifier)
      case None => []
      case Some(a) => a.maintainers
  }

  ghost predicate IsChosenLink(choice: Choice, identifier: string, chain: seq<string>, i: nat)
    requires i < |chain|
  {
    chain[i] in choice && (i > 0 ==> chain[i] in ChosenList(choice, identifier, chain[i - 1]))
  }

  /** A chain of trust that reads each key's chosen announcement. */
  ghost predicate ChosenConnects(choice: Choice, identifier: string, chain: seq<string>, from: string, to: string) {
    && chain != [] && chain[0] == from && chain[|chain| - 1] == to
    && (forall i :: 0 <= i < |chain| ==> IsChosenLink(choice, identifier, chain, i))
  }

  /** The keys a choice reaches from the owner. */
  ghost function Reached(choice: Choice, owner: string, identifier: string): (r: set<string>) {
    set key | key in choice && exists chain :: ChosenConnects(choice, identifier, chain, owner, key)
  }

  // ---- choices and orders

  /** In this log every key is known by its chosen announcement. */
  ghost predicate Realises(log: Log, identifier: string, choice: Choice) {
    forall key :: FindRepoAnnouncement(log, key, identifier) ==
                  if key in choice then Announces(choice[key], key, identifier) else None
  }

  lemma RealisedLinks(log: Log, identifier: string, choice: Choice, chain: seq<string>, i: nat)
    requires IsChoice(log, identifier, choice) && Realises(log, identifier, choice) && i < |chain|
    ensures IsLink(log, identifier, chain, i) <==> IsChosenLink(choice, identifier, chain, i)
  {
    if i > 0 {
      assert Listed(log, identifier, chain[i - 1]) == ChosenList(choice, identifier, chain[i - 1]);
    }
  }

  lemma RealisedClosure(log: Log, owner: string, identifier: string, choice: Choice)
    requires IsChoice(log, identifier, choice) && Realises(log, identifier, choice)
    ensures Closure(log, owner, identifier) == Reached(choice, owner, identifier)
  {
    forall key ensures key in Closure(log, owner, identifier) <==> key in Reached(choice, owner, identifier) {
      ClosureMeaning(log, owner, identifier, key);
      forall chain
        ensures Connects(log, identifier, chain, owner, key) <==> ChosenConnects(choice, identifier, chain, owner, key)
      {
        forall i | 0 <= i < |chain| {
          RealisedLinks(log, identifier, choice, chain, i);
        }
      }
      if chain :| ChosenConnects(choice, identifier, chain, owner, key) {
        assert IsChosenLink(choice, identifier, chain, |chain| - 1);
      }
    }
  }

  /** Every order makes a choice. */
  ghost function ChoiceOf(log: Log, identifier: string): (r: Choice)
    ensures IsChoice(log, identifier, r) && Realises(log, identifier, r)
  {
    forall key {
      AnnouncerIsAuthor(log, identifier, key);
    }
    map key | key in Announcers(log, identifier) :: FoundEvent(log, identifier, key)
  }

  lemma SameChoices(a: Log, b: Log, identifier: string, choice: Choice)
    requires SameEvents(a, b) && IsChoice(a, identifier, choice)
    ensures IsChoice(b, identifier, choice)
  {
    forall key ensures IsAnnouncer(b, identifier, key) <==> IsAnnouncer(a, identifier, key) {
      SameAnnouncers(a, b, identifier, key);
    }
    forall key | key in choice ensures choice[key] in b {
      SameMembers(a, b, choice[key]);
    }
  }

  ghost predicate IsChosen(choice: Choice, e: NostrEvent) {
    e.pubkey in choice && choice[e.pubkey] == e
  }

  ghost function Chosen(events: Log, choice: Choice): (r: Log)
    ensures forall e :: e in r <==> e in events && IsChosen(choice, e)
  {
    var keep := (e: NostrEvent) => IsChosen(choice, e);
    assert forall e :: e in Where(events, keep) <==> e in events && keep(e) by {
      forall e {
        WhereMember(events, keep, e);
      }
    }
    Where(events, keep)
  }

  /** The log with the chosen announcements first. */
  ghost function Arranged(events: Log, choice: Choice): (r: Log)
    ensures SameEvents(r, events)
  {
    var keep := (e: NostrEvent) => IsChosen(choice, e);
    var drop := (e: NostrEvent) => !IsChosen(choice, e);
    WhereSplits(events, keep, drop);
    assert Chosen(events, choice) == Where(events, keep);
    Chosen(events, choice) + Where(events, drop)
  }

  lemma ArrangedFind(events: Log, identifier: string, choice: Choice, key: string)
    requires IsChoice(events, identifier, choice) && key in choice
    ensures FindRepoAnnouncement(Arranged(events, choice), key, identifier) == Announces(choice[key], key, identifier)
  {
    var front, drop := Chosen(events, choice), (e: NostrEvent) => !IsChosen(choice, e);
    assert Arranged(events, choice) == front + Where(events, drop);
    assert IsAnnouncement(choice[key], key, identifier);
    ChosenFirst(front, identifier, choice, key);
    FindConcat(front, Where(events, drop), key, identifier);
  }

  /** Every choice is made by some order. */
  lemma ArrangedRealises(events: Log, identifier: string, choice: Choice)
    requires IsChoice(events, identifier, choice)
    ensures IsChoice(Arranged(events, choice), identifier, choice)
    ensures Realises(Arranged(events, choice), identifier, choice)
  {
    var log := Arranged(events, choice);
    SameChoices(events, log, identifier, choice);
    forall key
      ensures FindRepoAnnouncement(log, key, identifier) ==
              if key in choice then Announces(choice[key], key, identifier) else None
    {
      if key in choice {
        ArrangedFind(events, identifier, choice, key);
      } else {
        assert !IsAnnouncer(log, identifier, key);
      }
    }
  }

  lemma ChosenFirst(front: Log, identifier: string, choice: Choice, key: string)
    requires key in choice && choice[key] in front && IsAnnouncement(choice[key], key, identifier)
    requires forall e :: e in front ==> IsChosen(choice, e)
    ensures FindRepoAnnouncement(front, key, identifier) == Announces(choice[key], key, identifier)
    ensures FindRepoAnnouncement(front, key, identifier).Some?
  {
    FindMeaning(front, key, identifier);
    var e := FoundEvent(front, identifier, key);
    assert IsChosen(choice, e);
  }

  // ---- possible maintainers

  /** The maintainers that some order of the events gives are exactly those that some choice
      of one announcement per key reaches. */
  lemma PossibleMaintainers(events: Log, owner: string, identifier: string, keys: set<string>)
    ensures (exists log :: SameEvents(log, events) && Closure(log, owner, identifier) == keys) <==>
            (exists choice :: IsChoice(events, identifier, choice) && Reached(choice, owner, identifier) == keys)
  {
    if log :| SameEvents(log, events) && Closure(log, owner, identifier) == keys {
      RealisedClosure(log, owner, identifier, ChoiceOf(log, identifier));
      SameChoices(log, events, identifier, ChoiceOf(log, identifier));
    }
    if choice :| IsChoice(events, identifier, choice) && Reached(choice, owner, identifier) == keys {
      ArrangedRealises(events, identifier, choice);
      RealisedClosure(Arranged(events, choice), owner, identifier, choice);
    }
  }

  // ---- possible states

  /** With these maintainers, some order of the events gives this outcome: the state of a
      newest candidate, or none when there is no candidate. */
  ghost predicate MayGive(events: Log, keys: set<string>, outcome: Option<RepoStates.RepoState>) {
    if forall e :: e in events ==> !IsCandidate(e, keys) then outcome == None
    else exists e :: IsMaximal(events, keys, e) && StateOf(e) == outcome
  }

  ghost predicate IsPossible(events: Log, owner: string, identifier: string, outcome: Option<RepoStates.RepoState>) {
    exists choice :: && IsChoice(events, identifier, choice)
                     && MayGive(events, Reached(choice, owner, identifier), outcome)
  }

  lemma OrderIsPossible(events: Log, log: Log, owner: string, identifier: string)
    requires SameEvents(log, events)
    ensures IsPossible(events, owner, identifier, ResolvedState(log, owner, identifier))
  {
    var choice, keys := ChoiceOf(log, identifier), Closure(log, owner, identifier);
    RealisedClosure(log, owner, identifier, choice);
    SameChoices(log, events, identifier, choice);
    GivesLatest(events, log, keys);
  }

  lemma GivesLatest(events: Log, log: Log, keys: set<string>)
    requires SameEvents(log, events)
    ensures MayGive(events, keys, LatestStateFromMaintainers(log, Listing(keys)))
  {
    ElementsEmpty(Listing(keys));
    NewestIsMaximal(log, keys);
    forall e ensures e in log <==> e in events {
      SameMembers(log, events, e);
    }
    var newest := NewestCandidate(log, keys);
    if newest.Some? {
      SameMaximal(log, events, keys, newest.value);
      assert newest.value in events && IsCandidate(newest.value, keys);
    }
  }

  /** Moving a state event changes no maintainer. */
  lemma MoveStateLast(log: Log, i: nat, owner: string, identifier: string)
    requires i < |log| && log[i].kind == KIND_REPO_STATE
    ensures Closure(MoveLast(log, i), owner, identifier) == Closure(log, owner, identifier)
  {
    var a, e, b := log[..i], [log[i]], log[i + 1..];
    assert log == a + e + b;
    forall key
      ensures FindRepoAnnouncement(MoveLast(log, i), key, identifier) == FindRepoAnnouncement(log, key, identifier)
    {
      FindConcat(a + e, b, key, identifier);
      FindConcat(a, e, key, identifier);
      FindConcat(a + b, e, key, identifier);
      FindConcat(a, b, key, identifier);
    }
    AgreeOutside(log, MoveLast(log, i), owner, identifier, {});
  }

  lemma PossibleIsOrdered(events: Log, owner: string, identifier: string, choice: Choice, e: NostrEvent)
    returns (log: Log)
    requires IsChoice(events, identifier, choice) && IsMaximal(events, Reached(choice, owner, identifier), e)
    ensures SameEvents(log, events) && ResolvedState(log, owner, identifier) == StateOf(e)
  {
    var keys, arranged := Reached(choice, owner, identifier), Arranged(events, choice);
    ArrangedRealises(events, identifier, choice);
    RealisedClosure(arranged, owner, identifier, choice);
    SameMaximal(events, arranged, keys, e);
    var i :| 0 <= i < |arranged| && arranged[i] == e;
    MoveStateLast(arranged, i, owner, identifier);
    ElementsEmpty(Listing(keys));
    MaximalLastWins(arranged, i, Listing(keys));
    log := MoveLast(arranged, i);
  }

  /** Some order of the events resolves to the outcome. */
  ghost predicate IsOutcome(events: Log, owner: string, identifier: string, outcome: Option<RepoStates.RepoState>) {
    exists log :: SameEvents(log, events) && ResolvedState(log, owner, identifier) == outcome
  }

  /** The states that the orders of the events resolve to are exactly the possible ones: those
      of a newest candidate among the keys that some choice of announcements reaches. */
  lemma OutcomesArePossible(events: Log, owner: string, identifier: string, outcome: Option<RepoStates.RepoState>)
    ensures IsOutcome(events, owner, identifier, outcome) <==> IsPossible(events, owner, identifier, outcome)
  {
    if log :| SameEvents(log, events) && ResolvedState(log, owner, identifier) == outcome {
      OrderIsPossible(events, log, owner, identifier);
    }
    if choice :| IsChoice(events, identifier, choice)
                 && MayGive(events, Reached(choice, owner, identifier), outcome) {
      PossibleIsOutcome(events, owner, identifier, choice, outcome);
    }
  }

  lemma PossibleIsOutcome(
    events: Log, owner: string, identifier: string, choice: Choice, outcome: Option<RepoStates.RepoState>)
    requires IsChoice(events, identifier, choice) && MayGive(events, Reached(choice, owner, identifier), outcome)
    ensures IsOutcome(events, owner, identifier, outcome)
  {
    var keys := Reached(choice, owner, identifier);
    if e :| IsMaximal(events, keys, e) && StateOf(e) == outcome {
      var log := PossibleIsOrdered(events, owner, identifier, choice, e);
    } else {
      var log := Arranged(events, choice);
      ArrangedRealises(events, identifier, choice);
      RealisedClosure(log, owner, identifier, choice);
      NewestIsMaximal(log, keys);
      forall f ensures f in log <==> f in events {
        SameMembers(log, events, f);
      }
      assert ResolvedState(log, owner, identifier) == None;
    }
  }

  ghost predicate StateOrderFree(events: Log, owner: string, identifier: string) {
    forall log :: SameEvents(log, events) ==>
                    ResolvedState(log, owner, identifier) == ResolvedState(events, owner, identifier)
  }

  ghost predicate PossibleAgree(events: Log, owner: string, identifier: string) {
    forall x, y :: IsPossible(events, owner, identifier, x) && IsPossible(events, owner, identifier, y) ==> x == y
  }

  /** Every replica resolves to the same state, whatever its order, if and only if the possible
      outcomes agree; and then every replica decides every push alike. */
  lemma StatesConvergeIff(events: Log, owner: string, identifier: string)
    ensures StateOrderFree(events, owner, identifier) <==> PossibleAgree(events, owner, identifier)
    ensures StateOrderFree(events, owner, identifier) ==>
              forall log, updates: seq<GitReceive.RefUpdate> :: SameEvents(log, events) ==>
                EvaluatePush(log, owner, identifier, updates) == EvaluatePush(events, owner, identifier, updates)
  {
    forall x ensures IsOutcome(events, owner, identifier, x) <==> IsPossible(events, owner, identifier, x) {
      OutcomesArePossible(events, owner, identifier, x);
    }
    if PossibleAgree(events, owner, identifier) {
      forall log | SameEvents(log, events)
        ensures ResolvedState(log, owner, identifier) == ResolvedState(events, owner, identifier)
      {
        OrderIsPossible(events, log, owner, identifier);
        OrderIsPossible(events, events, owner, identifier);
      }
    }
  }
}
