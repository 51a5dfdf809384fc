/** Exactly when every replica computes the same maintainers, whatever the order of its
    log: the announcements of a key are alternatives, and the order of the log selects
    one per key. */
module Convergence {
  import opened RepoEvents
  import opened Maintainers
  import opened Replicas

  /** The event, as an announcement of its author, lists the key. */
  ghost predicate Lists(e: NostrEvent, identifier: string, key: string) {
    Announces(e, e.pubkey, identifier).Some? && key in Announces(e, e.pubkey, identifier).value.maintainers
  }

  ghost predicate IsAnnouncement(e: NostrEvent, key: string, identifier: string) {
    e.pubkey == key && Announces(e, e.pubkey, identifier).Some?
  }

  /** Whatever announcement of each key is selected, a chain from `key` reaches the target. */
  least predicate Forced(events: Log, identifier: string, target: string, key: string) {
    || key == target
    || (&& IsAnnouncer(events, identifier, key)
        && forall e :: e in events && IsAnnouncement(e, key, identifier) ==>
             exists q :: && Lists(e, identifier, q) && IsAnnouncer(events, identifier, q)
                         && Forced(events, identifier, target, q))
  }

  ghost predicate OrderFree(events: Log, owner: string, identifier: string) {
    forall log :: SameEvents(log, events) ==> Closure(log, owner, identifier) == Closure(events, owner, identifier)
  }

  /** No announcement of a maintainer lists an announcing key outside the closure. */
  ghost predicate Closed(events: Log, owner: string, identifier: string) {
    forall e, q :: (&& e in events && e.pubkey in Closure(events, owner, identifier)
                    && Lists(e, identifier, q) && IsAnnouncer(events, identifier, q)) ==>
                     q in Closure(events, owner, identifier)
  }

  ghost predicate AllForced(events: Log, owner: string, identifier: string) {
    forall t :: t in Closure(events, owner, identifier) ==> Forced(events, identifier, t, owner)
  }

  lemma SameAnnouncers(events: Log, log: Log, identifier: string, key: string)
    requires SameEvents(log, events)
    ensures IsAnnouncer(log, identifier, key) <==> IsAnnouncer(events, identifier, key)
  {
    AnnouncerIsAuthor(log, identifier, key);
    AnnouncerIsAuthor(events, identifier, key);
    forall e ensures e in log <==> e in events {
      SameMembers(log, events, e);
    }
  }

  /** The announcement a key is known by is one of its announcements. */
  ghost function FoundEvent(log: Log, identifier: string, key: string): (e: NostrEvent)
    requires IsAnnouncer(log, identifier, key)
    ensures e in log && IsAnnouncement(e, key, identifier)
    ensures Announces(e, e.pubkey, identifier) == FindRepoAnnouncement(log, key, identifier)
  {
    FindMeaning(log, key, identifier);
    var i :| 0 <= i < |log| && Announces(log[i], key, identifier) == FindRepoAnnouncement(log, key, identifier);
    log[i]
  }

  // ---- the condition suffices

  lemma {:induction false} ChainStaysClosed(
    events: Log, log: Log, owner: string, identifier: string, chain: seq<string>)
    requires SameEvents(log, events) && Closed(events, owner, identifier)
    requires IsChain(log, identifier, chain) && chain != [] && chain[0] == owner
    ensures chain[|chain| - 1] in Closure(events, owner, identifier)
  {
    var n := |chain| - 1;
    ChainEnds(log, identifier, chain);
    SameAnnouncers(events, log, identifier, chain[n]);
    if n == 0 {
      ClosureMeaning(events, owner, identifier, owner);
      assert Connects(events, identifier, [owner], owner, owner);
    } else {
      ChainExtends(log, identifier, chain);
      ChainStaysClosed(events, log, owner, identifier, chain[..n]);
      var e := FoundEvent(log, identifier, chain[n - 1]);
      SameMembers(log, events, e);
      assert Lists(e, identifier, chain[n]);
    }
  }

  least lemma ForcedReaches(events: Log, log: Log, identifier: string, target: string, key: string)
    requires Forced(events, identifier, target, key)
    requires SameEvents(log, events) && IsAnnouncer(log, identifier, target)
    ensures Trusted(log, key, identifier, target)
  {
    if key == target {
      assert Connects(log, identifier, [key], key, key);
    } else {
      SameAnnouncers(events, log, identifier, key);
      var e := FoundEvent(log, identifier, key);
      SameMembers(log, events, e);
      var q :| Lists(e, identifier, q) && IsAnnouncer(events, identifier, q)
               && Forced#[_k - 1](events, identifier, target, q);
      ForcedReaches#[_k - 1](events, log, identifier, target, q);
      TrustedPrepend(log, identifier, key, q, target);
    }
  }

  lemma ConditionSuffices(events: Log, log: Log, owner: string, identifier: string)
    requires SameEvents(log, events)
    requires Closed(events, owner, identifier) && AllForced(events, owner, identifier)
    ensures Closure(log, owner, identifier) == Closure(events, owner, identifier)
  {
    forall t ensures t in Closure(log, owner, identifier) <==> t in Closure(events, owner, identifier) {
      ClosureMeaning(log, owner, identifier, t);
      ClosureMeaning(events, owner, identifier, t);
      if Trusted(log, owner, identifier, t) {
        var chain :| Connects(log, identifier, chain, owner, t);
        ChainStaysClosed(events, log, owner, identifier, chain);
      }
      if t in Closure(events, owner, identifier) {
        var chain :| Connects(events, identifier, chain, owner, t);
        ChainEnds(events, identifier, chain);
        SameAnnouncers(events, log, identifier, chain[|chain| - 1]);
        ForcedReaches(events, log, identifier, t, owner);
      }
    }
  }

  // ---- the condition is necessary

  lemma NecessarilyClosed(events: Log, owner: string, identifier: string)
    requires OrderFree(events, owner, identifier)
    ensures Closed(events, owner, identifier)
  {
    forall e, q | e in events && e.pubkey in Closure(events, owner, identifier)
                  && Lists(e, identifier, q) && IsAnnouncer(events, identifier, q)
      ensures q in Closure(events, owner, identifier)
    {
      var i :| 0 <= i < |events| && events[i] == e;
      var log := ToFront(events, i);
      assert FindRepoAnnouncement(log, e.pubkey, identifier) == Announces(e, e.pubkey, identifier);
      SameAnnouncers(events, log, identifier, q);
      assert e.pubkey in Closure(log, owner, identifier);
      NextIsMaintainer(log, owner, identifier, e.pubkey, q);
    }
  }

  lemma NextIsMaintainer(log: Log, owner: string, identifier: string, key: string, next: string)
    requires key in Closure(log, owner, identifier)
    requires next in Listed(log, identifier, key) && IsAnnouncer(log, identifier, next)
    ensures next in Closure(log, owner, identifier)
  {
    ClosureMeaning(log, owner, identifier, key);
    ClosureMeaning(log, owner, identifier, next);
    var chain :| Connects(log, identifier, chain, owner, key);
    var longer := chain + [next];
    assert longer[..|chain|] == chain;
    ChainExtends(log, identifier, longer);
    assert Connects(log, identifier, longer, owner, next);
  }

  /** An announcement that avoids every key from which the target is forced. */
  ghost predicate Evades(events: Log, identifier: string, target: string, e: NostrEvent) {
    && Announces(e, e.pubkey, identifier).Some?
    && (forall q :: Lists(e, identifier, q) && IsAnnouncer(events, identifier, q) ==>
                      !Forced(events, identifier, target, q))
  }

  lemma {:induction false} WhereSplits(events: Log, keep: NostrEvent -> bool, drop: NostrEvent -> bool)
    requires forall e :: keep(e) != drop(e)
    ensures multiset(Where(events, keep)) + multiset(Where(events, drop)) == multiset(events)
  {
    if events != [] {
      var n := |events| - 1;
      WhereSplits(events[..n], keep, drop);
      assert events == events[..n] + [events[n]];
    }
  }

  /** The evading events of a log, or the others. */
  ghost function Evading(events: Log, identifier: string, target: string, evading: bool): (r: Log)
    ensures forall e :: e in r <==> e in events && Evades(events, identifier, target, e) == evading
  {
    var keep := (e: NostrEvent) => Evades(events, identifier, target, e) == evading;
    assert forall e :: e in Where(events, keep) <==> e in events && keep(e) by {
      forall e {
        WhereMember(events, keep, e);
      }
    }
    Where(events, keep)
  }

  /** The log with the evading announcements first. */
  ghost function EvadingFirst(events: Log, identifier: string, target: string): (r: Log)
    ensures SameEvents(r, events)
  {
    var keep := (e: NostrEvent) => Evades(events, identifier, target, e) == true;
    var drop := (e: NostrEvent) => Evades(events, identifier, target, e) == false;
    WhereSplits(events, keep, drop);
    assert Evading(events, identifier, target, true) == Where(events, keep);
    assert Evading(events, identifier, target, false) == Where(events, drop);
    Evading(events, identifier, target, true) + Evading(events, identifier, target, false)
  }

  /** In that log a key that does not force the target lists only such keys. */
  lemma UnforcedStays(events: Log, identifier: string, target: string, key: string, next: string)
    requires !Forced(events, identifier, target, key)
    requires var log := EvadingFirst(events, identifier, target);
             && IsAnnouncer(log, identifier, key) && IsAnnouncer(log, identifier, next)
             && next in Listed(log, identifier, key)
    ensures !Forced(events, identifier, target, next)
  {
    var log := EvadingFirst(events, identifier, target);
    SameAnnouncers(events, log, identifier, key);
    SameAnnouncers(events, log, identifier, next);
    var e :| e in events && IsAnnouncement(e, key, identifier) && Evades(events, identifier, target, e);
    var front, back := Evading(events, identifier, target, true), Evading(events, identifier, target, false);
    assert e in front;
    FindMeaning(front, key, identifier);
    FindConcat(front, back, key, identifier);
    var f := FoundEvent(front, identifier, key);
    assert Lists(f, identifier, next);
  }

  lemma {:induction false} UnforcedChain(events: Log, identifier: string, target: string, chain: seq<string>)
    requires chain != [] && !Forced(events, identifier, target, chain[0])
    requires IsChain(EvadingFirst(events, identifier, target), identifier, chain)
    ensures !Forced(events, identifier, target, chain[|chain| - 1])
  {
    var n := |chain| - 1;
    if n > 0 {
      var log := EvadingFirst(events, identifier, target);
      ChainExtends(log, identifier, chain);
      UnforcedChain(events, identifier, target, chain[..n]);
      assert chain[..n][n - 1] == chain[n - 1];
      UnforcedStays(events, identifier, target, chain[n - 1], chain[n]);
    }
  }

  lemma NecessarilyForced(events: Log, owner: string, identifier: string)
    requires OrderFree(events, owner, identifier)
    ensures AllForced(events, owner, identifier)
  {
    forall t | t in Closure(events, owner, identifier) ensures Forced(events, identifier, t, owner) {
      var log := EvadingFirst(events, identifier, t);
      assert t in Closure(log, owner, identifier);
      ClosureMeaning(log, owner, identifier, t);
      var chain :| Connects(log, identifier, chain, owner, t);
      if !Forced(events, identifier, t, owner) {
        UnforcedChain(events, identifier, t, chain);
      }
    }
  }

  /** Every order of the log gives the same maintainers if and only if no announcement of a
      maintainer lists an announcing key outside the set, and every maintainer is reached
      whichever announcement of each key is selected. */
  lemma ConvergesWhenClosed(events: Log, owner: string, identifier: string)
    ensures OrderFree(events, owner, identifier) <==>
            Closed(events, owner, identifier) && AllForced(events, owner, identifier)
  {
    if OrderFree(events, owner, identifier) {
      NecessarilyClosed(events, owner, identifier);
      NecessarilyForced(events, owner, identifier);
    }
    if Closed(events, owner, identifier) && AllForced(events, owner, identifier) {
      forall log | SameEvents(log, events)
        ensures Closure(log, owner, identifier) == Closure(events, owner, identifier)
      {
        ConditionSuffices(events, log, owner, identifier);
      }
    }
  }

  // ---- the same condition without naming any order's result

  /** Some announcement of the key lists the next one. */
  ghost predicate MayList(events: Log, identifier: string, key: string, next: string) {
    exists e :: e in events && e.pubkey == key && Lists(e, identifier, next)
  }

  ghost predicate IsPossibleLink(events: Log, identifier: string, chain: seq<string>, i: nat)
    requires i < |chain|
  {
    IsAnnouncer(events, identifier, chain[i]) && (i > 0 ==> MayList(events, identifier, chain[i - 1], chain[i]))
  }

  /** Each next key is listed by some announcement of the one before, not necessarily the first. */
  ghost predicate IsPossibleChain(events: Log, identifier: string, chain: seq<string>) {
    forall i :: 0 <= i < |chain| ==> IsPossibleLink(events, identifier, chain, i)
  }

  /** Following any announcements, a chain from the owner can reach the key. */
  ghost predicate MayReach(events: Log, owner: string, identifier: string, key: string) {
    exists chain :: MayConnect(events, identifier, chain, owner, key)
  }

  ghost predicate MayConnect(events: Log, identifier: string, chain: seq<string>, from: string, to: string) {
    chain != [] && chain[0] == from && chain[|chain| - 1] == to && IsPossibleChain(events, identifier, chain)
  }

  /** Every order of the log gives the same maintainers if and only if every key that can be
      reached is reached whichever announcement of each key is selected. */
  lemma MaintainersConvergeIff(events: Log, owner: string, identifier: string)
    ensures OrderFree(events, owner, identifier) <==>
            forall t :: MayReach(events, owner, identifier, t) ==> Forced(events, identifier, t, owner)
  {
    ConvergesWhenClosed(events, owner, identifier);
    if OrderFree(events, owner, identifier) {
      forall t | MayReach(events, owner, identifier, t) ensures Forced(events, identifier, t, owner) {
        var chain :| MayConnect(events, identifier, chain, owner, t);
        PossibleStaysClosed(events, owner, identifier, chain);
      }
    }
    if forall t :: MayReach(events, owner, identifier, t) ==> Forced(events, identifier, t, owner) {
      forall t | t in Closure(events, owner, identifier) ensures MayReach(events, owner, identifier, t) {
        var chain := ClosureIsPossible(events, owner, identifier, t);
      }
      ForcedIsClosed(events, owner, identifier);
    }
  }

  /** A closure that no announcement leaves holds every possible chain. */
  lemma {:induction false} PossibleStaysClosed(events: Log, owner: string, identifier: string, chain: seq<string>)
    requires Closed(events, owner, identifier) && IsPossibleChain(events, identifier, chain)
    requires chain != [] && chain[0] == owner
    ensures chain[|chain| - 1] in Closure(events, owner, identifier)
  {
    var n := |chain| - 1;
    assert IsPossibleLink(events, identifier, chain, n);
    if n == 0 {
      ClosureMeaning(events, owner, identifier, owner);
      assert Connects(events, identifier, [owner], owner, owner);
    } else {
      PossibleExtends(events, identifier, chain);
      PossibleStaysClosed(events, owner, identifier, chain[..n]);
      assert chain[..n][n - 1] == chain[n - 1];
    }
  }

  lemma ClosureIsPossible(events: Log, owner: string, identifier: string, key: string) returns (chain: seq<string>)
    requires key in Closure(events, owner, identifier)
    ensures MayConnect(events, identifier, chain, owner, key)
  {
    ClosureMeaning(events, owner, identifier, key);
    chain :| Connects(events, identifier, chain, owner, key);
    forall i | 0 <= i < |chain| ensures IsPossibleLink(events, identifier, chain, i) {
      assert IsLink(events, identifier, chain, i);
      if i > 0 {
        assert IsLink(events, identifier, chain, i - 1);
        var e := FoundEvent(events, identifier, chain[i - 1]);
        assert Lists(e, identifier, chain[i]);
      }
    }
  }

  lemma PossibleExtends(events: Log, identifier: string, chain: seq<string>)
    requires |chain| > 1
    ensures var n := |chain| - 1;
            IsPossibleChain(events, identifier, chain) <==>
            && IsPossibleChain(events, identifier, chain[..n])
            && IsAnnouncer(events, identifier, chain[n]) && MayList(events, identifier, chain[n - 1], chain[n])
  {
    var n := |chain| - 1;
    forall i | 0 <= i < n
      ensures IsPossibleLink(events, identifier, chain, i) <==> IsPossibleLink(events, identifier, chain[..n], i)
    {
      assert i > 0 ==> chain[..n][i - 1] == chain[i - 1];
    }
    assert IsPossibleLink(events, identifier, chain, n) <==>
           IsAnnouncer(events, identifier, chain[n]) && MayList(events, identifier, chain[n - 1], chain[n]);
  }

  lemma ForcedIsClosed(events: Log, owner: string, identifier: string)
    requires forall t :: MayReach(events, owner, identifier, t) ==> Forced(events, identifier, t, owner)
    ensures Closed(events, owner, identifier)
  {
    forall e, q | e in events && e.pubkey in Closure(events, owner, identifier)
                  && Lists(e, identifier, q) && IsAnnouncer(events, identifier, q)
      ensures q in Closure(events, owner, identifier)
    {
      MayReachNext(events, owner, identifier, e, q);
      ForcedReaches(events, events, identifier, q, owner);
      ClosureMeaning(events, owner, identifier, q);
    }
  }

  lemma MayReachNext(events: Log, owner: string, identifier: string, e: NostrEvent, next: string)
    requires e in events && e.pubkey in Closure(events, owner, identifier)
    requires Lists(e, identifier, next) && IsAnnouncer(events, identifier, next)
    ensures MayReach(events, owner, identifier, next)
  {
    var chain := ClosureIsPossible(events, owner, identifier, e.pubkey);
    var longer := chain + [next];
    assert longer[..|chain|] == chain;
    assert MayList(events, identifier, e.pubkey, next);
    PossibleExtends(events, identifier, longer);
    assert MayConnect(events, identifier, longer, owner, next);
  }
}
