/** How the log queries depend on the order and the contents of the log: replicas
    that hold the same events in another order, logs that grow, and events by
    authors nobody trusts. */
module Replicas {
  import opened Wrappers
  import opened Sorting
  import opened Announcement
  import opened RepoEvents
  import opened Maintainers
  import RepoStates

  // ---- reordering

  ghost predicate SameEvents(a: Log, b: Log) {
    multiset(a) == multiset(b)
  }

  lemma SameMembers(a: Log, b: Log, e: NostrEvent)
    requires SameEvents(a, b)
    ensures e in a <==> e in b
  {
    assert e in a <==> e in multiset(a);
    assert e in b <==> e in multiset(b);
  }

  function ToFront(s: Log, i: nat): (r: Log)
    requires i < |s|
    ensures SameEvents(r, s)
  {
    var r := [s[i]] + s[..i] + s[i + 1..];
    assert s == s[..i] + [s[i]] + s[i + 1..];
    r
  }

  ghost predicate FindOrderFree(events: Log, key: string, identifier: string) {
    forall log :: SameEvents(log, events) ==>
                    FindRepoAnnouncement(log, key, identifier) == FindRepoAnnouncement(events, key, identifier)
  }

  /** All announcements of a key for the identifier say the same. */
  ghost predicate Unanimous(events: Log, key: string, identifier: string) {
    forall e, f :: e in events && f in events
                   && Announces(e, key, identifier).Some? && Announces(f, key, identifier).Some? ==>
                     Announces(e, key, identifier) == Announces(f, key, identifier)
  }

  lemma UnanimousFind(events: Log, log: Log, key: string, identifier: string)
    requires SameEvents(log, events) && Unanimous(events, key, identifier)
    ensures FindRepoAnnouncement(log, key, identifier) == FindRepoAnnouncement(events, key, identifier)
  {
    FindMeaning(events, key, identifier);
    FindMeaning(log, key, identifier);
    forall e ensures e in log <==> e in events {
      SameMembers(log, events, e);
    }
    var r, s := FindRepoAnnouncement(events, key, identifier), FindRepoAnnouncement(log, key, identifier);
    if r.Some? {
      var i :| 0 <= i < |events| && Announces(events[i], key, identifier) == r;
      assert events[i] in log;
    }
    if s.Some? {
      var i :| 0 <= i < |log| && Announces(log[i], key, identifier) == s;
      assert log[i] in events;
    }
  }

  /** The announcement a key is known by is the same on every replica exactly when
      the key has not contradicted itself. */
  lemma FindConverges(events: Log, key: string, identifier: string)
    ensures FindOrderFree(events, key, identifier) <==> Unanimous(events, key, identifier)
  {
    if Unanimous(events, key, identifier) {
      forall log | SameEvents(log, events)
        ensures FindRepoAnnouncement(log, key, identifier) == FindRepoAnnouncement(events, key, identifier)
      {
        UnanimousFind(events, log, key, identifier);
      }
    }
    if FindOrderFree(events, key, identifier) {
      forall e, f | e in events && f in events
                    && Announces(e, key, identifier).Some? && Announces(f, key, identifier).Some?
        ensures Announces(e, key, identifier) == Announces(f, key, identifier)
      {
        var i :| 0 <= i < |events| && events[i] == e;
        var j :| 0 <= j < |events| && events[j] == f;
        assert SameEvents(ToFront(events, i), events) && SameEvents(ToFront(events, j), events);
        assert FindRepoAnnouncement(ToFront(events, i), key, identifier) == Announces(e, key, identifier);
        assert FindRepoAnnouncement(ToFront(events, j), key, identifier) == Announces(f, key, identifier);
      }
    }
  }

  /** Event `e` is a candidate that no candidate is newer than. */
  ghost predicate IsMaximal(events: Log, keys: set<string>, e: NostrEvent) {
    e in events && IsCandidate(e, keys)
    && forall f :: f in events && IsCandidate(f, keys) ==> f.createdAt <= e.createdAt
  }

  ghost predicate NewestAgree(events: Log, keys: set<string>) {
    forall e, f :: IsMaximal(events, keys, e) && IsMaximal(events, keys, f) ==> StateOf(e) == StateOf(f)
  }

  ghost predicate LatestOrderFree(events: Log, maintainers: seq<string>) {
    forall log :: SameEvents(log, events) ==>
                    LatestStateFromMaintainers(log, maintainers) == LatestStateFromMaintainers(events, maintainers)
  }

  lemma NewestIsMaximal(events: Log, keys: set<string>)
    ensures var r := NewestCandidate(events, keys);
            && (r.Some? ==> IsMaximal(events, keys, r.value))
            && (r.None? <==> forall e :: e in events ==> !IsCandidate(e, keys))
  {
    NewestMeaning(events, keys);
  }

  lemma SameMaximal(a: Log, b: Log, keys: set<string>, e: NostrEvent)
    requires SameEvents(a, b)
    ensures IsMaximal(a, keys, e) <==> IsMaximal(b, keys, e)
  {
    forall f ensures f in a <==> f in b {
      SameMembers(a, b, f);
    }
  }

  lemma AgreeingLatest(events: Log, log: Log, maintainers: seq<string>)
    requires SameEvents(log, events) && NewestAgree(events, Elements(maintainers))
    ensures LatestStateFromMaintainers(log, maintainers) == LatestStateFromMaintainers(events, maintainers)
  {
    var keys := Elements(maintainers);
    NewestIsMaximal(events, keys);
    NewestIsMaximal(log, keys);
    var r, s := NewestCandidate(events, keys), NewestCandidate(log, keys);
    if r.Some? {
      SameMaximal(events, log, keys, r.value);
    }
    if s.Some? {
      SameMaximal(events, log, keys, s.value);
    }
  }

  lemma MaximalLastWins(events: Log, i: nat, maintainers: seq<string>)
    requires i < |events| && maintainers != [] && IsMaximal(events, Elements(maintainers), events[i])
    ensures LatestStateFromMaintainers(MoveLast(events, i), maintainers) == StateOf(events[i])
  {
    var keys, log, e := Elements(maintainers), MoveLast(events, i), events[i];
    SameMaximal(events, log, keys, e);
    var init := log[..|log| - 1];
    NewestIsMaximal(init, keys);
    if NewestCandidate(init, keys).Some? {
      assert NewestCandidate(init, keys).value in log;
    }
  }

  /** The latest state is the same on every replica exactly when the newest
      maintainer states all parse alike; one newest state is the simplest case. */
  lemma LatestConverges(events: Log, maintainers: seq<string>)
    ensures LatestOrderFree(events, maintainers) <==> NewestAgree(events, Elements(maintainers))
  {
    var keys := Elements(maintainers);
    if NewestAgree(events, keys) {
      forall log | SameEvents(log, events)
        ensures LatestStateFromMaintainers(log, maintainers) == LatestStateFromMaintainers(events, maintainers)
      {
        AgreeingLatest(events, log, maintainers);
      }
    }
    if LatestOrderFree(events, maintainers) {
      forall e, f | IsMaximal(events, keys, e) && IsMaximal(events, keys, f) ensures StateOf(e) == StateOf(f) {
        var i :| 0 <= i < |events| && events[i] == e;
        var j :| 0 <= j < |events| && events[j] == f;
        assert maintainers != [];
        MaximalLastWins(events, i, maintainers);
        MaximalLastWins(events, j, maintainers);
        assert SameEvents(MoveLast(events, i), events) && SameEvents(MoveLast(events, j), events);
      }
    }
  }

  /** Two different legal states of one key with one timestamp: the last in the log counts. */
  lemma TieIsOrdered(s: RepoStates.RepoState, t: RepoStates.RepoState, e: NostrEvent, f: NostrEvent)
    requires RepoStates.AllLegal(s.refs) && RepoStates.AllLegal(t.refs)
    requires e.kind == KIND_REPO_STATE && e.tags == RepoStates.Print(s)
    requires f == e.(tags := RepoStates.Print(t))
    ensures LatestStateFromMaintainers([e, f], [e.pubkey]) == Some(t)
    ensures LatestStateFromMaintainers([f, e], [e.pubkey]) == Some(s)
  {
    RepoStates.RoundTrip(s);
    RepoStates.RoundTrip(t);
    var keys := Elements([e.pubkey]);
    assert e.pubkey in keys;
    assert [e, f][..1] == [e] && [f, e][..1] == [f];
    assert NewestCandidate([e], keys) == Some(e) && NewestCandidate([f], keys) == Some(f);
  }

  // ---- growth

  lemma ListedGrows(a: Log, b: Log, identifier: string, key: string)
    requires IsAnnouncer(a, identifier, key)
    ensures IsAnnouncer(a + b, identifier, key) && Listed(a + b, identifier, key) == Listed(a, identifier, key)
  {
    FindConcat(a, b, key, identifier);
  }

  /** Appending events never removes a maintainer. */
  lemma AppendKeepsMaintainers(a: Log, b: Log, owner: string, identifier: string)
    ensures Closure(a, owner, identifier) <= Closure(a + b, owner, identifier)
  {
    forall key | key in Closure(a, owner, identifier) ensures key in Closure(a + b, owner, identifier) {
      ClosureMeaning(a, owner, identifier, key);
      ClosureMeaning(a + b, owner, identifier, key);
      var chain :| Connects(a, identifier, chain, owner, key);
      forall i | 0 <= i < |chain| ensures IsLink(a + b, identifier, chain, i) {
        assert IsLink(a, identifier, chain, i);
        ListedGrows(a, b, identifier, chain[i]);
        if i > 0 {
          assert IsLink(a, identifier, chain, i - 1);
          ListedGrows(a, b, identifier, chain[i - 1]);
        }
      }
      assert Connects(a + b, identifier, chain, owner, key);
    }
  }

  // ---- outsiders

  /** No outsider is the owner or is named by a member of the closure. */
  ghost predicate Outside(events: Log, owner: string, identifier: string, outsiders: set<string>) {
    && owner !in outsiders
    && (forall k, q :: k in Closure(events, owner, identifier) && q in Listed(events, identifier, k) ==>
                         q !in outsiders)
  }

  /** The two logs give every key but the outsiders the same announcement. */
  ghost predicate AgreeOn(events: Log, other: Log, identifier: string, outsiders: set<string>) {
    forall key :: key !in outsiders ==>
                    FindRepoAnnouncement(other, key, identifier) == FindRepoAnnouncement(events, key, identifier)
  }

  /** A chain of either log stays inside the first log's closure and off the outsiders. */
  lemma {:induction false} ChainAvoidsOutsiders(
    events: Log, other: Log, owner: string, identifier: string, outsiders: set<string>, chain: seq<string>)
    requires Outside(events, owner, identifier, outsiders) && AgreeOn(events, other, identifier, outsiders)
    requires chain != [] && chain[0] == owner
    requires IsChain(other, identifier, chain) || IsChain(events, identifier, chain)
    ensures IsChain(other, identifier, chain) && IsChain(events, identifier, chain)
    ensures chain[|chain| - 1] !in outsiders
  {
    var n := |chain| - 1;
    if n == 0 {
      assert IsLink(other, identifier, chain, 0) <==> IsLink(events, identifier, chain, 0);
    } else {
      var init, last := chain[..n], chain[n];
      ChainExtends(events, identifier, chain);
      ChainExtends(other, identifier, chain);
      ChainAvoidsOutsiders(events, other, owner, identifier, outsiders, init);
      var link := init[n - 1];
      assert Connects(events, identifier, init, owner, link);
      ClosureMeaning(events, owner, identifier, link);
      assert last in Listed(events, identifier, link);
    }
  }

  /** Logs that agree on every key but the outsiders' have the same closure. */
  lemma AgreeOutside(events: Log, other: Log, owner: string, identifier: string, outsiders: set<string>)
    requires Outside(events, owner, identifier, outsiders) && AgreeOn(events, other, identifier, outsiders)
    ensures Closure(other, owner, identifier) == Closure(events, owner, identifier)
    ensures Closure(events, owner, identifier) !! outsiders
  {
    forall key
      ensures key in Closure(other, owner, identifier) <==> key in Closure(events, owner, identifier)
      ensures key in Closure(events, owner, identifier) ==> key !in outsiders
    {
      ClosureMeaning(events, owner, identifier, key);
      ClosureMeaning(other, owner, identifier, key);
      forall chain | Connects(events, identifier, chain, owner, key) || Connects(other, identifier, chain, owner, key)
        ensures Connects(events, identifier, chain, owner, key) && Connects(other, identifier, chain, owner, key)
        ensures key !in outsiders
      {
        ChainAvoidsOutsiders(events, other, owner, identifier, outsiders, chain);
      }
    }
  }

  /** Replicas agree on the maintainers unless the owner or a key some maintainer
      names contradicts itself. */
  lemma MaintainersConverge(events: Log, log: Log, owner: string, identifier: string, contradicting: set<string>)
    requires SameEvents(log, events)
    requires forall key :: key !in contradicting ==> Unanimous(events, key, identifier)
    requires Outside(events, owner, identifier, contradicting)
    ensures Closure(log, owner, identifier) == Closure(events, owner, identifier)
  {
    forall key | key !in contradicting
      ensures FindRepoAnnouncement(log, key, identifier) == FindRepoAnnouncement(events, key, identifier)
    {
      UnanimousFind(events, log, key, identifier);
    }
    AgreeOutside(events, log, owner, identifier, contradicting);
  }

  lemma ListedIsMaintainer(events: Log, owner: string, identifier: string, key: string)
    requires IsAnnouncer(events, identifier, owner) && IsAnnouncer(events, identifier, key)
    requires key in Listed(events, identifier, owner)
    ensures key in Closure(events, owner, identifier)
  {
    ClosureMeaning(events, owner, identifier, key);
    assert Connects(events, identifier, [owner, key], owner, key);
  }

  lemma OwnerAlone(events: Log, owner: string, identifier: string)
    requires Listed(events, identifier, owner) == []
    ensures Closure(events, owner, identifier) <= {owner}
  {
    forall key | key in Closure(events, owner, identifier) ensures key == owner {
      ClosureMeaning(events, owner, identifier, key);
      var chain :| Connects(events, identifier, chain, owner, key);
      ChainStays(events, identifier, chain, {owner});
    }
  }

  /** When one announcement of the owner lists a key and another lists nobody, order matters. */
  lemma FirstAnnouncementDecides(
    e: NostrEvent, f: NostrEvent, g: NostrEvent, owner: string, key: string, identifier: string)
    requires owner != key
    requires Announces(e, owner, identifier).Some? && Announces(e, owner, identifier).value.maintainers == [key]
    requires Announces(f, owner, identifier).Some? && Announces(f, owner, identifier).value.maintainers == []
    requires Announces(g, key, identifier).Some?
    ensures key in Closure([e, f, g], owner, identifier) && key !in Closure([f, e, g], owner, identifier)
  {
    FindMeaning([e, f, g], key, identifier);
    assert [e, f, g][2] == g;
    ListedIsMaintainer([e, f, g], owner, identifier, key);
    OwnerAlone([f, e, g], owner, identifier);
  }

  lemma PrintedAnnounces(a: RepoAnnouncement, pubkey: string, createdAt: int)
    requires DuplicateFree(a)
    ensures var e := NostrEvent(KIND_REPO_ANNOUNCEMENT, pubkey, createdAt, Announcement.Print(a));
            Announces(e, pubkey, a.identifier) == Some(a)
  {
    Announcement.RoundTrip(a);
  }

  /** Such a log exists: an owner that lists "b" and then drops it. */
  lemma OrderCanMatter(lists: RepoAnnouncement, drops: RepoAnnouncement, e: NostrEvent, f: NostrEvent, g: NostrEvent)
    requires lists == RepoAnnouncement("repo", None, None, None, [], [], [], [], [], ["b"])
    requires drops == lists.(maintainers := [])
    requires e == NostrEvent(KIND_REPO_ANNOUNCEMENT, "a", 0, Announcement.Print(lists))
    requires f == e.(tags := Announcement.Print(drops)) && g == f.(pubkey := "b")
    ensures SameEvents([e, f, g], [f, e, g])
    ensures Closure([e, f, g], "a", "repo") != Closure([f, e, g], "a", "repo")
  {
    PrintedAnnounces(lists, "a", 0);
    PrintedAnnounces(drops, "a", 0);
    PrintedAnnounces(drops, "b", 0);
    FirstAnnouncementDecides(e, f, g, "a", "b", "repo");
  }

  /** The events of a set of authors. */
  function By(events: Log, keys: set<string>): (r: Log) {
    Where(events, (e: NostrEvent) => e.pubkey in keys)
  }

  /** The events of everybody else. */
  function Without(events: Log, keys: set<string>): (r: Log) {
    Where(events, (e: NostrEvent) => e.pubkey !in keys)
  }

  lemma {:induction false} UrlsWhere(events: Log, keep: NostrEvent -> bool, keys: set<string>, identifier: string)
    requires forall e: NostrEvent :: e.pubkey in keys ==> keep(e)
    ensures LogUrls(Where(events, keep), keys, identifier) == LogUrls(events, keys, identifier)
  {
    if events != [] {
      var n := |events| - 1;
      var init, e := events[..n], events[n];
      UrlsWhere(init, keep, keys, identifier);
      if keep(e) {
        LogUrlsStep(Where(events, keep), |Where(init, keep)|, keys, identifier);
        assert Where(events, keep)[..|Where(init, keep)|] == Where(init, keep);
      } else {
        assert EventUrls(e, keys, identifier) == [];
      }
    }
  }

  /** For a fixed set of keys, both queries see only those keys' events. */
  lemma QueriesSeeOnly(events: Log, keep: NostrEvent -> bool, keys: set<string>, identifier: string)
    requires forall e: NostrEvent :: e.pubkey in keys ==> keep(e)
    ensures NewestCandidate(Where(events, keep), keys) == NewestCandidate(events, keys)
    ensures LogUrls(Where(events, keep), keys, identifier) == LogUrls(events, keys, identifier)
  {
    NewestWhere(events, keep, keys);
    NewestIsMaximal(events, keys);
    UrlsWhere(events, keep, keys, identifier);
  }

  lemma OthersDoNotMatter(a: Log, b: Log, maintainers: seq<string>, identifier: string)
    requires By(a, Elements(maintainers)) == By(b, Elements(maintainers))
    ensures LatestStateFromMaintainers(a, maintainers) == LatestStateFromMaintainers(b, maintainers)
    ensures CloneUrls(a, maintainers, identifier) == CloneUrls(b, maintainers, identifier)
  {
    var keys := Elements(maintainers);
    var keep := (e: NostrEvent) => e.pubkey in keys;
    assert By(a, keys) == Where(a, keep) && By(b, keys) == Where(b, keep);
    QueriesSeeOnly(a, keep, keys, identifier);
    QueriesSeeOnly(b, keep, keys, identifier);
  }

  /** Logs that differ only in events by authors whom no maintainer names, wherever these
      stand in either log, answer every query alike. */
  lemma OutsidersCannotInterfere(a: Log, b: Log, owner: string, identifier: string, outsiders: set<string>)
    requires Outside(a, owner, identifier, outsiders) && Without(a, outsiders) == Without(b, outsiders)
    ensures Closure(b, owner, identifier) == Closure(a, owner, identifier)
    ensures var maintainers := Listing(Closure(a, owner, identifier));
            && LatestStateFromMaintainers(b, maintainers) == LatestStateFromMaintainers(a, maintainers)
            && CloneUrls(b, maintainers, identifier) == CloneUrls(a, maintainers, identifier)
  {
    var keep := (e: NostrEvent) => e.pubkey !in outsiders;
    assert Without(a, outsiders) == Where(a, keep) && Without(b, outsiders) == Where(b, keep);
    forall key | key !in outsiders
      ensures FindRepoAnnouncement(b, key, identifier) == FindRepoAnnouncement(a, key, identifier)
    {
      FindWhere(a, keep, key, identifier);
      FindWhere(b, keep, key, identifier);
    }
    AgreeOutside(a, b, owner, identifier, outsiders);
    var keys := Closure(a, owner, identifier);
    QueriesSeeOnly(a, keep, keys, identifier);
    QueriesSeeOnly(b, keep, keys, identifier);
  }
}
