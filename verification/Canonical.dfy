/** Canonicalising the log: replacing the tags of every parseable announcement and
    state event by its parsed and reprinted tags preserves every query. */
module Canonical {
  import opened Wrappers
  import opened Sorting
  import opened Tags
  import opened RepoEvents
  import opened Maintainers
  import opened Replicas
  import opened EventRefs
  import Announcement
  import RepoStates
  import Admission
  import Authority
  import GitReceive

  ghost function CanonTags(kind: nat, tags: seq<Tag>): (r: seq<Tag>) {
    if kind == KIND_REPO_ANNOUNCEMENT && Announcement.Parse(tags).Ok? then
      Announcement.Print(Announcement.Parse(tags).value)
    else if kind == KIND_REPO_STATE && RepoStates.Parse(tags).Ok? then
      RepoStates.Print(RepoStates.Parse(tags).value)
    else tags
  }

  ghost function CanonEvent(e: NostrEvent): (r: NostrEvent) {
    e.(tags := CanonTags(e.kind, e.tags))
  }

  ghost function CanonLog(events: Log): (r: Log)
    ensures |r| == |events|
    ensures forall i :: 0 <= i < |r| ==> r[i] == CanonEvent(events[i])
  {
    seq(|events|, i requires 0 <= i < |events| => CanonEvent(events[i]))
  }

  lemma CanonParses(e: NostrEvent)
    ensures e.kind == KIND_REPO_ANNOUNCEMENT ==> Announcement.Parse(CanonEvent(e).tags) == Announcement.Parse(e.tags)
    ensures e.kind == KIND_REPO_STATE ==> StateOf(CanonEvent(e)) == StateOf(e)
  {
    if e.kind == KIND_REPO_ANNOUNCEMENT && Announcement.Parse(e.tags).Ok? {
      Announcement.FixedPoint(e.tags);
    } else if e.kind == KIND_REPO_STATE && RepoStates.Parse(e.tags).Ok? {
      RepoStates.FixedPoint(e.tags);
    }
  }

  lemma CanonAnnounces(e: NostrEvent, pubkey: string, identifier: string)
    ensures Announces(CanonEvent(e), pubkey, identifier) == Announces(e, pubkey, identifier)
  {
    CanonParses(e);
  }

  lemma {:induction false} CanonFind(events: Log, pubkey: string, identifier: string)
    ensures FindRepoAnnouncement(CanonLog(events), pubkey, identifier) ==
            FindRepoAnnouncement(events, pubkey, identifier)
  {
    if events != [] {
      CanonFind(events[1..], pubkey, identifier);
      CanonAnnounces(events[0], pubkey, identifier);
      assert CanonLog(events)[1..] == CanonLog(events[1..]);
    }
  }

  lemma CanonClosure(events: Log, owner: string, identifier: string)
    ensures Closure(CanonLog(events), owner, identifier) == Closure(events, owner, identifier)
  {
    forall key {
      CanonFind(events, key, identifier);
    }
    AgreeOutside(events, CanonLog(events), owner, identifier, {});
  }

  lemma {:induction false} CanonNewest(events: Log, keys: set<string>)
    ensures var r, s := NewestCandidate(events, keys), NewestCandidate(CanonLog(events), keys);
            if r.None? then s.None? else s == Some(CanonEvent(r.value))
    ensures NewestCandidate(events, keys).Some? ==> NewestCandidate(events, keys).value.kind == KIND_REPO_STATE
  {
    if events != [] {
      var n := |events| - 1;
      CanonNewest(events[..n], keys);
      assert CanonLog(events)[..n] == CanonLog(events[..n]);
    }
  }

  lemma CanonLatest(events: Log, maintainers: seq<string>)
    ensures LatestStateFromMaintainers(CanonLog(events), maintainers) == LatestStateFromMaintainers(events, maintainers)
  {
    CanonNewest(events, Elements(maintainers));
    var r := NewestCandidate(events, Elements(maintainers));
    if r.Some? && maintainers != [] {
      CanonParses(r.value);
    }
  }

  lemma {:induction false} CanonUrls(events: Log, keys: set<string>, identifier: string)
    ensures LogUrls(CanonLog(events), keys, identifier) == LogUrls(events, keys, identifier)
  {
    if events != [] {
      var n := |events| - 1;
      CanonUrls(events[..n], keys, identifier);
      CanonAnnounces(events[n], events[n].pubkey, identifier);
      assert CanonLog(events)[..n] == CanonLog(events[..n]);
    }
  }

  lemma CanonAdmission(
    e: NostrEvent, eventId: string, relayHost: Option<string>, normalise: Admission.Normaliser)
    ensures Admission.EvaluateAdmission(e.kind, e.pubkey, eventId, CanonEvent(e).tags, relayHost, normalise) ==
            Admission.EvaluateAdmission(e.kind, e.pubkey, eventId, e.tags, relayHost, normalise)
  {
    CanonParses(e);
  }

  /** Canonicalising the log changes no result of the maintainer, state and clone
      queries, and no push decision. */
  lemma CanonPreserves(
    events: Log, owner: string, identifier: string, maintainers: seq<string>, updates: seq<GitReceive.RefUpdate>)
    ensures Listing(Closure(CanonLog(events), owner, identifier)) == Listing(Closure(events, owner, identifier))
    ensures LatestStateFromMaintainers(CanonLog(events), maintainers) == LatestStateFromMaintainers(events, maintainers)
    ensures CloneUrls(CanonLog(events), maintainers, identifier) == CloneUrls(events, maintainers, identifier)
    ensures Authority.EvaluatePush(CanonLog(events), owner, identifier, updates) ==
            Authority.EvaluatePush(events, owner, identifier, updates)
  {
    CanonClosure(events, owner, identifier);
    CanonLatest(events, maintainers);
    CanonLatest(events, Listing(Closure(events, owner, identifier)));
    CanonUrls(events, Elements(maintainers), identifier);
  }

  /** What canonicalising does: announcements and states that parse get their printed tags, and
      every other event stays as it is. */
  lemma CanonMeaning(e: NostrEvent)
    ensures e.kind == 30617 && Announcement.Parse(e.tags).Ok? ==>
              CanonEvent(e) == e.(tags := Announcement.Print(Announcement.Parse(e.tags).value))
    ensures e.kind == 30618 && RepoStates.Parse(e.tags).Ok? ==>
              CanonEvent(e) == e.(tags := RepoStates.Print(RepoStates.Parse(e.tags).value))
    ensures e.kind !in {30617, 30618} ==> CanonEvent(e) == e
    ensures e.kind == 30617 && Announcement.Parse(e.tags).Err? ==> CanonEvent(e) == e
    ensures e.kind == 30618 && RepoStates.Parse(e.tags).Err? ==> CanonEvent(e) == e
  {
  }

  /** The canonical form tells apart exactly what parsing tells apart. */
  lemma CanonComplete(e: NostrEvent, f: NostrEvent)
    requires e.(tags := []) == f.(tags := [])
    requires || (e.kind == 30617 && Announcement.Parse(e.tags).Ok? && Announcement.Parse(f.tags).Ok?)
             || (e.kind == 30618 && RepoStates.Parse(e.tags).Ok? && RepoStates.Parse(f.tags).Ok?)
    ensures CanonEvent(e) == CanonEvent(f) <==>
            if e.kind == 30617 then Announcement.Parse(e.tags) == Announcement.Parse(f.tags)
            else RepoStates.Parse(e.tags) == RepoStates.Parse(f.tags)
  {
    if e.kind == 30617 {
      Announcement.FixedPoint(e.tags);
      Announcement.FixedPoint(f.tags);
    } else {
      RepoStates.FixedPoint(e.tags);
      RepoStates.FixedPoint(f.tags);
    }
  }

  lemma CanonIdempotent(e: NostrEvent)
    ensures CanonEvent(CanonEvent(e)) == CanonEvent(e)
  {
    if e.kind == KIND_REPO_ANNOUNCEMENT && Announcement.Parse(e.tags).Ok? {
      Announcement.FixedPoint(e.tags);
    } else if e.kind == KIND_REPO_STATE && RepoStates.Parse(e.tags).Ok? {
      RepoStates.FixedPoint(e.tags);
    }
  }

  /** What canonicalising may change is the event's own pointer: it comes from the first
      `d` tag, and afterwards always names the parsed identifier. It is unchanged exactly
      when there is no `d` value or the first and the last agree. */
  lemma CanonPointer(e: NostrEvent)
    requires e.kind == KIND_REPO_ANNOUNCEMENT || e.kind == KIND_REPO_STATE
    ensures FindDTag(CanonEvent(e).tags) == LastValue(e.tags, "d")
    ensures var ds := Heads(Named(e.tags, "d"));
            FindDTag(CanonEvent(e).tags) == FindDTag(e.tags) <==> ds == [] || ds[0] == ds[|ds| - 1]
  {
    FindDTagIsFirst(e.tags);
    if LastValue(e.tags, "d").Some? {
      if e.kind == KIND_REPO_ANNOUNCEMENT {
        PrintedPointer(Announcement.Parse(e.tags).value);
      } else {
        assert CanonEvent(e).tags[0] == ["d", RepoStates.Parse(e.tags).value.identifier];
      }
    }
  }

  /** An announcement whose own pointer changes. */
  lemma PointerMoves(e: NostrEvent)
    requires e.kind == KIND_REPO_ANNOUNCEMENT && e.tags == [["d", "x"], ["d", "y"]]
    ensures FindDTag(e.tags) == Some("x") && FindDTag(CanonEvent(e).tags) == Some("y")
  {
    var first, second := ["d", "x"], ["d", "y"];
    assert e.tags == [] + [first] + [second];
    NamedPush([], first, "d");
    NamedPush([] + [first], second, "d");
    HeadsPush([], first);
    HeadsPush([] + [first], second);
    CanonPointer(e);
  }

  lemma PrintedPointer(a: Announcement.RepoAnnouncement)
    ensures FindDTag(Announcement.Print(a)) == Some(a.identifier)
  {
    Announcement.PrintedBlocks(a);
    NamedBlock(Announcement.NAMES, Announcement.Parts(a), 0, |Announcement.NAMES|);
    HeadsPush([], ["d", a.identifier]);
    assert [] + [["d", a.identifier]] == Maybe("d", Some(a.identifier));
    FindDTagIsFirst(Announcement.Print(a));
  }
}
