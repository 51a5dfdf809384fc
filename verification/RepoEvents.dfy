/** Queries over the event log (crates/core/src/repo_events.rs). */
module RepoEvents {
  import opened Wrappers
  import opened Sorting
  import opened Tags
  import opened Reading
  import opened Announcement
  import RepoStates

  const KIND_REPO_ANNOUNCEMENT := 30617
  const KIND_REPO_STATE := 30618

  datatype NostrEvent = NostrEvent(kind: nat, pubkey: string, createdAt: int, tags: seq<Tag>)

  type Log = seq<NostrEvent>

  // ---- the announcement a key is known by

  /** The announcement for `identifier` that an event by `pubkey` makes, if any. */
  function Announces(e: NostrEvent, pubkey: string, identifier: string): (r: Option<RepoAnnouncement>)
    ensures r.Some? ==> e.pubkey == pubkey && r.value.identifier == identifier
  {
    if e.kind != KIND_REPO_ANNOUNCEMENT || e.pubkey != pubkey then None
    else
      match Announcement.Parse(e.tags)
      case Err(_) => None
      case Ok(a) => if a.identifier == identifier then Some(a) else None
  }

  /** `find_map`: the first match in log order, not the newest. */
  function FindRepoAnnouncement(events: Log, pubkey: string, identifier: string): (r: Option<RepoAnnouncement>)
    ensures r.Some? ==> r.value.identifier == identifier
  {
    if events == [] then None
    else
      match Announces(events[0], pubkey, identifier)
      case Some(a) => Some(a)
      case None => FindRepoAnnouncement(events[1..], pubkey, identifier)
  }

  lemma {:induction false} FindMeaning(events: Log, pubkey: string, identifier: string)
    ensures var r := FindRepoAnnouncement(events, pubkey, identifier);
            && (r.None? <==> forall i :: 0 <= i < |events| ==> Announces(events[i], pubkey, identifier).None?)
            && (r.Some? ==> exists i ::
                  && 0 <= i < |events| && Announces(events[i], pubkey, identifier) == r
                  && forall j :: 0 <= j < i ==> Announces(events[j], pubkey, identifier).None?)
  {
    if events != [] && Announces(events[0], pubkey, identifier).None? {
      FindMeaning(events[1..], pubkey, identifier);
      var r := FindRepoAnnouncement(events[1..], pubkey, identifier);
      if r.Some? {
        var i :| && 0 <= i < |events[1..]| && Announces(events[1..][i], pubkey, identifier) == r
                 && forall j :: 0 <= j < i ==> Announces(events[1..][j], pubkey, identifier).None?;
        assert Announces(events[i + 1], pubkey, identifier) == r;
        forall j | 0 <= j < i + 1 ensures Announces(events[j], pubkey, identifier).None? {
          assert j > 0 ==> events[j] == events[1..][j - 1];
        }
      } else {
        forall i | 0 <= i < |events| ensures Announces(events[i], pubkey, identifier).None? {
          assert i > 0 ==> events[i] == events[1..][i - 1];
        }
      }
    }
  }

  lemma {:induction false} FindConcat(a: Log, b: Log, pubkey: string, identifier: string)
    ensures FindRepoAnnouncement(a + b, pubkey, identifier) ==
            if FindRepoAnnouncement(a, pubkey, identifier).Some?
            then FindRepoAnnouncement(a, pubkey, identifier)
            else FindRepoAnnouncement(b, pubkey, identifier)
  {
    if a == [] {
      assert a + b == b;
    } else {
      FindConcat(a[1..], b, pubkey, identifier);
      assert (a + b)[1..] == a[1..] + b;
    }
  }

  // ---- by the raw tags

  /** The event announces the repository: its kind, its author and its last `d` value. */
  ghost predicate AnnouncesByTags(e: NostrEvent, pubkey: string, identifier: string) {
    e.kind == 30617 && e.pubkey == pubkey && LastOne(Some(identifier), e.tags, HeadOf("d"))
  }

  lemma AnnouncesMeaning(e: NostrEvent, pubkey: string, identifier: string)
    ensures Announces(e, pubkey, identifier).Some? <==> AnnouncesByTags(e, pubkey, identifier)
    ensures Announces(e, pubkey, identifier).Some? ==> Reads(e.tags, Announces(e, pubkey, identifier).value)
  {
    ReadsLast(e.tags, "d");
    if Announcement.Parse(e.tags).Ok? {
      ReadsParsed(e.tags);
    }
    if LastOne(Some(identifier), e.tags, HeadOf("d")) {
      LastOneUnique(Some(identifier), LastValue(e.tags, "d"), e.tags, HeadOf("d"));
    }
  }

  /** Event `i` is the one a key is known by: the first that announces the repository. */
  ghost predicate KnownBy(events: Log, pubkey: string, identifier: string, i: nat) {
    && i < |events| && AnnouncesByTags(events[i], pubkey, identifier)
    && (forall j :: 0 <= j < i ==> !AnnouncesByTags(events[j], pubkey, identifier))
  }

  lemma {:induction false} KnownIsFound(events: Log, pubkey: string, identifier: string, i: nat)
    requires KnownBy(events, pubkey, identifier, i)
    ensures FindRepoAnnouncement(events, pubkey, identifier) == Announces(events[i], pubkey, identifier)
    ensures Announces(events[i], pubkey, identifier).Some?
  {
    AnnouncesMeaning(events[0], pubkey, identifier);
    if i > 0 {
      KnownInTail(events, pubkey, identifier, i);
      KnownIsFound(events[1..], pubkey, identifier, i - 1);
    }
  }

  lemma KnownInTail(events: Log, pubkey: string, identifier: string, i: nat)
    requires i > 0 && KnownBy(events, pubkey, identifier, i)
    ensures !AnnouncesByTags(events[0], pubkey, identifier) && KnownBy(events[1..], pubkey, identifier, i - 1)
  {
    forall j | 0 <= j < i - 1 ensures !AnnouncesByTags(events[1..][j], pubkey, identifier) {
      assert events[1..][j] == events[j + 1];
    }
  }

  lemma {:induction false} FoundIsKnown(events: Log, pubkey: string, identifier: string) returns (i: nat)
    requires FindRepoAnnouncement(events, pubkey, identifier).Some?
    ensures KnownBy(events, pubkey, identifier, i)
  {
    AnnouncesMeaning(events[0], pubkey, identifier);
    if AnnouncesByTags(events[0], pubkey, identifier) {
      i := 0;
    } else {
      i := FoundIsKnown(events[1..], pubkey, identifier);
      i := i + 1;
      KnownTail(events, pubkey, identifier, i);
    }
  }

  lemma KnownTail(events: Log, pubkey: string, identifier: string, i: nat)
    requires events != [] && !AnnouncesByTags(events[0], pubkey, identifier)
    requires i > 0 && KnownBy(events[1..], pubkey, identifier, i - 1)
    ensures KnownBy(events, pubkey, identifier, i)
  {
    forall j | 0 <= j < i ensures !AnnouncesByTags(events[j], pubkey, identifier) {
      assert j > 0 ==> events[j] == events[1..][j - 1];
    }
  }

  // ---- part of a log

  /** The events that pass a test, in order. */
  function Where(events: Log, keep: NostrEvent -> bool): (r: Log) {
    if events == [] then []
    else
      var rest, e := Where(events[..|events| - 1], keep), events[|events| - 1];
      if keep(e) then rest + [e] else rest
  }

  lemma {:induction false} WhereMember(events: Log, keep: NostrEvent -> bool, e: NostrEvent)
    ensures e in Where(events, keep) <==> e in events && keep(e)
  {
    if events != [] {
      var n := |events| - 1;
      WhereMember(events[..n], keep, e);
      assert events == events[..n] + [events[n]];
    }
  }

  /** Dropping events that announce nothing for the key leaves its announcement alone. */
  lemma {:induction false} FindWhere(events: Log, keep: NostrEvent -> bool, pubkey: string, identifier: string)
    requires forall e :: e in events && Announces(e, pubkey, identifier).Some? ==> keep(e)
    ensures FindRepoAnnouncement(Where(events, keep), pubkey, identifier) ==
            FindRepoAnnouncement(events, pubkey, identifier)
  {
    if events != [] {
      var n := |events| - 1;
      var init, last := events[..n], [events[n]];
      assert events == init + last;
      FindWhere(init, keep, pubkey, identifier);
      FindConcat(init, last, pubkey, identifier);
      FindConcat(Where(init, keep), last, pubkey, identifier);
    }
  }

  // ---- the newest state event of a set of keys

  predicate IsCandidate(e: NostrEvent, keys: set<string>) {
    e.kind == KIND_REPO_STATE && e.pubkey in keys
  }

  lemma CandidateMeaning(e: NostrEvent, keys: set<string>)
    ensures IsCandidate(e, keys) <==> e.kind == 30618 && e.pubkey in keys
  {
  }

  /** `filter(..).max_by_key(created_at)`: the newest candidate, the last one on ties. */
  function NewestCandidate(events: Log, keys: set<string>): (r: Option<NostrEvent>) {
    if events == [] then None
    else
      var rest, e := NewestCandidate(events[..|events| - 1], keys), events[|events| - 1];
      if !IsCandidate(e, keys) then rest
      else if rest.Some? && rest.value.createdAt > e.createdAt then rest
      else Some(e)
  }

  /** The state an event holds, if it parses. */
  function StateOf(e: NostrEvent): (r: Option<RepoStates.RepoState>) {
    match RepoStates.Parse(e.tags)
    case Err(_) => None
    case Ok(s) => Some(s)
  }

  function LatestStateFromMaintainers(events: Log, maintainers: seq<string>): (r: Option<RepoStates.RepoState>) {
    if maintainers == [] then None
    else
      match NewestCandidate(events, Elements(maintainers))
      case None => None
      case Some(e) => StateOf(e)
  }

  /** Event `i` is the newest candidate, and the last of the newest ones. */
  ghost predicate IsNewest(events: Log, keys: set<string>, i: nat) {
    && i < |events| && IsCandidate(events[i], keys)
    && (forall j :: 0 <= j < |events| && IsCandidate(events[j], keys) ==>
          events[j].createdAt <= events[i].createdAt && (j > i ==> events[j].createdAt < events[i].createdAt))
  }

  lemma {:induction false} NewestMeaning(events: Log, keys: set<string>)
    ensures var r := NewestCandidate(events, keys);
            && (r.None? <==> forall i :: 0 <= i < |events| ==> !IsCandidate(events[i], keys))
            && (r.Some? ==> exists i: nat :: IsNewest(events, keys, i) && events[i] == r.value)
  {
    if events != [] {
      var n := |events| - 1;
      var init := events[..n];
      NewestMeaning(init, keys);
      var rest := NewestCandidate(init, keys);
      if rest.Some? {
        var i: nat :| IsNewest(init, keys, i) && init[i] == rest.value;
        NewestPush(events, keys, i);
      } else if IsCandidate(events[n], keys) {
        assert IsNewest(events, keys, n);
      }
    }
  }

  lemma NewestPush(events: Log, keys: set<string>, i: nat)
    requires events != [] && IsNewest(events[..|events| - 1], keys, i)
    ensures var n := |events| - 1;
            if IsCandidate(events[n], keys) && events[n].createdAt >= events[i].createdAt
            then IsNewest(events, keys, n)
            else IsNewest(events, keys, i)
  {
    var n := |events| - 1;
    forall j | 0 <= j < n && IsCandidate(events[j], keys)
      ensures events[j].createdAt <= events[i].createdAt && (j > i ==> events[j].createdAt < events[i].createdAt)
    {
      assert events[..n][j] == events[j];
    }
  }

  /** Dropping events keeps the newest candidate if it passes, and never yields a newer one. */
  lemma {:induction false} NewestWhere(events: Log, keep: NostrEvent -> bool, keys: set<string>)
    ensures var newest, kept := NewestCandidate(events, keys), NewestCandidate(Where(events, keep), keys);
            && (kept.Some? ==> newest.Some? && kept.value.createdAt <= newest.value.createdAt)
            && (newest.Some? && keep(newest.value) ==> kept == newest)
  {
    if events != [] {
      var n := |events| - 1;
      var init, e := events[..n], events[n];
      NewestWhere(init, keep, keys);
      if keep(e) {
        assert Where(events, keep)[..|Where(init, keep)|] == Where(init, keep);
      }
    }
  }

  // ---- clone URLs

  function TrimEndSlashes(s: string): (r: string) {
    if s != "" && s[|s| - 1] == '/' then TrimEndSlashes(s[..|s| - 1]) else s
  }

  /** The non-empty trimmed URLs of a list. */
  function TrimmedUrls(urls: seq<string>): (r: seq<string>) {
    if urls == [] then []
    else
      var rest, trimmed := TrimmedUrls(urls[..|urls| - 1]), TrimEndSlashes(urls[|urls| - 1]);
      if trimmed == "" then rest else rest + [trimmed]
  }

  /** The URLs one event contributes. */
  function EventUrls(e: NostrEvent, keys: set<string>, identifier: string): (r: seq<string>) {
    if e.pubkey !in keys then []
    else
      match Announces(e, e.pubkey, identifier)
      case None => []
      case Some(a) => TrimmedUrls(a.clone)
  }

  function LogUrls(events: Log, keys: set<string>, identifier: string): (r: seq<string>) {
    if events == [] then []
    else LogUrls(events[..|events| - 1], keys, identifier) + EventUrls(events[|events| - 1], keys, identifier)
  }

  function CloneUrls(events: Log, maintainers: seq<string>, identifier: string): (r: seq<string>) {
    Dedup(LogUrls(events, Elements(maintainers), identifier))
  }

  lemma TrimmedStep(seen: seq<string>, urls: seq<string>, i: nat)
    requires i < |urls|
    ensures var before, trimmed := seen + TrimmedUrls(urls[..i]), TrimEndSlashes(urls[i]);
            seen + TrimmedUrls(urls[..i + 1]) == if trimmed == "" then before else before + [trimmed]
  {
    assert urls[..i + 1][..i] == urls[..i];
  }

  method PushTrimmed(clones: seq<string>, urls: seq<string>, ghost seen: seq<string>) returns (r: seq<string>)
    requires clones == Dedup(seen)
    ensures r == Dedup(seen + TrimmedUrls(urls))
  {
    r := clones;
    assert seen + TrimmedUrls(urls[..0]) == seen;
    for i := 0 to |urls|
      invariant r == Dedup(seen + TrimmedUrls(urls[..i]))
    {
      var trimmed := TrimEndSlashes(urls[i]);
      TrimmedStep(seen, urls, i);
      if trimmed == "" {
        continue;
      }
      DedupPush(seen + TrimmedUrls(urls[..i]), trimmed);
      r := PushUnique(r, trimmed);
    }
    assert urls[..|urls|] == urls;
  }

  lemma LogUrlsStep(events: Log, i: nat, keys: set<string>, identifier: string)
    requires i < |events|
    ensures var seen, urls := LogUrls(events[..i], keys, identifier), EventUrls(events[i], keys, identifier);
            LogUrls(events[..i + 1], keys, identifier) == seen + urls && (urls == [] ==> seen + urls == seen)
  {
    assert events[..i + 1][..i] == events[..i];
  }

  /** The guards of the loop: the clone list of an event that passes them all. */
  method ListedClones(event: NostrEvent, keys: set<string>, identifier: string) returns (r: Option<seq<string>>)
    ensures EventUrls(event, keys, identifier) == if r.Some? then TrimmedUrls(r.value) else []
  {
    r := None;
    if event.kind != KIND_REPO_ANNOUNCEMENT {
      return;
    }
    if event.pubkey !in keys {
      return;
    }
    var parsed := Announcement.FromTags(event.tags);
    if parsed.Err? {
      return;
    }
    if parsed.value.identifier != identifier {
      return;
    }
    r := Some(parsed.value.clone);
  }

  method CollectCloneUrls(events: Log, maintainers: seq<string>, identifier: string) returns (clones: seq<string>)
    ensures clones == CloneUrls(events, maintainers, identifier)
  {
    clones := [];
    var keys := Elements(maintainers);
    if maintainers == [] {
      assert keys == {};
      NoKeysNoUrls(events, identifier);
      return;
    }
    for i := 0 to |events|
      invariant clones == Dedup(LogUrls(events[..i], keys, identifier))
    {
      var event := events[i];
      ghost var seen := LogUrls(events[..i], keys, identifier);
      LogUrlsStep(events, i, keys, identifier);
      var listed := ListedClones(event, keys, identifier);
      if listed.None? {
        continue;
      }
      clones := PushTrimmed(clones, listed.value, seen);
    }
    assert events[..|events|] == events;
  }

  lemma {:induction false} NoKeysNoUrls(events: Log, identifier: string)
    ensures LogUrls(events, {}, identifier) == []
  {
    if events != [] {
      NoKeysNoUrls(events[..|events| - 1], identifier);
    }
  }

  /** The event announces the repository by one of the keys and lists the URL, up to trailing slashes. */
  ghost predicate Offers(e: NostrEvent, keys: set<string>, identifier: string, url: string) {
    && url != "" && e.pubkey in keys && Announces(e, e.pubkey, identifier).Some?
    && exists c :: c in Announces(e, e.pubkey, identifier).value.clone && TrimEndSlashes(c) == url
  }

  ghost predicate Offered(events: Log, keys: set<string>, identifier: string, url: string) {
    exists e :: e in events && Offers(e, keys, identifier, url)
  }

  lemma {:induction false} TrimmedMember(urls: seq<string>, url: string)
    ensures url in TrimmedUrls(urls) <==> url != "" && exists c :: c in urls && TrimEndSlashes(c) == url
  {
    if urls != [] {
      var init, last := urls[..|urls| - 1], urls[|urls| - 1];
      TrimmedMember(init, url);
      assert urls == init + [last];
      assert TrimEndSlashes(last) == url ==> last in urls;
      assert forall c :: c in init ==> c in urls;
    }
  }

  lemma EventUrlsMember(e: NostrEvent, keys: set<string>, identifier: string, url: string)
    ensures url in EventUrls(e, keys, identifier) <==> Offers(e, keys, identifier, url)
  {
    if e.pubkey in keys && Announces(e, e.pubkey, identifier).Some? {
      TrimmedMember(Announces(e, e.pubkey, identifier).value.clone, url);
    }
  }

  lemma OfferedPush(events: Log, e: NostrEvent, keys: set<string>, identifier: string, url: string)
    ensures Offered(events + [e], keys, identifier, url) <==>
            Offered(events, keys, identifier, url) || Offers(e, keys, identifier, url)
  {
    if Offers(e, keys, identifier, url) {
      assert e in events + [e];
    }
    if f :| f in events && Offers(f, keys, identifier, url) {
      assert f in events + [e];
    }
  }

  lemma {:induction false} LogUrlsMember(events: Log, keys: set<string>, identifier: string, url: string)
    ensures url in LogUrls(events, keys, identifier) <==> Offered(events, keys, identifier, url)
  {
    if events != [] {
      var n := |events| - 1;
      var init, e := events[..n], events[n];
      assert events == init + [e];
      LogUrlsMember(init, keys, identifier, url);
      EventUrlsMember(e, keys, identifier, url);
      OfferedPush(init, e, keys, identifier, url);
      assert LogUrls(events, keys, identifier) == LogUrls(init, keys, identifier) + EventUrls(e, keys, identifier);
    }
  }

  /** The clone URLs are exactly those the maintainers' announcements offer, each once. */
  lemma CloneUrlsMeaning(events: Log, maintainers: seq<string>, identifier: string)
    ensures NoDuplicates(CloneUrls(events, maintainers, identifier))
    ensures forall url :: url in CloneUrls(events, maintainers, identifier) <==>
                            Offered(events, Elements(maintainers), identifier, url)
  {
    DedupElements(LogUrls(events, Elements(maintainers), identifier));
    forall url {
      LogUrlsMember(events, Elements(maintainers), identifier, url);
    }
  }

  /** By the raw tags: which URLs an event offers. */
  lemma OffersMeaning(e: NostrEvent, keys: set<string>, identifier: string, url: string)
    ensures Offers(e, keys, identifier, url) <==>
            && url != "" && e.pubkey in keys && AnnouncesByTags(e, e.pubkey, identifier)
            && exists c :: Given(e.tags, SlotsOf("clone"), c) && TrimEndSlashes(c) == url
  {
    AnnouncesMeaning(e, e.pubkey, identifier);
    if Announces(e, e.pubkey, identifier).Some? {
      var a := Announces(e, e.pubkey, identifier).value;
      assert FirstOccurrences(a.clone, e.tags, SlotsOf("clone"));
      assert forall c :: c in a.clone <==> Given(e.tags, SlotsOf("clone"), c);
    }
  }

  /** A URL without its trailing slashes, unless nothing is left. */
  function TrimmedOf(): (r: string -> seq<string>) {
    (url: string) => if TrimEndSlashes(url) == "" then [] else [TrimEndSlashes(url)]
  }

  /** What an event offers: the trimmed URLs of its announcement for the identifier, when one
      of the keys wrote it. */
  function UrlsOf(keys: set<string>, identifier: string): (r: NostrEvent -> seq<string>) {
    (e: NostrEvent) => EventUrls(e, keys, identifier)
  }

  lemma {:induction false} TrimmedGathered(urls: seq<string>)
    ensures TrimmedUrls(urls) == Gathered(urls, TrimmedOf())
  {
    if urls != [] {
      TrimmedGathered(urls[..|urls| - 1]);
    }
  }

  /** By the raw tags: an event offers URLs only if one of the keys announces the repository
      in it, and then those of its `clone` tags, trimmed, in order of first occurrence. */
  lemma EventUrlsMeaning(e: NostrEvent, keys: set<string>, identifier: string)
    ensures !(e.pubkey in keys && AnnouncesByTags(e, e.pubkey, identifier)) ==> UrlsOf(keys, identifier)(e) == []
    ensures e.pubkey in keys && AnnouncesByTags(e, e.pubkey, identifier) ==>
              exists clone :: && FirstOccurrences(clone, e.tags, SlotsOf("clone"))
                              && UrlsOf(keys, identifier)(e) == Gathered(clone, TrimmedOf())
  {
    AnnouncesMeaning(e, e.pubkey, identifier);
    if e.pubkey in keys && Announces(e, e.pubkey, identifier).Some? {
      TrimmedGathered(Announces(e, e.pubkey, identifier).value.clone);
    }
  }

  lemma {:induction false} LogGathered(events: Log, keys: set<string>, identifier: string)
    ensures LogUrls(events, keys, identifier) == Gathered(events, UrlsOf(keys, identifier))
  {
    if events != [] {
      LogGathered(events[..|events| - 1], keys, identifier);
    }
  }

  /** The collected URLs are the first occurrences of what the events offer, in log order. */
  lemma CloneUrlsOrder(events: Log, maintainers: seq<string>, identifier: string)
    ensures FirstOccurrences(
              CloneUrls(events, maintainers, identifier), events, UrlsOf(Elements(maintainers), identifier))
  {
    LogGathered(events, Elements(maintainers), identifier);
    DedupReads(events, UrlsOf(Elements(maintainers), identifier));
  }

  lemma {:induction false} TrimEndSlashesMeaning(s: string)
    ensures var r := TrimEndSlashes(s);
            && r <= s && (r == "" || r[|r| - 1] != '/')
            && forall i :: |r| <= i < |s| ==> s[i] == '/'
  {
    if s != "" && s[|s| - 1] == '/' {
      TrimEndSlashesMeaning(s[..|s| - 1]);
    }
  }
}
