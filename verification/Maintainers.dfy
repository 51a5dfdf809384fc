/** The maintainer trust closure (crates/core/src/repo_events.rs:47-73). */
module Maintainers {
  import opened Sorting
  import opened Reading
  import opened RepoEvents

  predicate IsAnnouncer(events: Log, identifier: string, key: string) {
    FindRepoAnnouncement(events, key, identifier).Some?
  }

  /** The keys that a key's first matching announcement lists. */
  function Listed(events: Log, identifier: string, key: string): (r: seq<string>) {
    match FindRepoAnnouncement(events, key, identifier)
    case None => []
    case Some(a) => a.maintainers
  }

  /** Key `i` announces the repository and, unless it is the first, is listed by the one before. */
  ghost predicate IsLink(events: Log, identifier: string, chain: seq<string>, i: nat)
    requires i < |chain|
  {
    IsAnnouncer(events, identifier, chain[i]) && (i > 0 ==> chain[i] in Listed(events, identifier, chain[i - 1]))
  }

  /** A chain of trust. */
  ghost predicate IsChain(events: Log, identifier: string, chain: seq<string>) {
    forall i :: 0 <= i < |chain| ==> IsLink(events, identifier, chain, i)
  }

  lemma ChainExtends(events: Log, identifier: string, chain: seq<string>)
    requires |chain| > 1
    ensures var n := |chain| - 1;
            IsChain(events, identifier, chain) <==>
            && IsChain(events, identifier, chain[..n])
            && IsAnnouncer(events, identifier, chain[n])
            && chain[n] in Listed(events, identifier, chain[n - 1])
  {
    var n := |chain| - 1;
    forall i | 0 <= i < n
      ensures IsLink(events, identifier, chain, i) <==> IsLink(events, identifier, chain[..n], i)
    {
      assert i > 0 ==> chain[..n][i - 1] == chain[i - 1];
    }
    assert IsLink(events, identifier, chain, n) <==>
           IsAnnouncer(events, identifier, chain[n]) && chain[n] in Listed(events, identifier, chain[n - 1]);
  }

  lemma ChainEnds(events: Log, identifier: string, chain: seq<string>)
    requires chain != [] && IsChain(events, identifier, chain)
    ensures IsAnnouncer(events, identifier, chain[0]) && IsAnnouncer(events, identifier, chain[|chain| - 1])
  {
    assert IsLink(events, identifier, chain, 0) && IsLink(events, identifier, chain, |chain| - 1);
  }

  ghost predicate Connects(events: Log, identifier: string, chain: seq<string>, from: string, to: string) {
    chain != [] && chain[0] == from && chain[|chain| - 1] == to && IsChain(events, identifier, chain)
  }

  ghost predicate Trusted(events: Log, owner: string, identifier: string, key: string) {
    exists chain :: Connects(events, identifier, chain, owner, key)
  }

  /** The authors of announcements for the identifier. */
  function Announcers(events: Log, identifier: string): (r: set<string>) {
    set e | e in events && Announces(e, e.pubkey, identifier).Some? :: e.pubkey
  }

  lemma AnnouncerIsAuthor(events: Log, identifier: string, key: string)
    ensures IsAnnouncer(events, identifier, key) <==> key in Announcers(events, identifier)
  {
    FindMeaning(events, key, identifier);
  }

  ghost function Closure(events: Log, owner: string, identifier: string): (r: set<string>) {
    set key | key in Announcers(events, identifier) && Trusted(events, owner, identifier, key)
  }

  lemma ClosureMeaning(events: Log, owner: string, identifier: string, key: string)
    ensures key in Closure(events, owner, identifier) <==> Trusted(events, owner, identifier, key)
  {
    AnnouncerIsAuthor(events, identifier, key);
    if Trusted(events, owner, identifier, key) {
      var chain :| Connects(events, identifier, chain, owner, key);
      ChainEnds(events, identifier, chain);
    }
  }

  // ---- by the raw tags

  /** Some event makes the key known for the repository. */
  ghost predicate IsKnown(events: Log, identifier: string, key: string) {
    exists i: nat :: KnownBy(events, key, identifier, i)
  }

  /** The event that makes the key known carries the next key in a `maintainers` tag. */
  ghost predicate NamesNext(events: Log, identifier: string, key: string, next: string) {
    exists i: nat :: KnownBy(events, key, identifier, i) && Given(events[i].tags, SlotsOf("maintainers"), next)
  }

  lemma ListedMeaning(events: Log, identifier: string, key: string, next: string)
    ensures IsAnnouncer(events, identifier, key) <==> IsKnown(events, identifier, key)
    ensures next in Listed(events, identifier, key) <==> NamesNext(events, identifier, key, next)
  {
    if IsAnnouncer(events, identifier, key) {
      var i := FoundIsKnown(events, key, identifier);
    }
    forall i: nat | KnownBy(events, key, identifier, i)
      ensures IsAnnouncer(events, identifier, key)
      ensures next in Listed(events, identifier, key) <==> Given(events[i].tags, SlotsOf("maintainers"), next)
    {
      KnownIsFound(events, key, identifier, i);
      AnnouncesMeaning(events[i], key, identifier);
    }
  }

  /** A chain of trust in terms of the raw tags. */
  ghost predicate IsTagChain(events: Log, identifier: string, chain: seq<string>) {
    && (forall i :: 0 <= i < |chain| ==> IsKnown(events, identifier, chain[i]))
    && (forall i, j :: 0 <= i < j < |chain| && j == i + 1 ==> NamesNext(events, identifier, chain[i], chain[j]))
  }

  lemma ChainMeaning(events: Log, identifier: string, chain: seq<string>)
    ensures IsChain(events, identifier, chain) <==> IsTagChain(events, identifier, chain)
  {
    if IsChain(events, identifier, chain) {
      forall i | 0 <= i < |chain| ensures IsKnown(events, identifier, chain[i]) {
        assert IsLink(events, identifier, chain, i);
        ListedMeaning(events, identifier, chain[i], "");
      }
      forall i, j | 0 <= i < j < |chain| && j == i + 1 ensures NamesNext(events, identifier, chain[i], chain[j]) {
        assert IsLink(events, identifier, chain, j);
        ListedMeaning(events, identifier, chain[i], chain[j]);
      }
    }
    if IsTagChain(events, identifier, chain) {
      forall i | 0 <= i < |chain| ensures IsLink(events, identifier, chain, i) {
        ListedMeaning(events, identifier, chain[i], "");
        if i > 0 {
          ListedMeaning(events, identifier, chain[i - 1], chain[i]);
        }
      }
    }
  }

  /** A key is a maintainer exactly when a chain leads to it from the owner in which every key
      has an event of kind 30617 whose last `d` value is the identifier, and the first such
      event of each key carries the next one in some `maintainers` tag. */
  lemma ClosureByTags(events: Log, owner: string, identifier: string, key: string)
    ensures key in Closure(events, owner, identifier) <==>
            exists chain :: && chain != [] && chain[0] == owner && chain[|chain| - 1] == key
                            && IsTagChain(events, identifier, chain)
  {
    ClosureMeaning(events, owner, identifier, key);
    forall chain ensures IsChain(events, identifier, chain) <==> IsTagChain(events, identifier, chain) {
      ChainMeaning(events, identifier, chain);
    }
    if Trusted(events, owner, identifier, key) {
      var chain :| Connects(events, identifier, chain, owner, key);
    }
    if chain :| chain != [] && chain[0] == owner && chain[|chain| - 1] == key && IsTagChain(events, identifier, chain) {
      assert Connects(events, identifier, chain, owner, key);
    }
  }

  lemma LinkShifts(events: Log, identifier: string, from: string, chain: seq<string>, i: nat)
    requires 0 < i <= |chain| && IsLink(events, identifier, chain, i - 1)
    requires i == 1 ==> chain[0] in Listed(events, identifier, from)
    ensures IsLink(events, identifier, [from] + chain, i)
  {
    assert ([from] + chain)[i] == chain[i - 1];
    assert i > 1 ==> ([from] + chain)[i - 1] == chain[i - 2];
  }

  lemma TrustedPrepend(events: Log, identifier: string, from: string, next: string, key: string)
    requires IsAnnouncer(events, identifier, from) && next in Listed(events, identifier, from)
    requires Trusted(events, next, identifier, key)
    ensures Trusted(events, from, identifier, key)
  {
    var chain :| Connects(events, identifier, chain, next, key);
    var longer := [from] + chain;
    forall i | 0 <= i < |longer| ensures IsLink(events, identifier, longer, i) {
      if i > 0 {
        assert IsLink(events, identifier, chain, i - 1);
        LinkShifts(events, identifier, from, chain, i);
      }
    }
    assert Connects(events, identifier, longer, from, key);
  }

  /** The key's own announcement has been followed: everything it lists that announces is in `found`. */
  ghost predicate Settled(events: Log, identifier: string, key: string, found: set<string>) {
    forall q :: q in Listed(events, identifier, key) && IsAnnouncer(events, identifier, q) ==> q in found
  }

  ghost predicate AllTrusted(events: Log, from: string, identifier: string, keys: set<string>) {
    forall k :: k in keys ==> Trusted(events, from, identifier, k)
  }

  ghost predicate AllSettled(events: Log, identifier: string, keys: set<string>, found: set<string>) {
    forall k :: k in keys ==> Settled(events, identifier, k, found)
  }

  /** What a visit of `from` promises about the keys it adds to `start`. */
  ghost predicate Explored(events: Log, identifier: string, from: string, start: set<string>, found: set<string>) {
    && start <= found
    && (IsAnnouncer(events, identifier, from) ==> from in found)
    && AllTrusted(events, from, identifier, found - start)
    && AllSettled(events, identifier, found - start, found)
  }

  /** A visit in progress: all new keys are trusted, all but `from` have been followed, and of
      the first `n` keys that `from` lists, those that announce have been found. */
  ghost predicate Exploring(
    events: Log, identifier: string, from: string, n: nat, start: set<string>, found: set<string>) {
    && start + {from} <= found
    && AllTrusted(events, from, identifier, found - start)
    && AllSettled(events, identifier, found - start - {from}, found)
    && (forall j :: 0 <= j < n && j < |Listed(events, identifier, from)|
                    && IsAnnouncer(events, identifier, Listed(events, identifier, from)[j]) ==>
          Listed(events, identifier, from)[j] in found)
  }

  lemma Begin(events: Log, identifier: string, from: string, start: set<string>)
    requires IsAnnouncer(events, identifier, from)
    ensures Exploring(events, identifier, from, 0, start, start + {from})
  {
    assert Connects(events, identifier, [from], from, from);
  }

  /** What one recursive visit adds to the visit of the key that listed it. */
  lemma Absorb(
    events: Log, identifier: string, from: string, n: nat,
    start: set<string>, before: set<string>, after: set<string>)
    requires IsAnnouncer(events, identifier, from) && n < |Listed(events, identifier, from)|
    requires Exploring(events, identifier, from, n, start, before)
    requires Explored(events, identifier, Listed(events, identifier, from)[n], before, after)
    ensures Exploring(events, identifier, from, n + 1, start, after)
  {
    var next := Listed(events, identifier, from)[n];
    forall k | k in after - start ensures Trusted(events, from, identifier, k) {
      if k in after - before {
        TrustedPrepend(events, identifier, from, next, k);
      } else {
        assert k in before - start;
      }
    }
    forall k | k in after - start - {from} ensures Settled(events, identifier, k, after) {
      if k !in after - before {
        assert Settled(events, identifier, k, before);
      }
    }
  }

  lemma Finish(events: Log, identifier: string, from: string, start: set<string>, found: set<string>)
    requires Exploring(events, identifier, from, |Listed(events, identifier, from)|, start, found)
    ensures Explored(events, identifier, from, start, found)
  {
    assert Settled(events, identifier, from, found);
    forall k | k in found - start ensures Settled(events, identifier, k, found) {
      assert k == from || k in found - start - {from};
    }
  }

  lemma RecordOnce(done: seq<string>, key: string)
    requires NoDuplicates(done) && key !in Elements(done)
    ensures NoDuplicates(done + [key]) && Elements(done + [key]) == Elements(done) + {key}
  {
    assert key !in done;
  }

  /** The mutable set a search fills, with a ghost record of the expansions made. */
  class Search {
    var checked: set<string>
    ghost var expanded: seq<string>

    ghost predicate Valid()
      reads this
    {
      NoDuplicates(expanded) && Elements(expanded) == checked
    }

    constructor ()
      ensures Valid() && checked == {}
    {
      checked, expanded := {}, [];
    }

    /** `collect_maintainers_inner`. The announcers not yet checked shrink at every
        expansion, so the recursion ends on every log, cycles included. */
    method Visit(events: Log, pubkey: string, identifier: string)
      requires Valid()
      modifies this
      ensures Valid() && old(expanded) <= expanded
      ensures Explored(events, identifier, pubkey, old(checked), checked)
      decreases Announcers(events, identifier) - checked
    {
      if pubkey in checked {
        return;
      }
      var found := FindRepoAnnouncement(events, pubkey, identifier);
      if found.None? {
        return;
      }
      var announcement := found.value;
      AnnouncerIsAuthor(events, identifier, pubkey);
      Begin(events, identifier, pubkey, checked);
      RecordOnce(expanded, pubkey);
      checked := checked + {pubkey};
      expanded := expanded + [pubkey];
      assert Announcers(events, identifier) - checked < Announcers(events, identifier) - old(checked) by {
        assert pubkey in Announcers(events, identifier) - old(checked);
      }
      for i := 0 to |announcement.maintainers|
        invariant Valid() && old(expanded) <= expanded && old(checked) + {pubkey} <= checked
        invariant Exploring(events, identifier, pubkey, i, old(checked), checked)
      {
        var maintainer := announcement.maintainers[i];
        ghost var before := checked;
        Visit(events, maintainer, announcement.identifier);
        Absorb(events, identifier, pubkey, i, old(checked), before, checked);
      }
      Finish(events, identifier, pubkey, old(checked), checked);
    }
  }

  /** A set closed under listing holds every key a chain from it reaches. */
  lemma {:induction false} ChainStays(events: Log, identifier: string, chain: seq<string>, found: set<string>)
    requires IsChain(events, identifier, chain) && chain != [] && chain[0] in found
    requires forall k :: k in found ==> Settled(events, identifier, k, found)
    ensures chain[|chain| - 1] in found
  {
    if |chain| > 1 {
      var n := |chain| - 1;
      ChainExtends(events, identifier, chain);
      ChainStays(events, identifier, chain[..n], found);
      assert chain[..n][n - 1] == chain[n - 1];
      assert Settled(events, identifier, chain[n - 1], found);
    }
  }

  /** `collect_maintainers` is the trust closure, strictly sorted. */
  method CollectMaintainers(events: Log, pubkey: string, identifier: string) returns (maintainers: seq<string>)
    ensures StrictlySorted(maintainers)
    ensures forall k :: k in maintainers <==> Trusted(events, pubkey, identifier, k)
    ensures maintainers == Listing(Closure(events, pubkey, identifier))
    ensures |maintainers| <= |Announcers(events, identifier)|
  {
    var search := new Search();
    search.Visit(events, pubkey, identifier);
    var found := search.checked;
    forall k ensures k in found <==> k in Closure(events, pubkey, identifier) {
      ClosureMeaning(events, pubkey, identifier, k);
      if Trusted(events, pubkey, identifier, k) {
        var chain :| Connects(events, identifier, chain, pubkey, k);
        ChainEnds(events, identifier, chain);
        ChainStays(events, identifier, chain, found);
      }
    }
    maintainers := SortKeys(found);
    ListingUnique(maintainers, Listing(Closure(events, pubkey, identifier)));
    forall k ensures k in maintainers <==> Trusted(events, pubkey, identifier, k) {
      assert k in maintainers <==> k in Elements(maintainers);
      ClosureMeaning(events, pubkey, identifier, k);
    }
    SortedNoDuplicates(maintainers);
    ListingSize(maintainers);
    SubsetSize(found, Announcers(events, identifier));
  }

  lemma {:induction false} SubsetSize<T>(a: set<T>, b: set<T>)
    requires a <= b
    ensures |a| <= |b|
  {
    if a != {} {
      var x :| x in a;
      SubsetSize(a - {x}, b - {x});
    }
  }
}
