/** Runs of pushes against a ref store, each judged by the pre-receive hook
    (services/git-hook/src/lib.rs:503-527) with whatever state it fetches. */
module PushRuns {
  import opened Wrappers
  import opened Text
  import opened Sorting
  import opened RepoStates
  import opened GitRefs
  import opened GitReceive

  type RefStore = map<string, string>

  /** What writing a revision leaves behind; git deletes on the all-zero revision. */
  function Effect(newRev: string): (r: Option<string>) {
    if forall i :: 0 <= i < |newRev| ==> newRev[i] == '0' then None else Some(newRev)
  }

  function ApplyUpdate(store: RefStore, u: RefUpdate): (r: RefStore) {
    match Effect(u.newRev)
    case None => store - {u.name}
    case Some(rev) => store[u.name := rev]
  }

  function ApplyAll(store: RefStore, updates: seq<RefUpdate>): (r: RefStore) {
    if updates == [] then store
    else ApplyUpdate(ApplyAll(store, updates[..|updates| - 1]), updates[|updates| - 1])
  }

  datatype Push = Push(updates: seq<RefUpdate>, fetched: Option<RepoState>)

  function Receive(store: RefStore, p: Push): (r: RefStore) {
    if EvaluatePreReceive(p.updates, p.fetched) == Accept then ApplyAll(store, p.updates) else store
  }

  function Run(store: RefStore, pushes: seq<Push>): (r: RefStore) {
    if pushes == [] then store else Receive(Run(store, pushes[..|pushes| - 1]), pushes[|pushes| - 1])
  }

  /** Refs no push may ever move. */
  predicate Protected(name: string) {
    || IsPrBranchRef(name)
    || EndsWith(name, "^{}")
    || !(IsSupported(name) || IsNostrRefName(name))
  }

  lemma AcceptedNotProtected(u: RefUpdate, state: Option<RepoState>)
    requires EvaluateRefUpdate(u, state) == Accept
    ensures !Protected(u.name)
    ensures state.None? ==> IsNostrRefName(u.name)
  {
    AcceptedUpdate(u, state);
    if IsNostrRefName(u.name) {
      NostrRefMeaning(u.name);
      NostrIsNotBranch(u.name);
    } else {
      assert IsLegal(u.name, state.value.refs[u.name]);
    }
  }

  lemma NostrIsNotBranch(name: string)
    requires StartsWith(name, NOSTR_PREFIX)
    ensures !IsPrBranchRef(name)
  {
    assert name[5] == NOSTR_PREFIX[5] == 'n';
    assert PR_PREFIX[5] == 'h';
  }

  lemma {:induction false} UntouchedByAll(store: RefStore, updates: seq<RefUpdate>, name: string)
    requires forall i :: 0 <= i < |updates| ==> updates[i].name != name
    ensures Get(ApplyAll(store, updates), name) == Get(store, name)
  {
    if updates != [] {
      UntouchedByAll(store, updates[..|updates| - 1], name);
    }
  }

  lemma ReceiveSafe(store: RefStore, p: Push, name: string)
    requires Protected(name) || (p.fetched.None? && !IsNostrRefName(name))
    ensures Get(Receive(store, p), name) == Get(store, name)
  {
    if EvaluatePreReceive(p.updates, p.fetched) == Accept {
      PreReceiveIsPointwise(p.updates, p.fetched);
      forall i | 0 <= i < |p.updates| ensures p.updates[i].name != name {
        AcceptedNotProtected(p.updates[i], p.fetched);
      }
      UntouchedByAll(store, p.updates, name);
    }
  }

  /** Safety over whole runs: whatever states are fetched, no run of pushes changes a
      protected ref, and a run that never fetches a state changes only nostr refs. */
  lemma {:induction false} RunSafe(store: RefStore, pushes: seq<Push>, name: string)
    ensures Protected(name) ==> Get(Run(store, pushes), name) == Get(store, name)
    ensures (forall i :: 0 <= i < |pushes| ==> pushes[i].fetched.None?) && !IsNostrRefName(name) ==>
              Get(Run(store, pushes), name) == Get(store, name)
  {
    if pushes != [] {
      var n := |pushes| - 1;
      RunSafe(store, pushes[..n], name);
      if Protected(name) || (pushes[n].fetched.None? && !IsNostrRefName(name)) {
        ReceiveSafe(Run(store, pushes[..n]), pushes[n], name);
      }
    }
  }

  /** The same by names: no run moves a ref under refs/heads/pr/, one that ends in ^{}, or one
      that is neither HEAD nor a branch, a tag or a nostr ref. */
  lemma RunSafeByName(store: RefStore, pushes: seq<Push>, name: string)
    requires || "refs/heads/pr/" <= name
             || (|name| >= 3 && name[|name| - 3..] == "^{}")
             || !(name == "HEAD" || "refs/heads/" <= name || "refs/tags/" <= name || NostrName(name))
    ensures Get(Run(store, pushes), name) == Get(store, name)
  {
    RefClassMeaning(name);
    NostrRefMeaning(name);
    NostrNameMeaning(name);
    RunSafe(store, pushes, name);
  }

  /** Without any fetched state a run moves only nostr refs. */
  lemma StatelessRun(store: RefStore, pushes: seq<Push>, name: string)
    requires (forall i :: 0 <= i < |pushes| ==> pushes[i].fetched.None?) && !NostrName(name)
    ensures Get(Run(store, pushes), name) == Get(store, name)
  {
    NostrRefMeaning(name);
    NostrNameMeaning(name);
    RunSafe(store, pushes, name);
  }

  /** One update sets its ref, or deletes it when the new revision is all zeros, and leaves
      every other ref alone. */
  lemma ApplyMeaning(store: RefStore, u: RefUpdate, name: string)
    ensures Get(ApplyUpdate(store, u), name) ==
            if name != u.name then Get(store, name)
            else if forall i :: 0 <= i < |u.newRev| ==> u.newRev[i] == '0' then None
            else Some(u.newRev)
  {
  }

  /** Update `i` is the last of the batch for the ref. */
  ghost predicate LastUpdate(updates: seq<RefUpdate>, name: string, i: nat) {
    i < |updates| && updates[i].name == name && forall j :: i < j < |updates| ==> updates[j].name != name
  }

  lemma {:induction false} LastUpdateDecides(store: RefStore, updates: seq<RefUpdate>, name: string, i: nat)
    requires LastUpdate(updates, name, i)
    ensures Get(ApplyAll(store, updates), name) == Effect(updates[i].newRev)
  {
    var n := |updates| - 1;
    if i < n {
      LastUpdateDecides(store, updates[..n], name, i);
      ApplyMeaning(ApplyAll(store, updates[..n]), updates[n], name);
    }
  }

  /** A push takes effect exactly when every update is accepted: then each ref holds what its
      last update leaves, and the others stay. Otherwise nothing changes. */
  lemma ReceiveMeaning(store: RefStore, p: Push, name: string)
    ensures !AllAccepted(p.updates, p.fetched) ==> Receive(store, p) == store
    ensures AllAccepted(p.updates, p.fetched) ==>
              && (forall i: nat :: LastUpdate(p.updates, name, i) ==>
                    Get(Receive(store, p), name) == Effect(p.updates[i].newRev))
              && ((forall i :: 0 <= i < |p.updates| ==> p.updates[i].name != name) ==>
                    Get(Receive(store, p), name) == Get(store, name))
  {
    PreReceiveIsPointwise(p.updates, p.fetched);
    forall i: nat | LastUpdate(p.updates, name, i)
      ensures Get(ApplyAll(store, p.updates), name) == Effect(p.updates[i].newRev)
    {
      LastUpdateDecides(store, p.updates, name, i);
    }
    if forall i :: 0 <= i < |p.updates| ==> p.updates[i].name != name {
      UntouchedByAll(store, p.updates, name);
    }
  }

  /** A run is its pushes, one after the other. */
  lemma RunMeaning(store: RefStore, pushes: seq<Push>, p: Push)
    ensures Run(store, []) == store
    ensures Run(store, pushes + [p]) == Receive(Run(store, pushes), p)
  {
    assert (pushes + [p])[..|pushes|] == pushes;
  }

  /** The state resolves the ref to what the store now holds. */
  ghost predicate Authorises(state: Option<RepoState>, name: string, value: Option<string>) {
    && state.Some? && Valid(state.value)
    && Resolved(state.value, name).Some? && Effect(Resolved(state.value, name).value) == value
  }

  lemma {:induction false} ValueAfter(store: RefStore, updates: seq<RefUpdate>, name: string, effect: Option<string>)
    requires forall i :: 0 <= i < |updates| && updates[i].name == name ==> Effect(updates[i].newRev) == effect
    ensures Get(ApplyAll(store, updates), name) ==
            if exists i :: 0 <= i < |updates| && updates[i].name == name then effect else Get(store, name)
  {
    if updates != [] {
      var n := |updates| - 1;
      ValueAfter(store, updates[..n], name, effect);
      assert forall i :: 0 <= i < n ==> updates[..n][i] == updates[i];
    }
  }

  lemma AcceptedAuthorises(u: RefUpdate, state: Option<RepoState>)
    requires EvaluateRefUpdate(u, state) == Accept && !IsNostrRefName(u.name)
    ensures Authorises(state, u.name, Effect(u.newRev))
  {
    AcceptedUpdate(u, state);
  }

  lemma AcceptedBatchValue(store: RefStore, updates: seq<RefUpdate>, state: Option<RepoState>, name: string)
    requires AllAccepted(updates, state) && !IsNostrRefName(name)
    ensures var after := Get(ApplyAll(store, updates), name);
            after == Get(store, name) || Authorises(state, name, after)
  {
    if k :| 0 <= k < |updates| && updates[k].name == name {
      var effect := Effect(updates[k].newRev);
      AcceptedAuthorises(updates[k], state);
      forall i | 0 <= i < |updates| && updates[i].name == name ensures Effect(updates[i].newRev) == effect {
        AcceptedAuthorises(updates[i], state);
      }
      ValueAfter(store, updates, name, effect);
    } else {
      UntouchedByAll(store, updates, name);
    }
  }

  /** Provenance over whole runs: a ref outside refs/nostr holds its initial value or
      the value that the state fetched by some push of the run gives it. */
  lemma {:induction false} RunProvenance(store: RefStore, pushes: seq<Push>, name: string)
    requires !IsNostrRefName(name)
    ensures || Get(Run(store, pushes), name) == Get(store, name)
            || exists i :: 0 <= i < |pushes| && Authorises(pushes[i].fetched, name, Get(Run(store, pushes), name))
  {
    if pushes != [] {
      var n := |pushes| - 1;
      var before, p := Run(store, pushes[..n]), pushes[n];
      RunProvenance(store, pushes[..n], name);
      assert forall i :: 0 <= i < n ==> pushes[..n][i] == pushes[i];
      if EvaluatePreReceive(p.updates, p.fetched) == Accept {
        PreReceiveIsPointwise(p.updates, p.fetched);
        AcceptedBatchValue(before, p.updates, p.fetched, name);
      }
    }
  }

  // ---- order inside a batch

  /** No two updates of the ref leave different values behind. */
  ghost predicate Consistent(updates: seq<RefUpdate>, name: string) {
    forall u, v :: u in updates && v in updates && u.name == name && v.name == name ==>
                     Effect(u.newRev) == Effect(v.newRev)
  }

  ghost predicate OrderFree(updates: seq<RefUpdate>, name: string) {
    forall store: RefStore, other ::
      multiset(other) == multiset(updates) ==> Get(ApplyAll(store, other), name) == Get(ApplyAll(store, updates), name)
  }

  lemma ConsistentValue(store: RefStore, a: seq<RefUpdate>, b: seq<RefUpdate>, name: string)
    requires multiset(a) == multiset(b) && Consistent(a, name)
    ensures Get(ApplyAll(store, a), name) == Get(ApplyAll(store, b), name)
  {
    forall u ensures u in a <==> u in b {
      assert u in a <==> u in multiset(a);
      assert u in b <==> u in multiset(b);
    }
    if u :| u in a && u.name == name {
      ValueAfter(store, a, name, Effect(u.newRev));
      ValueAfter(store, b, name, Effect(u.newRev));
      assert u in b;
    } else {
      UntouchedByAll(store, a, name);
      UntouchedByAll(store, b, name);
    }
  }

  /** The outcome for a ref is independent of the batch order exactly when its updates agree. */
  lemma OrderFreeIff(updates: seq<RefUpdate>, name: string)
    ensures OrderFree(updates, name) <==> Consistent(updates, name)
  {
    if Consistent(updates, name) {
      forall store: RefStore, other | multiset(other) == multiset(updates)
        ensures Get(ApplyAll(store, other), name) == Get(ApplyAll(store, updates), name)
      {
        ConsistentValue(store, updates, other, name);
      }
    }
    if OrderFree(updates, name) {
      forall u, v | u in updates && v in updates && u.name == name && v.name == name
        ensures Effect(u.newRev) == Effect(v.newRev)
      {
        var i :| 0 <= i < |updates| && updates[i] == u;
        var j :| 0 <= j < |updates| && updates[j] == v;
        LastDecides(map[], MoveLast(updates, i));
        LastDecides(map[], MoveLast(updates, j));
      }
    }
  }

  lemma LastDecides(store: RefStore, updates: seq<RefUpdate>)
    requires updates != []
    ensures var u := updates[|updates| - 1];
            Get(ApplyAll(store, updates), u.name) == Effect(u.newRev)
  {
  }

  /** An accepted batch may be applied in any order, except that two updates of one
      nostr ref can conflict. */
  lemma AcceptedBatchOrderFree(updates: seq<RefUpdate>, state: Option<RepoState>, name: string)
    requires EvaluateUpdates(updates, state) == Accept
    requires !StartsWith(name, NOSTR_PREFIX)
    ensures OrderFree(updates, name)
  {
    BatchRefinesUpdates(updates, state);
    forall u, v | u in updates && v in updates && u.name == name && v.name == name
      ensures Effect(u.newRev) == Effect(v.newRev)
    {
      AcceptedUpdate(u, state);
      AcceptedUpdate(v, state);
    }
    OrderFreeIff(updates, name);
  }

  lemma NostrOrderMatters(id: string, a: string, b: string)
    requires IsHexLen(id, 64) && Effect(a) != Effect(b)
    ensures var name := NOSTR_PREFIX + id;
            var updates := [RefUpdate("", a, name), RefUpdate("", b, name)];
            EvaluateUpdates(updates, None) == Accept && !OrderFree(updates, name)
  {
    var name := NOSTR_PREFIX + id;
    var updates := [RefUpdate("", a, name), RefUpdate("", b, name)];
    NostrRefMeaning(name);
    assert AllAccepted(updates, None);
    BatchRefinesUpdates(updates, None);
    OrderFreeIff(updates, name);
    assert updates[0] in updates && updates[1] in updates;
  }
}
