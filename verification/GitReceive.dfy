/** Push admission (crates/core/src/git_receive.rs), one update and one batch at a time. */
module GitReceive {
  import opened Wrappers
  import opened Text
  import opened RepoStates
  import opened GitRefs

  datatype RefUpdate = RefUpdate(oldRev: string, newRev: string, name: string)

  /** The rejection classes; the message text is dropped. */
  datatype Reason =
    | InvalidNostrRef
    | NoState
    | InvalidState(defect: StateDefect)
    | PrBranch
    | NotInState
    | OtherRevision(expected: string)
    | UnsupportedRef

  datatype Decision = Accept | Reject(reason: Reason)

  function EvaluateRefUpdate(u: RefUpdate, state: Option<RepoState>): (r: Decision) {
    if StartsWith(u.name, NOSTR_PREFIX) then
      if IsNostrRefName(u.name) then Accept else Reject(InvalidNostrRef)
    else if state.None? then Reject(NoState)
    else if Validate(state.value).Some? then Reject(InvalidState(Validate(state.value).value))
    else if IsPrBranchRef(u.name) then Reject(PrBranch)
    else
      match MatchStateRef(u.name, u.newRev, state.value)
      case Match => Accept
      case Missing => Reject(NotInState)
      case Mismatch(expected) => Reject(OtherRevision(expected))
      case Unsupported => Reject(UnsupportedRef)
  }

  function FirstRejection(updates: seq<RefUpdate>, state: Option<RepoState>): (r: Decision) {
    if updates == [] then Accept
    else
      var d := EvaluateRefUpdate(updates[0], state);
      if d.Reject? then d else FirstRejection(updates[1..], state)
  }

  function EvaluateUpdates(updates: seq<RefUpdate>, state: Option<RepoState>): (r: Decision) {
    if state.Some? && Validate(state.value).Some? then Reject(InvalidState(Validate(state.value).value))
    else FirstRejection(updates, state)
  }

  predicate Usable(state: Option<RepoState>) {
    state.None? || Valid(state.value)
  }

  ghost predicate AllAccepted(updates: seq<RefUpdate>, state: Option<RepoState>) {
    forall i :: 0 <= i < |updates| ==> EvaluateRefUpdate(updates[i], state) == Accept
  }

  lemma {:induction false} FirstRejectionMeaning(updates: seq<RefUpdate>, state: Option<RepoState>)
    ensures FirstRejection(updates, state) == Accept <==> AllAccepted(updates, state)
    ensures FirstRejection(updates, state) != Accept ==>
              exists i :: 0 <= i < |updates| && FirstRejection(updates, state) == EvaluateRefUpdate(updates[i], state)
                          && AllAccepted(updates[..i], state)
  {
    if updates != [] {
      var tail := updates[1..];
      FirstRejectionMeaning(tail, state);
      if EvaluateRefUpdate(updates[0], state) != Accept {
        assert AllAccepted(updates[..0], state);
      } else {
        assert forall i :: 0 <= i < |tail| ==> tail[i] == updates[i + 1];
        if FirstRejection(tail, state) != Accept {
          var i :| 0 <= i < |tail| && FirstRejection(tail, state) == EvaluateRefUpdate(tail[i], state)
                   && AllAccepted(tail[..i], state);
          forall j | 0 <= j < i + 1 ensures EvaluateRefUpdate(updates[j], state) == Accept {
            assert j > 0 ==> updates[j] == tail[..i][j - 1];
          }
          assert AllAccepted(updates[..i + 1], state);
        } else {
          forall j | 0 <= j < |updates| ensures EvaluateRefUpdate(updates[j], state) == Accept {
            assert j > 0 ==> updates[j] == tail[j - 1];
          }
        }
      }
    }
  }

  /** The batch decision: accepted exactly when the state is absent or valid and every
      update is accepted alone; otherwise, on a usable state, the first rejection in order. */
  lemma BatchRefinesUpdates(updates: seq<RefUpdate>, state: Option<RepoState>)
    ensures EvaluateUpdates(updates, state) == Accept <==> Usable(state) && AllAccepted(updates, state)
    ensures !Usable(state) ==>
              EvaluateUpdates(updates, state).Reject? && EvaluateUpdates(updates, state).reason.InvalidState?
    ensures Usable(state) && EvaluateUpdates(updates, state) != Accept ==>
              exists i :: 0 <= i < |updates| && EvaluateUpdates(updates, state) == EvaluateRefUpdate(updates[i], state)
                          && AllAccepted(updates[..i], state)
  {
    FirstRejectionMeaning(updates, state);
  }

  lemma SingleUpdate(u: RefUpdate, state: Option<RepoState>)
    requires Usable(state)
    ensures EvaluateUpdates([u], state) == EvaluateRefUpdate(u, state)
  {
    assert [u][1..] == [] && FirstRejection([], state) == Accept;
  }

  lemma AcceptanceOrderFree(a: seq<RefUpdate>, b: seq<RefUpdate>, state: Option<RepoState>)
    requires multiset(a) == multiset(b)
    ensures EvaluateUpdates(a, state) == Accept <==> EvaluateUpdates(b, state) == Accept
  {
    BatchRefinesUpdates(a, state);
    BatchRefinesUpdates(b, state);
    forall u ensures u in a <==> u in b {
      assert u in a <==> u in multiset(a);
      assert u in b <==> u in multiset(b);
    }
    assert AllAccepted(a, state) <==> forall u :: u in a ==> EvaluateRefUpdate(u, state) == Accept;
    assert AllAccepted(b, state) <==> forall u :: u in b ==> EvaluateRefUpdate(u, state) == Accept;
  }

  predicate NostrOnly(updates: seq<RefUpdate>) {
    forall i :: 0 <= i < |updates| ==> StartsWith(updates[i].name, NOSTR_PREFIX)
  }

  /** The pre-receive hook fetches a state only for batches that need one. */
  function EvaluatePreReceive(updates: seq<RefUpdate>, fetched: Option<RepoState>): (r: Decision) {
    EvaluateUpdates(updates, if NostrOnly(updates) then None else fetched)
  }

  /** Through the hook, a batch passes exactly when each of its updates passes alone:
      the hook removes the difference between the batch and the single evaluation. */
  lemma PreReceiveIsPointwise(updates: seq<RefUpdate>, fetched: Option<RepoState>)
    ensures EvaluatePreReceive(updates, fetched) == Accept <==> AllAccepted(updates, fetched)
  {
    BatchRefinesUpdates(updates, None);
    BatchRefinesUpdates(updates, fetched);
    if !NostrOnly(updates) {
      var i :| 0 <= i < |updates| && !StartsWith(updates[i].name, NOSTR_PREFIX);
      assert EvaluateRefUpdate(updates[i], fetched) == Accept ==> Usable(fetched);
    }
  }

  /** Which state judges a batch, and what an unusable one answers. */
  lemma PreReceiveMeaning(updates: seq<RefUpdate>, fetched: Option<RepoState>)
    ensures (forall i :: 0 <= i < |updates| ==> "refs/nostr/" <= updates[i].name) ==>
              EvaluatePreReceive(updates, fetched) == FirstRejection(updates, None)
    ensures (exists i :: 0 <= i < |updates| && !("refs/nostr/" <= updates[i].name)) ==>
              EvaluatePreReceive(updates, fetched) ==
              if fetched.Some? && Validate(fetched.value).Some?
              then Reject(InvalidState(Validate(fetched.value).value))
              else FirstRejection(updates, fetched)
  {
  }

  /** The two evaluations do differ on their own: an invalid state sinks a batch of
      well-formed nostr refs, and even the empty batch. */
  lemma InvalidStateSinksNostrBatches(updates: seq<RefUpdate>, s: RepoState)
    requires !Valid(s) && forall i :: 0 <= i < |updates| ==> IsNostrRefName(updates[i].name)
    ensures AllAccepted(updates, Some(s)) && EvaluateUpdates(updates, Some(s)).Reject?
    ensures EvaluatePreReceive(updates, Some(s)) == Accept
  {
    PreReceiveIsPointwise(updates, Some(s));
  }

  predicate IsSupported(name: string) {
    IsHeadRef(name) || IsBranchRef(name) || IsTagRef(name)
  }

  /** The value the state gives a ref, symbolic refs followed one level. */
  function Resolved(s: RepoState, name: string): (r: Option<string>) {
    if name in s.refs then ResolveRefValue(s.refs[name], s.refs) else None
  }

  /** How a valid state judges a ref of a class it may move. */
  lemma JudgedUpdate(u: RefUpdate, s: RepoState)
    requires Valid(s) && IsSupported(u.name) && !IsPrBranchRef(u.name)
    ensures EvaluateRefUpdate(u, Some(s)) ==
            match Resolved(s, u.name)
            case None => Reject(NotInState)
            case Some(rev) => if rev == u.newRev then Accept else Reject(OtherRevision(rev))
  {
    NotNostr(u.name);
  }

  /** What acceptance of a single update means. */
  lemma AcceptedUpdate(u: RefUpdate, state: Option<RepoState>)
    ensures EvaluateRefUpdate(u, state) == Accept <==>
            || IsNostrRefName(u.name)
            || (&& state.Some? && Valid(state.value)
                && IsSupported(u.name) && !IsPrBranchRef(u.name)
                && Resolved(state.value, u.name) == Some(u.newRev))
  {
    if IsSupported(u.name) {
      NotNostr(u.name);
    }
  }

  /** The value a state gives a ref: what is recorded, or what a symbolic ref's target records. */
  lemma ResolvedMeaning(s: RepoState, name: string, value: string)
    ensures Resolved(s, name) == Some(value) <==>
            && name in s.refs
            && var v := s.refs[name];
               if "ref: " <= v then v[5..] in s.refs && s.refs[v[5..]] == value else v == value
  {
  }

  /** A ref that a valid state may move, by name. */
  ghost predicate MovableName(name: string) {
    name == "HEAD" || "refs/tags/" <= name || ("refs/heads/" <= name && !("refs/heads/pr/" <= name))
  }

  /** The name of a nostr ref for an event id. */
  ghost predicate NostrName(name: string) {
    exists id :: |id| == 64 && (forall i :: 0 <= i < 64 ==> IsHexDigit(id[i])) && name == "refs/nostr/" + id
  }

  /** Acceptance by names: any update of a nostr ref, and an update of HEAD, a tag or a branch
      outside refs/heads/pr/ to the value a valid state gives it. */
  lemma AcceptedByName(u: RefUpdate, state: Option<RepoState>)
    ensures EvaluateRefUpdate(u, state) == Accept <==>
            || NostrName(u.name)
            || (state.Some? && Valid(state.value) && MovableName(u.name)
                && Resolved(state.value, u.name) == Some(u.newRev))
  {
    AcceptedUpdate(u, state);
    RefClassMeaning(u.name);
    NostrRefMeaning(u.name);
    NostrNameMeaning(u.name);
    MovableMeaning(u.name);
  }

  lemma NostrNameMeaning(name: string)
    ensures NostrName(name) <==> exists id :: IsHexLen(id, 64) && name == NOSTR_PREFIX + id
  {
  }

  lemma MovableMeaning(name: string)
    ensures MovableName(name) <==> IsSupported(name) && !IsPrBranchRef(name)
  {
    RefClassMeaning(name);
    if name == "HEAD" {
      assert name[0] == 'H' && "refs/heads/pr/"[0] == 'r';
    }
    if "refs/tags/" <= name {
      assert name[5] == "refs/tags/"[5] == 't' && "refs/heads/pr/"[5] == 'h';
    }
  }

  /** No update under refs/heads/pr/ is ever accepted. */
  lemma PrBranchesRefused(x: string, oldRev: string, newRev: string, state: Option<RepoState>)
    ensures EvaluateRefUpdate(RefUpdate(oldRev, newRev, "refs/heads/pr/" + x), state).Reject?
    ensures state.Some? && Valid(state.value) ==>
              EvaluateRefUpdate(RefUpdate(oldRev, newRev, "refs/heads/pr/" + x), state) == Reject(PrBranch)
  {
    var name := "refs/heads/pr/" + x;
    RefClassMeaning(name);
    assert name[5] == 'h' && NOSTR_PREFIX[5] == 'n';
  }

  /** Some commit can be pushed to the ref. */
  ghost predicate TakesCommit(s: RepoState, name: string) {
    exists rev :: IsHex40(rev) && EvaluateRefUpdate(RefUpdate("", rev, name), Some(s)) == Accept
  }

  /** Against a valid state a commit can be pushed to a ref exactly when it is a well-formed
      nostr ref, or one of a supported class that the state resolves to a commit. */
  lemma TakesCommitIff(s: RepoState, name: string)
    requires Valid(s)
    ensures TakesCommit(s, name) <==>
            || IsNostrRefName(name)
            || (&& IsSupported(name) && !IsPrBranchRef(name)
                && Resolved(s, name).Some? && IsHex40(Resolved(s, name).value))
  {
    forall rev {
      AcceptedUpdate(RefUpdate("", rev, name), Some(s));
    }
    if IsNostrRefName(name) {
      var rev := seq(40, i => '0');
      assert IsHex40(rev) && EvaluateRefUpdate(RefUpdate("", rev, name), Some(s)) == Accept;
    } else if Resolved(s, name).Some? && IsHex40(Resolved(s, name).value) {
      assert EvaluateRefUpdate(RefUpdate("", Resolved(s, name).value, name), Some(s)) == Accept <==>
             IsSupported(name) && !IsPrBranchRef(name);
    }
  }

  /** Exactly when each rejection is given. */
  lemma RejectionMeaning(u: RefUpdate, state: Option<RepoState>)
    ensures var d := EvaluateRefUpdate(u, state);
            var nostr, judged := StartsWith(u.name, NOSTR_PREFIX), state.Some? && Valid(state.value);
            && (d == Reject(InvalidNostrRef) <==> nostr && !IsNostrRefName(u.name))
            && (d == Reject(NoState) <==> !nostr && state.None?)
            && (d.Reject? && d.reason.InvalidState? <==> !nostr && state.Some? && !Valid(state.value))
            && (d.Reject? && d.reason.InvalidState? ==> Validate(state.value) == Some(d.reason.defect))
            && (d == Reject(PrBranch) <==> judged && IsPrBranchRef(u.name))
            && (d == Reject(UnsupportedRef) <==> judged && !nostr && !IsSupported(u.name))
            && (d == Reject(NotInState) <==>
                judged && IsSupported(u.name) && !IsPrBranchRef(u.name) && Resolved(state.value, u.name).None?)
            && (forall rev :: d == Reject(OtherRevision(rev)) <==>
                  && judged && IsSupported(u.name) && !IsPrBranchRef(u.name)
                  && Resolved(state.value, u.name) == Some(rev) && rev != u.newRev)
  {
    if IsSupported(u.name) {
      NotNostr(u.name);
    }
    assert IsPrBranchRef(u.name) ==> IsBranchRef(u.name) by {
      assert HEADS_PREFIX <= PR_PREFIX;
    }
  }

  /** Resolution stops after one level: behind two symbolic refs only the literal text of
      the second is accepted, so no commit can be pushed. */
  lemma TwoLevels(u: RefUpdate, s: RepoState, middle: string, last: string)
    requires Valid(s) && IsSupported(u.name) && !IsPrBranchRef(u.name)
    requires u.name in s.refs && s.refs[u.name] == "ref: " + middle
    requires middle in s.refs && s.refs[middle] == "ref: " + last
    ensures EvaluateRefUpdate(u, Some(s)) == Accept <==> u.newRev == "ref: " + last
    ensures IsHex40(u.newRev) ==> EvaluateRefUpdate(u, Some(s)) == Reject(OtherRevision("ref: " + last))
  {
    JudgedUpdate(u, s);
    assert ("ref: " + middle)[|"ref: "|..] == middle;
    assert Resolved(s, u.name) == Some("ref: " + last);
    if IsHex40(u.newRev) {
      assert IsHexDigit(u.newRev[0]);
      assert ("ref: " + last)[0] == 'r';
    }
  }

  /** The state map admits names that merely begin with "refs/tags", but no push to such a
      name is accepted unless a slash follows. */
  lemma TagPrefixGap(rest: string, newRev: string, s: RepoState)
    requires rest == "" || rest[0] != '/'
    requires Valid(s)
    ensures var name := "refs/tags" + rest;
            && (IsStateRef(name) <==> !EndsWith(name, "^{}"))
            && EvaluateRefUpdate(RefUpdate("", newRev, name), Some(s)) == Reject(UnsupportedRef)
  {
    var name := "refs/tags" + rest;
    assert name[5] == 't' && NOSTR_PREFIX[5] == 'n' && HEADS_PREFIX[5] == 'h' && PR_PREFIX[5] == 'h';
    assert TAGS_PREFIX[9] == '/' && (rest != "" ==> name[9] == rest[0]);
    assert HEAD[0] == 'H' && name[0] == 'r';
  }

  /** A valid state with a branch behind two symbolic refs and an entry under "refs/tagsfoo". */
  function Tangled(commit: string): (r: RepoState) {
    RepoState("repo", map[HEAD := commit, "refs/heads/a" := "ref: refs/heads/b", "refs/heads/b" := "ref: refs/heads/c",
                          "refs/heads/c" := commit, "refs/tagsfoo" := commit])
  }

  lemma TangledValid(commit: string)
    requires IsHex40(commit)
    ensures Valid(Tangled(commit))
  {
    var s := Tangled(commit);
    assert !IsWhitespace("repo"[0]);
    forall k | k in s.refs ensures IsLegal(k, s.refs[k]) {
      TangledEntry(commit, k);
    }
    HeadShapes(commit);
    ValidMeaning(s);
  }

  lemma TangledEntry(commit: string, k: string)
    requires IsHex40(commit) && k in Tangled(commit).refs
    ensures IsLegal(k, Tangled(commit).refs[k])
  {
    assert k[|k| - 1] != '}';
    assert k != HEAD && k != "refs/tagsfoo" ==> k[..11] == "refs/heads/";
    assert k == "refs/tagsfoo" ==> k[..9] == "refs/tags";
    assert "ref: refs/heads/b"[..10] == "ref: refs/" && "ref: refs/heads/c"[..10] == "ref: refs/";
  }

  /** On that state the commit behind "refs/heads/a" and the one under "refs/tagsfoo" are both
      recorded, and neither can be pushed. */
  lemma RecordedButRefused(commit: string)
    requires IsHex40(commit)
    ensures var s := Some(Tangled(commit));
            && EvaluateRefUpdate(RefUpdate("", commit, "refs/heads/a"), s) == Reject(OtherRevision("ref: refs/heads/c"))
            && EvaluateRefUpdate(RefUpdate("", commit, "refs/tagsfoo"), s) == Reject(UnsupportedRef)
  {
    TangledValid(commit);
    assert "refs/tagsfoo" == "refs/tags" + "foo";
    TagPrefixGap("foo", commit, Tangled(commit));
    TangledBranch(commit);
  }

  lemma TangledLookups(commit: string)
    ensures var refs := Tangled(commit).refs;
            && "refs/heads/a" in refs && refs["refs/heads/a"] == "ref: " + "refs/heads/b"
            && "refs/heads/b" in refs && refs["refs/heads/b"] == "ref: " + "refs/heads/c"
  {
    assert "ref: refs/heads/b" == "ref: " + "refs/heads/b" && "ref: refs/heads/c" == "ref: " + "refs/heads/c";
  }

  lemma PlainBranch(name: string)
    requires |name| > 11 && name[..11] == HEADS_PREFIX && name[11] != 'p'
    ensures IsSupported(name) && !IsPrBranchRef(name)
  {
    assert PR_PREFIX[11] == 'p';
  }

  lemma TangledBranch(commit: string)
    requires IsHex40(commit)
    ensures EvaluateRefUpdate(RefUpdate("", commit, "refs/heads/a"), Some(Tangled(commit))) ==
            Reject(OtherRevision("ref: refs/heads/c"))
  {
    TangledValid(commit);
    PlainBranch("refs/heads/a");
    TangledLookups(commit);
    TwoLevels(RefUpdate("", commit, "refs/heads/a"), Tangled(commit), "refs/heads/b", "refs/heads/c");
  }

  lemma NotNostr(name: string)
    requires IsSupported(name)
    ensures !StartsWith(name, NOSTR_PREFIX)
  {
    assert NOSTR_PREFIX[5] == 'n';
    if IsBranchRef(name) {
      assert name[5] == HEADS_PREFIX[5] == 'h';
    } else if IsTagRef(name) {
      assert name[5] == TAGS_PREFIX[5] == 't';
    }
  }
}
