/** Ref classes and the match of a pushed ref against a state
    (crates/core/src/git_refs.rs, crates/core/src/refs.rs). */
module GitRefs {
  import opened Wrappers
  import opened Text
  import opened RepoStates

  const HEADS_PREFIX := "refs/heads/"
  const TAGS_PREFIX := "refs/tags/"
  const PR_PREFIX := "refs/heads/pr/"
  const NOSTR_PREFIX := "refs/nostr/"

  predicate IsBranchRef(name: string) { StartsWith(name, HEADS_PREFIX) }
  predicate IsTagRef(name: string) { StartsWith(name, TAGS_PREFIX) }
  predicate IsPrBranchRef(name: string) { StartsWith(name, PR_PREFIX) }
  predicate IsHeadRef(name: string) { name == HEAD }

  function ParseNostrRef(name: string): (r: Option<string>) {
    match StripPrefix(name, NOSTR_PREFIX)
    case None => None
    case Some(id) => if IsHexLen(id, 64) then Some(id) else None
  }

  predicate IsNostrRefName(name: string) {
    ParseNostrRef(name).Some?
  }

  lemma NostrRefMeaning(name: string)
    ensures IsNostrRefName(name) <==> exists id :: IsHexLen(id, 64) && name == NOSTR_PREFIX + id
    ensures IsNostrRefName(name) ==> !EndsWith(name, "^{}")
  {
    if StartsWith(name, NOSTR_PREFIX) {
      var rest := name[|NOSTR_PREFIX|..];
      assert name == NOSTR_PREFIX + rest;
      if IsHexLen(rest, 64) {
        assert name[|name| - 1] == rest[63] && IsHexDigit(rest[63]);
        assert name[|name| - 3..][2] == name[|name| - 1];
      }
    }
    forall id | IsHexLen(id, 64) && name == NOSTR_PREFIX + id ensures IsNostrRefName(name) {
      assert name[|NOSTR_PREFIX|..] == id;
    }
  }

  /** The ref classes, by name. */
  lemma RefClassMeaning(name: string)
    ensures IsHeadRef(name) <==> name == "HEAD"
    ensures IsBranchRef(name) <==> "refs/heads/" <= name
    ensures IsPrBranchRef(name) <==> "refs/heads/pr/" <= name
    ensures IsTagRef(name) <==> "refs/tags/" <= name
    ensures IsNostrRefName(name) <==>
            "refs/nostr/" <= name && |name| == 11 + 64 && forall i :: 11 <= i < |name| ==> IsHexDigit(name[i])
  {
    if "refs/nostr/" <= name {
      assert NOSTR_PREFIX == "refs/nostr/" && |NOSTR_PREFIX| == 11;
      assert forall i :: 11 <= i < |name| ==> name[11..][i - 11] == name[i];
      assert forall i :: 0 <= i < |name[11..]| ==> name[11..][i] == name[i + 11];
    }
  }

  datatype StateRefMatch = Match | Missing | Mismatch(expected: string) | Unsupported

  /** One level of symbolic resolution. */
  function ResolveRefValue(value: string, refs: RefMap): (r: Option<string>) {
    match StripPrefix(value, "ref: ")
    case Some(target) => Get(refs, target)
    case None => Some(value)
  }

  function MatchStateRef(name: string, newRev: string, s: RepoState): (r: StateRefMatch) {
    if !IsBranchRef(name) && !IsTagRef(name) && !IsHeadRef(name) then Unsupported
    else if name !in s.refs then Missing
    else
      match ResolveRefValue(s.refs[name], s.refs)
      case Some(value) => if value == newRev then Match else Mismatch(value)
      case None => Missing
  }

  /** HEAD agreement: on a valid non-empty state the push check and `head_commit`
      resolve HEAD alike, although they use different resolvers. */
  lemma HeadAgreement(s: RepoState, newRev: string)
    requires Valid(s) && s.refs != map[]
    ensures HeadCommit(s).Some?
    ensures MatchStateRef(HEAD, newRev, s) ==
            if HeadCommit(s).value == newRev then Match else Mismatch(HeadCommit(s).value)
  {
    assert IsLegal(HEAD, s.refs[HEAD]);
    HeadValueShape(s.refs[HEAD]);
  }

  /** The push check of HEAD matches exactly the commit `head_commit` gives. */
  ghost predicate HeadAgrees(s: RepoState) {
    forall rev :: MatchStateRef(HEAD, rev, s) == Match <==> HeadCommit(s) == Some(rev)
  }

  /** A value both resolvers read alike: symbolic, a commit, or a bare path that leads to itself. */
  predicate ReadAlike(value: string, refs: RefMap) {
    StartsWith(value, "ref: ") || IsHex40(value) || (StartsWith(value, "refs/") && Get(refs, value) == Some(value))
  }

  /** On any state, valid or not, the resolvers agree exactly when HEAD is absent or both
      read its value alike. */
  lemma HeadAgreementIff(s: RepoState)
    ensures HeadAgrees(s) <==> (HEAD in s.refs ==> ReadAlike(s.refs[HEAD], s.refs))
  {
    if HEAD in s.refs {
      var head := s.refs[HEAD];
      HeadShapes(head);
      if !StartsWith(head, "ref: ") {
        assert MatchStateRef(HEAD, head, s) == Match;
      }
    }
  }

  lemma HeadShapes(head: string)
    ensures StartsWith(head, "ref: ") ==> ParseHeadRef(head) == StripPrefix(head, "ref: ")
    ensures IsHex40(head) ==> ParseHeadRef(head).None? && StripPrefix(head, "ref: ").None?
    ensures StartsWith(head, "refs/") ==> ParseHeadRef(head) == Some(head) && StripPrefix(head, "ref: ").None?
  {
    if IsHex40(head) {
      assert IsHexDigit(head[0]) && "ref: "[0] == "refs/"[0] == 'r';
    }
    if StartsWith(head, "refs/") {
      assert head[3] == "refs/"[3] == 's' && "ref: "[3] == ':';
    }
  }

  /** A state on which they differ: a bare path is a target for `head_commit` and a value
      for the push check. */
  lemma HeadResolversDiffer(newRev: string)
    requires IsHex40(newRev)
    ensures var s := RepoState("repo", map[HEAD := "refs/heads/main", "refs/heads/main" := newRev]);
            HeadCommit(s) == Some(newRev) && MatchStateRef(HEAD, newRev, s) == Mismatch("refs/heads/main")
  {
    var head := "refs/heads/main";
    assert head[3] == 's';
    assert StripPrefix(head, "ref: ").None?;
  }
}
