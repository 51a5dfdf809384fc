/** Repository states (crates/core/src/nip34.rs:187-312): a validated map of git refs. */
module RepoStates {
  import opened Wrappers
  import opened Text
  import opened Sorting
  import opened Tags
  import opened Reading

  type RefMap = map<string, string>

  datatype RepoState = RepoState(identifier: string, refs: RefMap)

  const HEAD := "HEAD"

  /** The tag prefix has no trailing slash here. */
  predicate IsStateRef(name: string) {
    (name == HEAD || StartsWith(name, "refs/heads/") || StartsWith(name, "refs/tags")) && !EndsWith(name, "^{}")
  }

  predicate IsHex40(value: string) {
    IsHexLen(value, 40)
  }

  predicate IsStateValue(value: string) {
    IsHex40(value) || StartsWith(value, "ref: refs/")
  }

  predicate IsLegal(name: string, value: string) {
    IsStateRef(name) && IsStateValue(value)
  }

  predicate IsEntry(tag: Tag) {
    |tag| >= 2 && tag[0] != "d" && IsLegal(tag[0], tag[1])
  }

  // ---- parsing

  /** The refs a tag list sets: legal entries only, the last one for a name winning. */
  function Entries(tags: seq<Tag>): (r: RefMap) {
    if tags == [] then map[]
    else
      var rest, tag := Entries(tags[..|tags| - 1]), tags[|tags| - 1];
      if IsEntry(tag) then rest[tag[0] := tag[1]] else rest
  }

  lemma EntriesPush(tags: seq<Tag>, tag: Tag)
    ensures Entries(tags + [tag]) == if IsEntry(tag) then Entries(tags)[tag[0] := tag[1]] else Entries(tags)
  {
    assert (tags + [tag])[..|tags|] == tags;
  }

  /** Tag `i` is the one that decides the value of `name`. */
  ghost predicate Decides(tags: seq<Tag>, i: nat, name: string) {
    && i < |tags| && IsEntry(tags[i]) && tags[i][0] == name
    && (forall j :: i < j < |tags| && IsEntry(tags[j]) ==> tags[j][0] != name)
  }

  /** A name is in the parsed map exactly when some legal entry sets it, and the last such entry gives its value. */
  lemma {:induction false} EntriesMeaning(tags: seq<Tag>, name: string)
    ensures name in Entries(tags) <==> exists i: nat :: Decides(tags, i, name)
    ensures forall i: nat :: Decides(tags, i, name) ==> name in Entries(tags) && Entries(tags)[name] == tags[i][1]
  {
    if tags != [] {
      var n := |tags| - 1;
      var init := tags[..n];
      EntriesMeaning(init, name);
      if IsEntry(tags[n]) && tags[n][0] == name {
        assert Decides(tags, n, name);
      } else {
        forall i: nat ensures Decides(tags, i, name) <==> Decides(init, i, name) {
          DecidesInit(tags, i, name);
        }
      }
    }
  }

  lemma DecidesInit(tags: seq<Tag>, i: nat, name: string)
    requires tags != [] && !(IsEntry(tags[|tags| - 1]) && tags[|tags| - 1][0] == name)
    ensures Decides(tags, i, name) <==> Decides(tags[..|tags| - 1], i, name)
  {
    assert forall j :: 0 <= j < |tags| - 1 ==> tags[..|tags| - 1][j] == tags[j];
  }

  function Parse(tags: seq<Tag>): (r: Result<RepoState, CoreError>) {
    match LastValue(tags, "d")
    case None => Err(MissingField("d"))
    case Some(identifier) => Ok(RepoState(identifier, Entries(tags)))
  }

  method FromTags(tags: seq<Tag>) returns (r: Result<RepoState, CoreError>)
    ensures r == Parse(tags)
    ensures r.Ok? ==> Reads(tags, r.value)
  {
    var identifier: Option<string>, refs: RefMap := None, map[];
    for i := 0 to |tags|
      invariant identifier == LastValue(tags[..i], "d")
      invariant refs == Entries(tags[..i])
    {
      var tag := tags[i];
      ReadLast(tags, i, "d");
      assert tags[..i + 1] == tags[..i] + [tag];
      EntriesPush(tags[..i], tag);
      if |tag| >= 2 && tag[0] == "d" {
        identifier := Some(tag[1]);
      } else if |tag| >= 2 && IsStateRef(tag[0]) && IsStateValue(tag[1]) {
        refs := refs[tag[0] := tag[1]];
      }
    }
    assert tags[..|tags|] == tags;
    match identifier
    case None => r := Err(MissingField("d"));
    case Some(id) =>
      r := Ok(RepoState(id, refs));
      ParseMeaning(tags, r.value);
  }

  // ---- what the raw tags mean

  /** A ref name a state may hold, and a value it may have. */
  lemma LegalMeaning(name: string, value: string)
    ensures IsLegal(name, value) <==>
            && (name == "HEAD" || "refs/heads/" <= name || "refs/tags" <= name)
            && (|name| < 3 || name[|name| - 3..] != "^{}")
            && ((|value| == 40 && forall i :: 0 <= i < 40 ==> IsHexDigit(value[i])) || "ref: refs/" <= value)
  {
  }

  /** Tag `i` sets the ref to the value, and no later tag sets it. */
  ghost predicate Sets(tags: seq<Tag>, i: nat, name: string, value: string) {
    && i < |tags| && |tags[i]| >= 2 && tags[i][0] == name && tags[i][1] == value && IsLegal(name, value)
    && (forall j :: i < j < |tags| && |tags[j]| >= 2 && tags[j][0] == name ==> !IsLegal(name, tags[j][1]))
  }

  ghost predicate IsSet(tags: seq<Tag>, name: string, value: string) {
    exists i: nat :: Sets(tags, i, name, value)
  }

  ghost predicate ReadsRefs(tags: seq<Tag>, refs: RefMap) {
    forall name, value :: Get(refs, name) == Some(value) <==> IsSet(tags, name, value)
  }

  /** The state the tags describe. */
  ghost predicate Reads(tags: seq<Tag>, s: RepoState) {
    LastOne(Some(s.identifier), tags, HeadOf("d")) && ReadsRefs(tags, s.refs)
  }

  lemma EntryMeaning(tag: Tag, name: string)
    ensures IsEntry(tag) && tag[0] == name <==> |tag| >= 2 && tag[0] == name && IsLegal(name, tag[1])
  {
    assert "d"[0] == 'd' && HEAD[0] == 'H';
  }

  lemma SetsDecides(tags: seq<Tag>, i: nat, name: string, value: string)
    ensures Sets(tags, i, name, value) <==> Decides(tags, i, name) && tags[i][1] == value
  {
    forall j | 0 <= j < |tags|
      ensures IsEntry(tags[j]) && tags[j][0] == name <==>
              |tags[j]| >= 2 && tags[j][0] == name && IsLegal(name, tags[j][1])
    {
      EntryMeaning(tags[j], name);
    }
  }

  lemma EntriesSet(tags: seq<Tag>)
    ensures ReadsRefs(tags, Entries(tags))
  {
    forall name, value ensures Get(Entries(tags), name) == Some(value) <==> IsSet(tags, name, value) {
      EntriesMeaning(tags, name);
      forall i: nat ensures Sets(tags, i, name, value) <==> Decides(tags, i, name) && tags[i][1] == value {
        SetsDecides(tags, i, name, value);
      }
    }
  }

  lemma RefsUnique(tags: seq<Tag>, a: RefMap, b: RefMap)
    requires ReadsRefs(tags, a) && ReadsRefs(tags, b)
    ensures a == b
  {
    forall name ensures Get(a, name) == Get(b, name) {
      if name in a {
        assert Get(a, name) == Some(a[name]);
        assert IsSet(tags, name, a[name]);
      } else if name in b {
        assert Get(b, name) == Some(b[name]);
        assert IsSet(tags, name, b[name]);
      }
    }
    SameRefs(a, b);
  }

  lemma SameRefs(a: RefMap, b: RefMap)
    requires forall name :: Get(a, name) == Get(b, name)
    ensures a == b
  {
    forall name ensures name in a <==> name in b {
      assert Get(a, name) == Get(b, name);
    }
    forall name | name in a ensures a[name] == b[name] {
      assert Get(a, name) == Get(b, name);
    }
  }

  /** Parsing gives exactly the state the raw tags describe, and fails exactly when no tag
      gives an identifier. */
  lemma ParseMeaning(tags: seq<Tag>, s: RepoState)
    ensures Parse(tags) == Ok(s) <==> Reads(tags, s)
    ensures Parse(tags).Err? <==> LastOne(None, tags, HeadOf("d"))
    ensures Parse(tags).Err? ==> Parse(tags) == Err(MissingField("d"))
  {
    MissingMeaning(tags, "d");
    ReadsLast(tags, "d");
    EntriesSet(tags);
    if Reads(tags, s) {
      LastOneUnique(Some(s.identifier), LastValue(tags, "d"), tags, HeadOf("d"));
      RefsUnique(tags, s.refs, Entries(tags));
    }
  }

  // ---- printing

  function EntryTags(keys: seq<string>, refs: RefMap): (r: seq<Tag>)
    requires forall i :: 0 <= i < |keys| ==> keys[i] in refs
    ensures |r| == |keys|
    ensures forall i :: 0 <= i < |keys| ==> r[i] == [keys[i], refs[keys[i]]]
  {
    seq(|keys|, i requires 0 <= i < |keys| => [keys[i], refs[keys[i]]])
  }

  lemma ListingCovers(keys: seq<string>, refs: RefMap)
    requires IsListing(keys, refs.Keys)
    ensures forall i :: 0 <= i < |keys| ==> keys[i] in refs
  {
    forall i | 0 <= i < |keys| ensures keys[i] in refs {
      assert keys[i] in Elements(keys);
    }
  }

  ghost function Print(s: RepoState): (r: seq<Tag>) {
    var keys := Listing(s.refs.Keys);
    ListingCovers(keys, s.refs);
    [["d", s.identifier]] + EntryTags(keys, s.refs)
  }

  /** Printing does not depend on the order in which the hash map is walked: any
      enumeration of its keys sorts to the same list. */
  method ToTags(s: RepoState) returns (tags: seq<Tag>)
    ensures tags == Print(s)
  {
    tags := [["d", s.identifier]];
    var keys := SortKeys(s.refs.Keys);
    ListingUnique(keys, Listing(s.refs.Keys));
    ListingCovers(keys, s.refs);
    for i := 0 to |keys|
      invariant tags == [["d", s.identifier]] + EntryTags(keys, s.refs)[..i]
    {
      tags := tags + [[keys[i], s.refs[keys[i]]]];
    }
  }

  /** The printed tags: the identifier, then one tag per ref in strictly ascending order. */
  lemma PrintedForm(s: RepoState)
    ensures var tags := Print(s);
            && |tags| == 1 + |s.refs| && tags[0] == ["d", s.identifier]
            && (forall i :: 0 < i < |tags| ==>
                  |tags[i]| == 2 && tags[i][0] in s.refs && tags[i][1] == s.refs[tags[i][0]])
            && (forall i, j :: 0 < i < j < |tags| ==> Less(tags[i][0], tags[j][0]))
  {
    var keys := Listing(s.refs.Keys);
    ListingCovers(keys, s.refs);
    SortedNoDuplicates(keys);
    ListingSize(keys);
    assert |s.refs.Keys| == |s.refs|;
  }

  /** The entries that survive printing and parsing. */
  function LegalRefs(refs: RefMap): (r: RefMap) {
    map k | k in refs && IsLegal(k, refs[k]) :: refs[k]
  }

  ghost predicate AllLegal(refs: RefMap) {
    forall k :: k in refs ==> IsLegal(k, refs[k])
  }

  lemma LegalIsEntry(name: string, value: string)
    ensures IsEntry([name, value]) <==> IsLegal(name, value)
  {
  }

  /** The printed tags of the first keys. */
  function Printed(s: RepoState, keys: seq<string>): (r: seq<Tag>)
    requires forall i :: 0 <= i < |keys| ==> keys[i] in s.refs
  {
    [["d", s.identifier]] + EntryTags(keys, s.refs)
  }

  lemma PrintedPush(s: RepoState, keys: seq<string>)
    requires keys != [] && forall i :: 0 <= i < |keys| ==> keys[i] in s.refs
    ensures var n := |keys| - 1;
            Printed(s, keys) == Printed(s, keys[..n]) + [[keys[n], s.refs[keys[n]]]]
  {
  }

  lemma PrintedEntries(s: RepoState, keys: seq<string>)
    requires keys != [] && forall i :: 0 <= i < |keys| ==> keys[i] in s.refs
    ensures var before, key := Entries(Printed(s, keys[..|keys| - 1])), keys[|keys| - 1];
            Entries(Printed(s, keys)) == if IsLegal(key, s.refs[key]) then before[key := s.refs[key]] else before
  {
    var init, key := keys[..|keys| - 1], keys[|keys| - 1];
    PrintedPush(s, keys);
    EntriesPush(Printed(s, init), [key, s.refs[key]]);
    LegalIsEntry(key, s.refs[key]);
  }

  lemma {:induction false} PrintedEntry(s: RepoState, keys: seq<string>, name: string)
    requires forall i :: 0 <= i < |keys| ==> keys[i] in s.refs
    ensures var r := Entries(Printed(s, keys));
            && (name in r <==> name in keys && IsLegal(name, s.refs[name]))
            && (name in r ==> r[name] == s.refs[name])
  {
    if keys == [] {
      assert Printed(s, keys) == [] + [["d", s.identifier]];
      EntriesPush([], ["d", s.identifier]);
    } else {
      var n := |keys| - 1;
      PrintedEntry(s, keys[..n], name);
      PrintedEntries(s, keys);
      assert keys == keys[..n] + [keys[n]];
    }
  }

  lemma {:induction false} PrintedIdentifier(s: RepoState, keys: seq<string>)
    requires forall i :: 0 <= i < |keys| ==> keys[i] in s.refs
    ensures LastValue(Printed(s, keys), "d") == Some(if "d" in keys then s.refs["d"] else s.identifier)
  {
    if keys == [] {
      var d := Maybe("d", Some(s.identifier));
      assert Printed(s, keys) == d;
      HeadsMaybe("d", Some(s.identifier));
      NamedUniform(d, "d", "d");
    } else {
      var n := |keys| - 1;
      PrintedIdentifier(s, keys[..n]);
      PrintedPush(s, keys);
      assert keys == keys[..n] + [keys[n]];
      var before, tag := Printed(s, keys[..n]), [keys[n], s.refs[keys[n]]];
      NamedPush(before, tag, "d");
      HeadsPush(Named(before, "d"), tag);
    }
  }

  /** Parsing a printed state keeps exactly the legal entries; the identifier is lost
      only when the map holds a (then illegal) ref called "d". */
  lemma ParsePrint(s: RepoState)
    ensures Parse(Print(s)) ==
            Ok(RepoState(if "d" in s.refs then s.refs["d"] else s.identifier, LegalRefs(s.refs)))
  {
    var keys := Listing(s.refs.Keys);
    ListingCovers(keys, s.refs);
    assert "d" in keys <==> "d" in Elements(keys);
    PrintedMap(s);
    PrintedIdentifier(s, keys);
  }

  lemma PrintedMap(s: RepoState)
    ensures Entries(Print(s)) == LegalRefs(s.refs)
  {
    var keys := Listing(s.refs.Keys);
    ListingCovers(keys, s.refs);
    forall k ensures Get(Entries(Print(s)), k) == Get(LegalRefs(s.refs), k) {
      assert k in keys <==> k in Elements(keys);
      PrintedEntry(s, keys, k);
    }
    SameRefs(Entries(Print(s)), LegalRefs(s.refs));
  }

  lemma RoundTrip(s: RepoState)
    ensures Parse(Print(s)) == Ok(s) <==> AllLegal(s.refs)
  {
    ParsePrint(s);
    if AllLegal(s.refs) {
      assert "d" !in s.refs;
      assert LegalRefs(s.refs) == s.refs;
    } else {
      var k :| k in s.refs && !IsLegal(k, s.refs[k]);
      assert k !in LegalRefs(s.refs);
    }
  }

  lemma {:induction false} ParsedLegal(tags: seq<Tag>)
    ensures AllLegal(Entries(tags))
  {
    if tags != [] {
      ParsedLegal(tags[..|tags| - 1]);
    }
  }

  lemma FixedPoint(tags: seq<Tag>)
    requires Parse(tags).Ok?
    ensures Parse(Print(Parse(tags).value)) == Parse(tags)
  {
    ParsedLegal(tags);
    RoundTrip(Parse(tags).value);
  }

  // ---- validation and HEAD

  datatype StateDefect = BlankIdentifier | IllegalEntry | MissingHead | DanglingHead

  function StripPrefix(s: string, prefix: string): (r: Option<string>) {
    if StartsWith(s, prefix) then Some(s[|prefix|..]) else None
  }

  function ParseHeadRef(value: string): (r: Option<string>) {
    match StripPrefix(value, "ref: ")
    case Some(rest) => Some(rest)
    case None => if StartsWith(value, "refs/") then Some(value) else None
  }

  /** `validate`: the first defect found, or none. Which illegal entry is reported
      depends on the hash map's order, so the model keeps only that there is one. */
  function Validate(s: RepoState): (r: Option<StateDefect>) {
    if IsBlank(s.identifier) then Some(BlankIdentifier)
    else if exists k :: k in s.refs && !IsLegal(k, s.refs[k]) then Some(IllegalEntry)
    else if s.refs != map[] && HEAD !in s.refs then Some(MissingHead)
    else if HEAD in s.refs && ParseHeadRef(s.refs[HEAD]).Some? && ParseHeadRef(s.refs[HEAD]).value !in s.refs
    then Some(DanglingHead)
    else None
  }

  predicate Valid(s: RepoState) {
    Validate(s).None?
  }

  function Get(refs: RefMap, name: string): (r: Option<string>) {
    if name in refs then Some(refs[name]) else None
  }

  function HeadCommit(s: RepoState): (r: Option<string>) {
    if HEAD !in s.refs then None
    else
      var head := s.refs[HEAD];
      match ParseHeadRef(head)
      case Some(target) => Get(s.refs, target)
      case None => if IsHex40(head) then Some(head) else None
  }

  /** What HEAD leads to: through a symbolic or bare target, or directly. */
  lemma HeadCommitMeaning(s: RepoState, commit: string)
    ensures HeadCommit(s) == Some(commit) <==>
            && "HEAD" in s.refs
            && var head := s.refs["HEAD"];
               if "ref: " <= head then head[5..] in s.refs && s.refs[head[5..]] == commit
               else if "refs/" <= head then head in s.refs && s.refs[head] == commit
               else IsHex40(head) && head == commit
  {
  }

  /** Exactly when each defect is reported, in the order of the checks. */
  lemma ValidateMeaning(s: RepoState)
    ensures var blank := forall i :: 0 <= i < |s.identifier| ==> IsWhitespace(s.identifier[i]);
            var legal := forall k :: k in s.refs ==> IsLegal(k, s.refs[k]);
            && (Validate(s) == Some(BlankIdentifier) <==> blank)
            && (Validate(s) == Some(IllegalEntry) <==> !blank && !legal)
            && (Validate(s) == Some(MissingHead) <==> !blank && legal && s.refs != map[] && "HEAD" !in s.refs)
            && (Validate(s) == Some(DanglingHead) <==>
                !blank && legal && "HEAD" in s.refs && "ref: " <= s.refs["HEAD"] && s.refs["HEAD"][5..] !in s.refs)
  {
    assert AllLegal(s.refs) <==> forall k :: k in s.refs ==> IsLegal(k, s.refs[k]);
    if AllLegal(s.refs) && HEAD in s.refs {
      LegalHead(s.refs[HEAD]);
    }
  }

  lemma LegalHead(value: string)
    requires IsLegal(HEAD, value)
    ensures ParseHeadRef(value) == if "ref: " <= value then Some(value[5..]) else None
  {
    HeadValueShape(value);
  }

  /** A state is valid exactly when its identifier is not blank, every entry is legal, and
      it is empty or HEAD resolves to something. */
  lemma ValidMeaning(s: RepoState)
    ensures Valid(s) <==> !IsBlank(s.identifier) && AllLegal(s.refs) && (s.refs == map[] || HeadCommit(s).Some?)
  {
    if AllLegal(s.refs) && HEAD in s.refs {
      HeadValueShape(s.refs[HEAD]);
    }
  }

  /** Validating a parsed state can fail in three ways only, each visible in the parsed value. */
  lemma ParsedValidation(tags: seq<Tag>)
    requires Parse(tags).Ok?
    ensures var s := Parse(tags).value;
            && (Validate(s) == Some(BlankIdentifier) <==> IsBlank(s.identifier))
            && Validate(s) != Some(IllegalEntry)
            && (Validate(s) == Some(MissingHead) <==> !IsBlank(s.identifier) && s.refs != map[] && HEAD !in s.refs)
            && (Validate(s) == Some(DanglingHead) <==> !IsBlank(s.identifier) && HEAD in s.refs && HeadCommit(s).None?)
  {
    var s := Parse(tags).value;
    ParsedLegal(tags);
    if HEAD in s.refs {
      HeadValueShape(s.refs[HEAD]);
    }
  }

  /** A legal value is a commit or a symbolic ref, never both, and never a bare "refs/" path. */
  lemma HeadValueShape(value: string)
    requires IsStateValue(value)
    ensures ParseHeadRef(value) == StripPrefix(value, "ref: ")
    ensures ParseHeadRef(value).None? <==> IsHex40(value)
  {
    if IsHex40(value) {
      assert IsHexDigit(value[0]) && IsHexDigit(value[1]);
    }
    if StartsWith(value, "ref: refs/") {
      assert value[0] == 'r' && value[3] == ':';
      assert "ref: " <= "ref: refs/";
    }
  }
}
