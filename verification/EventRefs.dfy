/** References to other events (crates/core/src/event_refs.rs). */
module EventRefs {
  import opened Wrappers
  import opened Sorting
  import opened Decimal
  import opened Tags
  import opened Reading

  datatype EventReferences = EventReferences(eventIds: seq<string>, addressPointers: seq<string>)

  predicate IsAddressRef(tag: Tag) {
    |tag| >= 2 && (tag[0] == "a" || tag[0] == "A" || (tag[0] == "q" && ':' in tag[1]))
  }

  predicate IsEventRef(tag: Tag) {
    |tag| >= 2 && (tag[0] == "e" || tag[0] == "E" || (tag[0] == "q" && ':' !in tag[1]))
  }

  function EventIds(tags: seq<Tag>): (r: seq<string>) {
    if tags == [] then []
    else
      var rest, tag := EventIds(tags[..|tags| - 1]), tags[|tags| - 1];
      if IsEventRef(tag) then rest + [tag[1]] else rest
  }

  function AddressPointers(tags: seq<Tag>): (r: seq<string>) {
    if tags == [] then []
    else
      var rest, tag := AddressPointers(tags[..|tags| - 1]), tags[|tags| - 1];
      if IsAddressRef(tag) then rest + [tag[1]] else rest
  }

  function References(tags: seq<Tag>): (r: EventReferences) {
    EventReferences(Dedup(EventIds(tags)), Dedup(AddressPointers(tags)))
  }

  lemma ReferencesPush(tags: seq<Tag>, i: nat)
    requires i < |tags|
    ensures var refs, tag := References(tags[..i]), tags[i];
            References(tags[..i + 1]) == EventReferences(
              if IsEventRef(tag) then PushUniqueSpec(refs.eventIds, tag[1]) else refs.eventIds,
              if IsAddressRef(tag) then PushUniqueSpec(refs.addressPointers, tag[1]) else refs.addressPointers)
  {
    assert tags[..i + 1][..i] == tags[..i];
    if |tags[i]| >= 2 {
      DedupPush(EventIds(tags[..i]), tags[i][1]);
      DedupPush(AddressPointers(tags[..i]), tags[i][1]);
    }
  }

  method CollectEventReferences(tags: seq<Tag>) returns (refs: EventReferences)
    ensures refs == References(tags)
  {
    refs := EventReferences([], []);
    for i := 0 to |tags|
      invariant refs == References(tags[..i])
    {
      var tag := tags[i];
      ReferencesPush(tags, i);
      if |tag| < 2 {
        continue;
      }
      if tag[0] == "a" || tag[0] == "A" {
        var pointers := PushUnique(refs.addressPointers, tag[1]);
        refs := refs.(addressPointers := pointers);
      } else if tag[0] == "e" || tag[0] == "E" {
        var ids := PushUnique(refs.eventIds, tag[1]);
        refs := refs.(eventIds := ids);
      } else if tag[0] == "q" {
        if ':' in tag[1] {
          var pointers := PushUnique(refs.addressPointers, tag[1]);
          refs := refs.(addressPointers := pointers);
        } else {
          var ids := PushUnique(refs.eventIds, tag[1]);
          refs := refs.(eventIds := ids);
        }
      }
    }
    assert tags[..|tags|] == tags;
  }

  /** A value is referenced exactly when some tag refers to it. */
  lemma {:induction false} ReferencedValues(tags: seq<Tag>, value: string)
    ensures value in EventIds(tags) <==> exists tag :: tag in tags && IsEventRef(tag) && tag[1] == value
    ensures value in AddressPointers(tags) <==> exists tag :: tag in tags && IsAddressRef(tag) && tag[1] == value
  {
    if tags != [] {
      var n := |tags| - 1;
      ReferencedValues(tags[..n], value);
      assert tags == tags[..n] + [tags[n]];
    }
  }

  lemma ReferencesMeaning(tags: seq<Tag>, value: string)
    ensures value in References(tags).eventIds <==> exists tag :: tag in tags && IsEventRef(tag) && tag[1] == value
    ensures value in References(tags).addressPointers <==>
            exists tag :: tag in tags && IsAddressRef(tag) && tag[1] == value
    ensures NoDuplicates(References(tags).eventIds) && NoDuplicates(References(tags).addressPointers)
  {
    ReferencedValues(tags, value);
    DedupElements(EventIds(tags));
    DedupElements(AddressPointers(tags));
  }

  /** The event id a tag refers to: of an `e` or `E` tag, or of a `q` tag without a colon. */
  function EventIdOf(): (r: Reader) {
    (tag: Tag) =>
      if |tag| >= 2 && (tag[0] == "e" || tag[0] == "E" || (tag[0] == "q" && ':' !in tag[1])) then [tag[1]] else []
  }

  /** The address a tag refers to: of an `a` or `A` tag, or of a `q` tag with a colon. */
  function AddressOf(): (r: Reader) {
    (tag: Tag) =>
      if |tag| >= 2 && (tag[0] == "a" || tag[0] == "A" || (tag[0] == "q" && ':' in tag[1])) then [tag[1]] else []
  }

  lemma {:induction false} ReferencesGathered(tags: seq<Tag>)
    ensures EventIds(tags) == Gathered(tags, EventIdOf())
    ensures AddressPointers(tags) == Gathered(tags, AddressOf())
  {
    if tags != [] {
      ReferencesGathered(tags[..|tags| - 1]);
    }
  }

  /** By the raw tags: the references are the first occurrences of what the tags refer to. */
  lemma ReferencesByTags(tags: seq<Tag>)
    ensures FirstOccurrences(References(tags).eventIds, tags, EventIdOf())
    ensures FirstOccurrences(References(tags).addressPointers, tags, AddressOf())
  {
    ReferencesGathered(tags);
    DedupReads(tags, EventIdOf());
    DedupReads(tags, AddressOf());
  }

  predicate IsAddressableKind(kind: nat) {
    30000 <= kind < 40000
  }

  /** The first `d` tag with a value. */
  function FindDTag(tags: seq<Tag>): (r: Option<string>) {
    if tags == [] then None
    else if |tags[0]| > 1 && tags[0][0] == "d" then Some(tags[0][1])
    else FindDTag(tags[1..])
  }

  function SelfPointer(kind: nat, pubkey: string, identifier: Option<string>): (r: string) {
    match identifier
    case Some(d) => PrintNat(kind) + ":" + (pubkey + ":" + d)
    case None => PrintNat(kind) + ":" + pubkey
  }

  function ReferencesWithSelf(kind: nat, pubkey: string, eventId: string, tags: seq<Tag>): (r: EventReferences) {
    var refs := References(tags);
    if IsAddressableKind(kind)
    then refs.(addressPointers := PushUniqueSpec(refs.addressPointers, SelfPointer(kind, pubkey, FindDTag(tags))))
    else refs.(eventIds := PushUniqueSpec(refs.eventIds, eventId))
  }

  /** The identifier in an event's own pointer: that of its first `d` tag with a value. */
  ghost predicate FirstD(tags: seq<Tag>, d: Option<string>) {
    match d
    case None => forall i :: 0 <= i < |tags| ==> HeadOf("d")(tags[i]) == []
    case Some(v) => exists i :: && 0 <= i < |tags| && HeadOf("d")(tags[i]) == [v]
                                && forall j :: 0 <= j < i ==> HeadOf("d")(tags[j]) == []
  }

  lemma {:induction false} FindDTagByTags(tags: seq<Tag>)
    ensures FirstD(tags, FindDTag(tags))
  {
    if tags != [] && HeadOf("d")(tags[0]) == [] {
      FindDTagByTags(tags[1..]);
      FirstDTail(tags, FindDTag(tags));
    }
  }

  lemma FirstDTail(tags: seq<Tag>, d: Option<string>)
    requires tags != [] && HeadOf("d")(tags[0]) == [] && FirstD(tags[1..], d)
    ensures FirstD(tags, d)
  {
    var tail := tags[1..];
    if d.Some? {
      var i :| && 0 <= i < |tail| && HeadOf("d")(tail[i]) == [d.value]
               && forall j :: 0 <= j < i ==> HeadOf("d")(tail[j]) == [];
      forall j | 0 <= j < i + 1 ensures HeadOf("d")(tags[j]) == [] {
        assert j > 0 ==> tags[j] == tail[j - 1];
      }
      assert HeadOf("d")(tags[i + 1]) == [d.value];
    } else {
      forall i | 0 <= i < |tags| ensures HeadOf("d")(tags[i]) == [] {
        assert i > 0 ==> tags[i] == tail[i - 1];
      }
    }
  }

  /** An event's own pointer. */
  lemma SelfPointerMeaning(kind: nat, pubkey: string, d: string)
    ensures SelfPointer(kind, pubkey, Some(d)) == PrintNat(kind) + ":" + pubkey + ":" + d
    ensures SelfPointer(kind, pubkey, None) == PrintNat(kind) + ":" + pubkey
  {
    assert PrintNat(kind) + ":" + (pubkey + ":" + d) == PrintNat(kind) + ":" + pubkey + ":" + d;
  }

  /** A value the event refers to as an event id, itself included unless it is addressable. */
  ghost predicate RefersToId(kind: nat, eventId: string, tags: seq<Tag>, v: string) {
    Given(tags, EventIdOf(), v) || (!(30000 <= kind < 40000) && v == eventId)
  }

  /** A value the event refers to as an address, its own pointer included if it is addressable. */
  ghost predicate RefersToAddress(kind: nat, pubkey: string, tags: seq<Tag>, v: string) {
    Given(tags, AddressOf(), v) || (30000 <= kind < 40000 && v == SelfPointer(kind, pubkey, FindDTag(tags)))
  }

  lemma ReferencesWithSelfMeaning(kind: nat, pubkey: string, eventId: string, tags: seq<Tag>, v: string)
    ensures var refs := ReferencesWithSelf(kind, pubkey, eventId, tags);
            && (v in refs.eventIds <==> RefersToId(kind, eventId, tags, v))
            && (v in refs.addressPointers <==> RefersToAddress(kind, pubkey, tags, v))
  {
    ReferencesByTags(tags);
  }

  method CollectEventReferencesWithSelf(kind: nat, pubkey: string, eventId: string, tags: seq<Tag>)
    returns (refs: EventReferences)
    ensures refs == ReferencesWithSelf(kind, pubkey, eventId, tags)
    ensures NoDuplicates(refs.eventIds) && NoDuplicates(refs.addressPointers)
  {
    refs := CollectEventReferences(tags);
    DedupElements(EventIds(tags));
    DedupElements(AddressPointers(tags));
    if IsAddressableKind(kind) {
      var pointers := PushUnique(refs.addressPointers, SelfPointer(kind, pubkey, FindDTag(tags)));
      refs := refs.(addressPointers := pointers);
    } else {
      var ids := PushUnique(refs.eventIds, eventId);
      refs := refs.(eventIds := ids);
    }
  }

  /** The self pointer uses the first `d` tag, the codecs the last: they name the same
      repository exactly when the first and the last value agree. */
  lemma {:induction false} FindDTagIsFirst(tags: seq<Tag>)
    ensures var ds := Heads(Named(tags, "d"));
            FindDTag(tags) == if ds == [] then None else Some(ds[0])
  {
    if tags != [] {
      FindDTagIsFirst(tags[1..]);
      NamedConcat([tags[0]], tags[1..], "d");
      assert tags == [tags[0]] + tags[1..];
      HeadsConcat(Named([tags[0]], "d"), Named(tags[1..], "d"));
      NamedPush([], tags[0], "d");
      HeadsPush([], tags[0]);
      assert [] + [tags[0]] == [tags[0]];
    }
  }

  lemma {:induction false} HeadsConcat(a: seq<Tag>, b: seq<Tag>)
    ensures Heads(a + b) == Heads(a) + Heads(b)
  {
    if b == [] {
      assert a + b == a;
    } else {
      var n := |b| - 1;
      HeadsConcat(a, b[..n]);
      assert a + b == (a + b[..n]) + [b[n]] && b == b[..n] + [b[n]];
      HeadsPush(a + b[..n], b[n]);
      HeadsPush(b[..n], b[n]);
    }
  }
}
