/** Filters for the events related to one event (crates/core/src/event_filters.rs),
    with the relay's reading of a filter (services/relay/src/filter.rs:52-95). */
module EventFilters {
  import opened Wrappers
  import opened Text
  import opened Decimal
  import opened Tags
  import opened Addresses
  import opened Reading
  import opened EventRefs
  import opened RepoEvents

  datatype EventFilter = EventFilter(
    ids: seq<string>,
    kinds: seq<nat>,
    authors: seq<string>,
    tags: map<string, seq<string>>,
    limit: Option<nat>)

  const EMPTY := EventFilter([], [], [], map[], Some(1))

  function RelatedKinds(kind: nat): (r: seq<nat>) {
    if kind == KIND_REPO_STATE then [KIND_REPO_STATE, KIND_REPO_ANNOUNCEMENT] else [kind]
  }

  function PointerFilter(pointer: string): (r: Option<EventFilter>) {
    var parts := Split(pointer, ':');
    if |parts| != 2 && |parts| != 3 then None
    else
      match ParseU32(parts[0])
      case None => None
      case Some(kind) =>
        Some(EMPTY.(kinds := RelatedKinds(kind),
                    authors := [parts[1]],
                    tags := if |parts| == 3 then map["d" := [parts[2]]] else map[]))
  }

  /** The filters of the pointers that have one. */
  function PointerFilters(pointers: seq<string>): (r: seq<EventFilter>) {
    if pointers == [] then []
    else
      var rest, f := PointerFilters(pointers[..|pointers| - 1]), PointerFilter(pointers[|pointers| - 1]);
      if f.Some? then rest + [f.value] else rest
  }

  function IdFilters(refs: EventReferences): (r: seq<EventFilter>) {
    if refs.eventIds == [] then [] else [EMPTY.(ids := refs.eventIds)]
  }

  function BothFilter(lower: string, upper: string, values: seq<string>): (r: seq<EventFilter>) {
    if values == [] then [] else [EMPTY.(tags := map[lower := values, upper := values])]
  }

  function QuoteFilter(refs: EventReferences): (r: EventFilter) {
    EMPTY.(tags := map["q" := refs.addressPointers + refs.eventIds])
  }

  function RelatedFilters(refs: EventReferences): (r: seq<EventFilter>) {
    IdFilters(refs) + PointerFilters(refs.addressPointers)
    + BothFilter("e", "E", refs.eventIds) + BothFilter("a", "A", refs.addressPointers) + [QuoteFilter(refs)]
  }

  method BuildRelatedEventFilters(kind: nat, pubkey: string, eventId: string, tags: seq<Tag>)
    returns (filters: seq<EventFilter>)
    ensures filters == RelatedFilters(ReferencesWithSelf(kind, pubkey, eventId, tags))
  {
    var refs := CollectEventReferencesWithSelf(kind, pubkey, eventId, tags);
    filters := [];
    if refs.eventIds != [] {
      filters := filters + [EMPTY.(ids := refs.eventIds)];
    }
    assert filters == IdFilters(refs);
    filters := PushPointerFilters(filters, refs.addressPointers);
    filters := PushBoth(filters, "e", "E", refs.eventIds);
    filters := PushBoth(filters, "a", "A", refs.addressPointers);
    filters := filters + [EMPTY.(tags := map["q" := refs.addressPointers + refs.eventIds])];
  }

  /** One filter with the values under both spellings of a tag. */
  method PushBoth(filters: seq<EventFilter>, lower: string, upper: string, values: seq<string>)
    returns (r: seq<EventFilter>)
    ensures r == filters + BothFilter(lower, upper, values)
  {
    r := filters;
    if values != [] {
      var tags := map[lower := values];
      tags := tags[upper := values];
      r := r + [EMPTY.(tags := tags)];
    }
  }

  method PushPointerFilters(filters: seq<EventFilter>, pointers: seq<string>) returns (r: seq<EventFilter>)
    ensures r == filters + PointerFilters(pointers)
  {
    r := filters;
    for i := 0 to |pointers|
      invariant r == filters + PointerFilters(pointers[..i])
    {
      assert pointers[..i + 1][..i] == pointers[..i];
      var f := PointerFilter(pointers[i]);
      if f.Some? {
        r := r + [f.value];
      }
    }
    assert pointers[..|pointers|] == pointers;
  }

  // ---- what the filters match

  /** An event as the relay matches it: its tags indexed by name. */
  datatype Indexed = Indexed(id: string, kind: nat, pubkey: string, index: map<string, seq<string>>)

  /** The event has the tag with one of the values. */
  predicate Tagged(e: Indexed, name: string, values: seq<string>) {
    name in e.index && exists v :: v in values && v in e.index[name]
  }

  predicate PrefixOfSome(s: string, prefixes: seq<string>) {
    exists p :: p in prefixes && StartsWith(s, p)
  }

  predicate Matches(f: EventFilter, e: Indexed) {
    && (f.ids == [] || PrefixOfSome(e.id, f.ids))
    && (f.authors == [] || PrefixOfSome(e.pubkey, f.authors))
    && (f.kinds == [] || e.kind in f.kinds)
    && (forall name :: name in f.tags ==> Tagged(e, name, f.tags[name]))
  }

  ghost predicate MatchesSome(filters: seq<EventFilter>, e: Indexed) {
    exists f :: f in filters && Matches(f, e)
  }

  lemma {:induction false} PointerFiltersMember(pointers: seq<string>, f: EventFilter)
    ensures f in PointerFilters(pointers) <==> exists p :: p in pointers && PointerFilter(p) == Some(f)
  {
    if pointers != [] {
      var n := |pointers| - 1;
      PointerFiltersMember(pointers[..n], f);
      assert pointers == pointers[..n] + [pointers[n]];
    }
  }

  lemma MatchesSomeConcat(a: seq<EventFilter>, b: seq<EventFilter>, e: Indexed)
    ensures MatchesSome(a + b, e) <==> MatchesSome(a, e) || MatchesSome(b, e)
  {
    assert forall f :: f in a + b <==> f in a || f in b;
  }

  ghost predicate FilterMatches(pointer: string, e: Indexed) {
    PointerFilter(pointer).Some? && Matches(PointerFilter(pointer).value, e)
  }

  ghost predicate Addressed(refs: EventReferences, e: Indexed) {
    exists p :: p in refs.addressPointers && FilterMatches(p, e)
  }

  /** Exactly the events the filters find. A reply is found by its event reference only
      when it carries it as both an "e" and an "E" tag, since a relay requires every
      tag of one filter; likewise "a" and "A". */
  lemma RelatedMeaning(refs: EventReferences, e: Indexed)
    ensures MatchesSome(RelatedFilters(refs), e) <==>
            || PrefixOfSome(e.id, refs.eventIds)
            || Addressed(refs, e)
            || (Tagged(e, "e", refs.eventIds) && Tagged(e, "E", refs.eventIds))
            || (Tagged(e, "a", refs.addressPointers) && Tagged(e, "A", refs.addressPointers))
            || Tagged(e, "q", refs.addressPointers + refs.eventIds)
  {
    var a, b := IdFilters(refs), PointerFilters(refs.addressPointers);
    var c, d := BothFilter("e", "E", refs.eventIds), BothFilter("a", "A", refs.addressPointers);
    MatchesSomeConcat(a + b + c + d, [QuoteFilter(refs)], e);
    MatchesSomeConcat(a + b + c, d, e);
    MatchesSomeConcat(a + b, c, e);
    MatchesSomeConcat(a, b, e);
    IdMeaning(refs, e);
    AddressedMeaning(refs, e);
    BothMeaning("e", "E", refs.eventIds, e);
    BothMeaning("a", "A", refs.addressPointers, e);
    QuoteMeaning(refs, e);
  }

  lemma IdMeaning(refs: EventReferences, e: Indexed)
    ensures MatchesSome(IdFilters(refs), e) <==> PrefixOfSome(e.id, refs.eventIds)
  {
    if refs.eventIds != [] {
      var f := EMPTY.(ids := refs.eventIds);
      assert f in IdFilters(refs);
    }
  }

  lemma AddressedMeaning(refs: EventReferences, e: Indexed)
    ensures MatchesSome(PointerFilters(refs.addressPointers), e) <==> Addressed(refs, e)
  {
    forall f {
      PointerFiltersMember(refs.addressPointers, f);
    }
  }

  lemma BothMeaning(lower: string, upper: string, values: seq<string>, e: Indexed)
    ensures MatchesSome(BothFilter(lower, upper, values), e) <==> Tagged(e, lower, values) && Tagged(e, upper, values)
  {
    if values != [] {
      var f := EMPTY.(tags := map[lower := values, upper := values]);
      assert f in BothFilter(lower, upper, values);
      assert lower in f.tags && upper in f.tags;
    }
  }

  lemma QuoteMeaning(refs: EventReferences, e: Indexed)
    ensures MatchesSome([QuoteFilter(refs)], e) <==> Tagged(e, "q", refs.addressPointers + refs.eventIds)
  {
    var f := QuoteFilter(refs);
    assert f in [f];
    assert "q" in f.tags;
  }

  // ---- by the raw tags

  /** The event is of the kind, or an announcement where states are asked for, and its author
      begins with the given one. */
  ghost predicate Answers(e: Indexed, number: string, author: string) {
    && ParseU32(number).Some? && author <= e.pubkey
    && var kind := ParseU32(number).value;
       e.kind == kind || (kind == 30618 && e.kind == 30617)
  }

  /** The pointer is "number:author". */
  ghost predicate PointsShort(pointer: string, e: Indexed, number: string, author: string) {
    ':' !in number && ':' !in author && pointer == number + ":" + author && Answers(e, number, author)
  }

  /** The pointer is "number:author:identifier". */
  ghost predicate PointsLong(pointer: string, e: Indexed, number: string, author: string, d: string) {
    && ':' !in number && ':' !in author && ':' !in d && pointer == number + ":" + (author + ":" + d)
    && Answers(e, number, author) && "d" in e.index && d in e.index["d"]
  }

  ghost predicate PointsTo(pointer: string, e: Indexed) {
    || (exists number, author :: PointsShort(pointer, e, number, author))
    || (exists number, author, d :: PointsLong(pointer, e, number, author, d))
  }

  lemma SplitTwo(s: string, a: string, b: string)
    ensures Split(s, ':') == [a, b] <==> ':' !in a && ':' !in b && s == a + ":" + b
  {
    if Split(s, ':') == [a, b] {
      JoinSplit(s, ':');
      assert [a, b][1..] == [b] && Join([b], ':') == b;
      assert ':' !in Split(s, ':')[0] && ':' !in Split(s, ':')[1];
    }
    if ':' !in a && ':' !in b {
      SplitCons(a, ':', b);
      SplitPiece(b, ':');
    }
  }

  lemma SplitThree(s: string, a: string, b: string, c: string)
    ensures Split(s, ':') == [a, b, c] <==>
            ':' !in a && ':' !in b && ':' !in c && s == a + ":" + (b + ":" + c)
  {
    if Split(s, ':') == [a, b, c] {
      JoinSplit(s, ':');
      assert [a, b, c][1..] == [b, c] && [b, c][1..] == [c] && Join([c], ':') == c;
      assert Join([b, c], ':') == b + ":" + c;
      assert ':' !in Split(s, ':')[0] && ':' !in Split(s, ':')[1] && ':' !in Split(s, ':')[2];
    }
    if ':' !in a && ':' !in b && ':' !in c {
      SplitCons(a, ':', b + ":" + c);
      SplitCons(b, ':', c);
      SplitPiece(c, ':');
    }
  }

  lemma ShortMatches(pointer: string, e: Indexed, number: string, author: string)
    requires Split(pointer, ':') == [number, author]
    ensures FilterMatches(pointer, e) <==> Answers(e, number, author)
  {
    if ParseU32(number).Some? {
      var f := PointerFilter(pointer).value;
      assert f.authors == [author] && f.tags == map[] && f.kinds == RelatedKinds(ParseU32(number).value);
      assert author in f.authors;
    }
  }

  lemma LongMatches(pointer: string, e: Indexed, number: string, author: string, d: string)
    requires Split(pointer, ':') == [number, author, d]
    ensures FilterMatches(pointer, e) <==> Answers(e, number, author) && "d" in e.index && d in e.index["d"]
  {
    if ParseU32(number).Some? {
      var f := PointerFilter(pointer).value;
      assert f.authors == [author] && f.kinds == RelatedKinds(ParseU32(number).value);
      assert author in f.authors && d in [d];
      assert "d" in f.tags && f.tags["d"] == [d];
    }
  }

  lemma PointerSound(pointer: string, e: Indexed)
    requires FilterMatches(pointer, e)
    ensures PointsTo(pointer, e)
  {
    var parts := Split(pointer, ':');
    if |parts| == 2 {
      assert parts == [parts[0], parts[1]];
      ShortMatches(pointer, e, parts[0], parts[1]);
      SplitTwo(pointer, parts[0], parts[1]);
      assert PointsShort(pointer, e, parts[0], parts[1]);
    } else {
      assert parts == [parts[0], parts[1], parts[2]];
      LongMatches(pointer, e, parts[0], parts[1], parts[2]);
      SplitThree(pointer, parts[0], parts[1], parts[2]);
      assert PointsLong(pointer, e, parts[0], parts[1], parts[2]);
    }
  }

  /** What the filter of a pointer matches. */
  lemma PointerMeaning(pointer: string, e: Indexed)
    ensures FilterMatches(pointer, e) <==> PointsTo(pointer, e)
  {
    if FilterMatches(pointer, e) {
      PointerSound(pointer, e);
    }
    if number, author :| PointsShort(pointer, e, number, author) {
      SplitTwo(pointer, number, author);
      ShortMatches(pointer, e, number, author);
    }
    if number, author, d :| PointsLong(pointer, e, number, author, d) {
      SplitThree(pointer, number, author, d);
      LongMatches(pointer, e, number, author, d);
    }
  }

  /** The event carries the tag with a value that the other event refers to as an id. */
  ghost predicate TaggedId(e: Indexed, name: string, kind: nat, eventId: string, tags: seq<Tag>) {
    name in e.index && exists v :: v in e.index[name] && RefersToId(kind, eventId, tags, v)
  }

  ghost predicate TaggedAddress(e: Indexed, name: string, kind: nat, pubkey: string, tags: seq<Tag>) {
    name in e.index && exists v :: v in e.index[name] && RefersToAddress(kind, pubkey, tags, v)
  }

  /** Related by raw tags: the event's id extends one referred to, a pointer leads to it, or it
      carries a reference in both spellings or as a quote. */
  ghost predicate IsRelated(kind: nat, pubkey: string, eventId: string, tags: seq<Tag>, e: Indexed) {
    || (exists v :: RefersToId(kind, eventId, tags, v) && v <= e.id)
    || (exists p :: RefersToAddress(kind, pubkey, tags, p) && PointsTo(p, e))
    || (TaggedId(e, "e", kind, eventId, tags) && TaggedId(e, "E", kind, eventId, tags))
    || (TaggedAddress(e, "a", kind, pubkey, tags) && TaggedAddress(e, "A", kind, pubkey, tags))
    || TaggedId(e, "q", kind, eventId, tags) || TaggedAddress(e, "q", kind, pubkey, tags)
  }

  lemma TaggedMeaning(e: Indexed, name: string, kind: nat, pubkey: string, eventId: string, tags: seq<Tag>)
    ensures var refs := ReferencesWithSelf(kind, pubkey, eventId, tags);
            && (Tagged(e, name, refs.eventIds) <==> TaggedId(e, name, kind, eventId, tags))
            && (Tagged(e, name, refs.addressPointers) <==> TaggedAddress(e, name, kind, pubkey, tags))
            && (Tagged(e, name, refs.addressPointers + refs.eventIds) <==>
                Tagged(e, name, refs.eventIds) || Tagged(e, name, refs.addressPointers))
  {
    var refs := ReferencesWithSelf(kind, pubkey, eventId, tags);
    forall v ensures v in refs.eventIds <==> RefersToId(kind, eventId, tags, v)
             ensures v in refs.addressPointers <==> RefersToAddress(kind, pubkey, tags, v)
    {
      ReferencesWithSelfMeaning(kind, pubkey, eventId, tags, v);
    }
  }

  lemma AddressedByTags(e: Indexed, kind: nat, pubkey: string, eventId: string, tags: seq<Tag>)
    ensures var refs := ReferencesWithSelf(kind, pubkey, eventId, tags);
            && (PrefixOfSome(e.id, refs.eventIds) <==> exists v :: RefersToId(kind, eventId, tags, v) && v <= e.id)
            && (Addressed(refs, e) <==> exists p :: RefersToAddress(kind, pubkey, tags, p) && PointsTo(p, e))
  {
    forall v {
      ReferencesWithSelfMeaning(kind, pubkey, eventId, tags, v);
    }
    forall p ensures FilterMatches(p, e) <==> PointsTo(p, e) {
      PointerMeaning(p, e);
    }
  }

  /** The filters of an event match exactly the events related to it. */
  lemma RelatedByTags(kind: nat, pubkey: string, eventId: string, tags: seq<Tag>, e: Indexed)
    ensures MatchesSome(RelatedFilters(ReferencesWithSelf(kind, pubkey, eventId, tags)), e) <==>
            IsRelated(kind, pubkey, eventId, tags, e)
  {
    RelatedMeaning(ReferencesWithSelf(kind, pubkey, eventId, tags), e);
    AddressedByTags(e, kind, pubkey, eventId, tags);
    TaggedMeaning(e, "e", kind, pubkey, eventId, tags);
    TaggedMeaning(e, "E", kind, pubkey, eventId, tags);
    TaggedMeaning(e, "a", kind, pubkey, eventId, tags);
    TaggedMeaning(e, "A", kind, pubkey, eventId, tags);
    TaggedMeaning(e, "q", kind, pubkey, eventId, tags);
  }

  /** Every filter asks for one event. */
  lemma FiltersAskForOne(refs: EventReferences, f: EventFilter)
    requires f in RelatedFilters(refs)
    ensures f.limit == Some(1)
  {
    PointerFiltersMember(refs.addressPointers, f);
  }

  /** The filters, spelled out: ids, pointers, event references, address references, quotes. */
  lemma FiltersForm(refs: EventReferences)
    ensures RelatedFilters(refs) ==
            (if refs.eventIds == [] then [] else [EventFilter(refs.eventIds, [], [], map[], Some(1))])
            + PointerFilters(refs.addressPointers)
            + (if refs.eventIds == [] then []
               else [EventFilter([], [], [], map["e" := refs.eventIds, "E" := refs.eventIds], Some(1))])
            + (if refs.addressPointers == [] then []
               else [EventFilter([], [], [], map["a" := refs.addressPointers, "A" := refs.addressPointers], Some(1))])
            + [EventFilter([], [], [], map["q" := refs.addressPointers + refs.eventIds], Some(1))]
  {
  }

  /** A reply that carries its event reference only as an "e" tag, its address reference in
      at most one spelling, and no quote, is not found, whatever other tags it has. */
  lemma PlainReplyMissed(refs: EventReferences, e: Indexed)
    requires Tagged(e, "e", refs.eventIds)
    requires "E" !in e.index && ("a" !in e.index || "A" !in e.index) && "q" !in e.index
    requires !PrefixOfSome(e.id, refs.eventIds) && !Addressed(refs, e)
    ensures !MatchesSome(RelatedFilters(refs), e)
  {
    RelatedMeaning(refs, e);
  }

  /** A reply to event "x" that its filters do not find. */
  lemma MissedReply(e: Indexed)
    requires e == Indexed("y", 1, "p", map["e" := ["x"], "p" := ["p"]])
    ensures Tagged(e, "e", ["x"]) && !MatchesSome(RelatedFilters(EventReferences(["x"], [])), e)
  {
    var refs := EventReferences(["x"], []);
    assert "x" in ["x"] && "x" in e.index["e"];
    assert "x"[0] == 'x' && "y"[0] == 'y';
    PlainReplyMissed(refs, e);
  }

  // ---- the pointer to the event itself

  lemma DigitsHaveNoColon(n: nat)
    ensures ':' !in PrintNat(n)
  {
  }

  /** The filter that names a kind, an author and, when there is one, an identifier. */
  function OwnFilter(kind: U32, pubkey: string, identifier: Option<string>): (r: EventFilter) {
    EMPTY.(kinds := RelatedKinds(kind),
           authors := [pubkey],
           tags := if identifier.Some? then map["d" := [identifier.value]] else map[])
  }

  /** The filter of an addressable event's own pointer. With an identifier it names kind,
      author and identifier exactly when neither field holds a colon, and otherwise does not
      exist. Without one it names kind and author; there one colon in the author is read as
      the start of an identifier. */
  lemma SelfPointerFilter(kind: U32, pubkey: string, identifier: Option<string>)
    ensures PointerFilter(SelfPointer(kind, pubkey, identifier)) ==
            match identifier {
              case Some(d) => if ':' in pubkey || ':' in d then None else Some(OwnFilter(kind, pubkey, identifier))
              case None =>
                var parts := Split(pubkey, ':');
                if |parts| == 1 then Some(OwnFilter(kind, pubkey, None))
                else if |parts| == 2 then Some(OwnFilter(kind, parts[0], Some(parts[1])))
                else None
            }
  {
    if identifier.Some? {
      FullPointerFilter(kind, pubkey, identifier.value);
    } else {
      DigitsHaveNoColon(kind);
      ParsePrintU32(kind);
      SplitCons(PrintNat(kind), ':', pubkey);
      AloneIsItself(pubkey);
    }
  }

  lemma AloneIsItself(s: string)
    ensures |Split(s, ':')| == 1 ==> Split(s, ':') == [s]
  {
    SplitSize(s, ':');
    if ':' !in s {
      SplitPiece(s, ':');
    }
  }

  lemma FullPointerFilter(kind: U32, pubkey: string, identifier: string)
    ensures PointerFilter(SelfPointer(kind, pubkey, Some(identifier))) ==
            if ':' in pubkey || ':' in identifier then None else Some(OwnFilter(kind, pubkey, Some(identifier)))
  {
    DigitsHaveNoColon(kind);
    ParsePrintU32(kind);
    SplitCons(PrintNat(kind), ':', pubkey + ":" + identifier);
    SplitConcat(pubkey, identifier, ':');
    SplitSize(pubkey, ':');
    SplitSize(identifier, ':');
    if ':' !in pubkey {
      SplitCons(pubkey, ':', identifier);
      if ':' !in identifier {
        SplitPiece(identifier, ':');
      }
    }
  }

  /** So an addressable event, with a `d` tag or without, finds itself among its related events. */
  lemma FindsItself(kind: U32, pubkey: string, eventId: string, tags: seq<Tag>, e: Indexed)
    requires IsAddressableKind(kind) && ':' !in pubkey
    requires e.kind == kind && e.pubkey == pubkey
    requires var d := FindDTag(tags); d.Some? ==> ':' !in d.value && Tagged(e, "d", [d.value])
    ensures MatchesSome(RelatedFilters(ReferencesWithSelf(kind, pubkey, eventId, tags)), e)
  {
    var refs, pointer := ReferencesWithSelf(kind, pubkey, eventId, tags), SelfPointer(kind, pubkey, FindDTag(tags));
    SelfPointerFilter(kind, pubkey, FindDTag(tags));
    SplitSize(pubkey, ':');
    assert pointer in refs.addressPointers;
    assert pubkey in [pubkey] && StartsWith(e.pubkey, pubkey);
    assert Matches(PointerFilter(pointer).value, e);
    RelatedMeaning(refs, e);
  }
}
