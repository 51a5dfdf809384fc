/** What the fields of a parsed event mean in terms of the raw tags, by position. */
module Reading {
  import opened Wrappers
  import opened Sorting
  import opened Tags

  /** What one tag gives to a field: no value, one, or several. */
  type Reader = Tag -> seq<string>

  /** Every value of a tag with the name. */
  function SlotsOf(name: string): (r: Reader) {
    (tag: Tag) => if |tag| >= 1 && tag[0] == name then tag[1..] else []
  }

  /** The first value of a tag with the name. */
  function HeadOf(name: string): (r: Reader) {
    (tag: Tag) => if |tag| >= 2 && tag[0] == name then [tag[1]] else []
  }

  /** The first value of a tag with the name and the marker in its fourth slot. */
  function MarkedOf(name: string, marker: string): (r: Reader) {
    (tag: Tag) => if |tag| >= 4 && tag[0] == name && tag[3] == marker then [tag[1]] else []
  }

  // ---- scalar fields

  /** The value is the one the last giving item gives, and absent when no item gives any. */
  ghost predicate LastOne<T>(value: Option<string>, items: seq<T>, give: T -> seq<string>) {
    match value
    case None => forall i :: 0 <= i < |items| ==> give(items[i]) == []
    case Some(v) => exists i :: && 0 <= i < |items| && give(items[i]) == [v]
                                && forall j :: i < j < |items| ==> give(items[j]) == []
  }

  lemma GivenNotMissing<T>(v: string, items: seq<T>, give: T -> seq<string>)
    requires LastOne(Some(v), items, give)
    ensures !LastOne(None, items, give)
  {
  }

  lemma LastOneUnique<T>(a: Option<string>, b: Option<string>, items: seq<T>, give: T -> seq<string>)
    requires LastOne(a, items, give) && LastOne(b, items, give)
    ensures a == b
  {
  }

  // ---- list fields

  /** The first `v` in the list comes before every `w`. */
  ghost predicate Earlier(list: seq<string>, v: string, w: string) {
    exists p :: 0 <= p < |list| && list[p] == v && w !in list[..p]
  }

  /** The items give the first `v` before every `w`. */
  ghost predicate EarlierIn<T>(items: seq<T>, give: T -> seq<string>, v: string, w: string) {
    exists i :: && 0 <= i < |items| && Earlier(give(items[i]), v, w)
                && forall j :: 0 <= j < i ==> w !in give(items[j])
  }

  ghost predicate Given<T>(items: seq<T>, give: T -> seq<string>, v: string) {
    exists i :: 0 <= i < |items| && v in give(items[i])
  }

  /** The list holds exactly the values the items give, each once, in the order in which they
      are first given. */
  ghost predicate FirstOccurrences<T>(list: seq<string>, items: seq<T>, give: T -> seq<string>) {
    && NoDuplicates(list)
    && (forall v :: v in list <==> Given(items, give, v))
    && (forall v, w :: v != w ==> (Earlier(list, v, w) <==> EarlierIn(items, give, v, w)))
  }

  // ---- everything the items give

  function Gathered<T>(items: seq<T>, give: T -> seq<string>): (r: seq<string>) {
    if items == [] then [] else Gathered(items[..|items| - 1], give) + give(items[|items| - 1])
  }

  lemma EarlierConcat(a: seq<string>, b: seq<string>, v: string, w: string)
    ensures Earlier(a + b, v, w) <==> Earlier(a, v, w) || (w !in a && Earlier(b, v, w))
  {
    if p :| 0 <= p < |a + b| && (a + b)[p] == v && w !in (a + b)[..p] {
      if p < |a| {
        assert (a + b)[..p] == a[..p];
      } else {
        assert (a + b)[..p] == a + b[..p - |a|];
      }
    }
    if p :| 0 <= p < |a| && a[p] == v && w !in a[..p] {
      assert (a + b)[p] == v && (a + b)[..p] == a[..p];
    }
    if w !in a {
      if p :| 0 <= p < |b| && b[p] == v && w !in b[..p] {
        assert (a + b)[|a| + p] == v && (a + b)[..|a| + p] == a + b[..p];
      }
    }
  }

  lemma EarlierInPush<T>(items: seq<T>, give: T -> seq<string>, v: string, w: string)
    requires items != []
    ensures var n := |items| - 1;
            && (Given(items, give, w) <==> Given(items[..n], give, w) || w in give(items[n]))
            && (EarlierIn(items, give, v, w) <==>
                || EarlierIn(items[..n], give, v, w)
                || (!Given(items[..n], give, w) && Earlier(give(items[n]), v, w)))
  {
    var n := |items| - 1;
    var init := items[..n];
    assert forall i :: 0 <= i < n ==> init[i] == items[i];
  }

  lemma {:induction false} GatheredOrder<T>(items: seq<T>, give: T -> seq<string>, v: string, w: string)
    ensures w in Gathered(items, give) <==> Given(items, give, w)
    ensures Earlier(Gathered(items, give), v, w) <==> EarlierIn(items, give, v, w)
  {
    if items != [] {
      var n := |items| - 1;
      GatheredOrder(items[..n], give, v, w);
      EarlierConcat(Gathered(items[..n], give), give(items[n]), v, w);
      EarlierInPush(items, give, v, w);
    }
  }

  lemma {:induction false} DedupEarlier(s: seq<string>, v: string, w: string)
    requires v != w
    ensures Earlier(Dedup(s), v, w) <==> Earlier(s, v, w)
  {
    if s != [] {
      var n := |s| - 1;
      var init, last := s[..n], [s[n]];
      assert s == init + last;
      DedupEarlier(init, v, w);
      DedupElements(init);
      EarlierConcat(init, last, v, w);
      EarlierConcat(Dedup(init), last, v, w);
      if s[n] in init && v == s[n] && w !in init {
        InIsEarlier(init, v, w);
      }
    }
  }

  lemma InIsEarlier(s: seq<string>, v: string, w: string)
    requires v in s && w !in s
    ensures Earlier(s, v, w)
  {
    var p :| 0 <= p < |s| && s[p] == v;
    assert w !in s[..p];
  }

  /** The first occurrences of everything the items give. */
  lemma DedupReads<T>(items: seq<T>, give: T -> seq<string>)
    ensures FirstOccurrences(Dedup(Gathered(items, give)), items, give)
  {
    var all := Gathered(items, give);
    DedupElements(all);
    forall v ensures v in Dedup(all) <==> Given(items, give, v) {
      GatheredOrder(items, give, v, v);
    }
    forall v, w | v != w ensures Earlier(Dedup(all), v, w) <==> EarlierIn(items, give, v, w) {
      DedupEarlier(all, v, w);
      GatheredOrder(items, give, v, w);
    }
  }

  lemma {:induction false} LastReads<T>(items: seq<T>, give: T -> seq<string>)
    requires forall x :: |give(x)| <= 1
    ensures LastOne(Last(Gathered(items, give)), items, give)
  {
    if items != [] {
      var n := |items| - 1;
      var given := give(items[n]);
      if given == [] {
        LastReads(items[..n], give);
        LastStays(Last(Gathered(items[..n], give)), items, give);
        assert Gathered(items, give) == Gathered(items[..n], give);
      } else {
        assert given == [given[0]];
      }
    }
  }

  lemma LastStays<T>(value: Option<string>, items: seq<T>, give: T -> seq<string>)
    requires items != [] && give(items[|items| - 1]) == [] && LastOne(value, items[..|items| - 1], give)
    ensures LastOne(value, items, give)
  {
    var n := |items| - 1;
    var init := items[..n];
    if value.Some? {
      var i :| && 0 <= i < |init| && give(init[i]) == [value.value]
               && forall j :: i < j < |init| ==> give(init[j]) == [];
      forall j | i < j < |items| ensures give(items[j]) == [] {
        assert j < n ==> items[j] == init[j];
      }
      assert give(items[i]) == [value.value];
    } else {
      forall i | 0 <= i < |items| ensures give(items[i]) == [] {
        assert i < n ==> items[i] == init[i];
      }
    }
  }

  // ---- the fields of the codecs

  lemma {:induction false} ValuesGathered(tags: seq<Tag>, name: string)
    ensures Values(Named(tags, name)) == Gathered(tags, SlotsOf(name))
  {
    if tags != [] {
      var n := |tags| - 1;
      ValuesGathered(tags[..n], name);
      assert tags == tags[..n] + [tags[n]];
      NamedPush(tags[..n], tags[n], name);
      if HasName(tags[n], name) {
        ValuesPush(Named(tags[..n], name), tags[n]);
      }
    }
  }

  lemma {:induction false} HeadsGathered(tags: seq<Tag>, name: string)
    ensures Heads(Named(tags, name)) == Gathered(tags, HeadOf(name))
  {
    if tags != [] {
      var n := |tags| - 1;
      HeadsGathered(tags[..n], name);
      assert tags == tags[..n] + [tags[n]];
      NamedPush(tags[..n], tags[n], name);
      HeadsPush(Named(tags[..n], name), tags[n]);
    }
  }

  lemma {:induction false} MarkedGathered(tags: seq<Tag>, name: string, marker: string)
    ensures Marked(Named(tags, name), marker) == Gathered(tags, MarkedOf(name, marker))
  {
    if tags != [] {
      var n := |tags| - 1;
      MarkedGathered(tags[..n], name, marker);
      assert tags == tags[..n] + [tags[n]];
      MarkedNext(tags[..n], tags[n], name, marker);
      assert MarkedOf(name, marker)(tags[n]) ==
             if HasName(tags[n], name) && IsMarked(tags[n], marker) then [tags[n][1]] else [];
    }
  }

  lemma MarkedNext(tags: seq<Tag>, tag: Tag, name: string, marker: string)
    ensures Marked(Named(tags + [tag], name), marker) ==
            Marked(Named(tags, name), marker) + if HasName(tag, name) && IsMarked(tag, marker) then [tag[1]] else []
  {
    NamedPush(tags, tag, name);
    MarkedPush(Named(tags, name), tag, marker);
  }

  lemma ReadsValues(tags: seq<Tag>, name: string)
    ensures FirstOccurrences(UniqueValues(tags, name), tags, SlotsOf(name))
  {
    ValuesGathered(tags, name);
    DedupReads(tags, SlotsOf(name));
  }

  lemma ReadsHeads(tags: seq<Tag>, name: string)
    ensures FirstOccurrences(UniqueHeads(tags, name), tags, HeadOf(name))
  {
    HeadsGathered(tags, name);
    DedupReads(tags, HeadOf(name));
  }

  lemma ReadsUniqueMarked(tags: seq<Tag>, name: string, marker: string)
    ensures FirstOccurrences(UniqueMarked(tags, name, marker), tags, MarkedOf(name, marker))
  {
    MarkedGathered(tags, name, marker);
    DedupReads(tags, MarkedOf(name, marker));
  }

  lemma ReadsLast(tags: seq<Tag>, name: string)
    ensures LastOne(LastValue(tags, name), tags, HeadOf(name))
  {
    HeadsGathered(tags, name);
    LastReads(tags, HeadOf(name));
  }

  lemma MissingMeaning(tags: seq<Tag>, name: string)
    ensures LastValue(tags, name).None? <==> LastOne(None, tags, HeadOf(name))
  {
    ReadsLast(tags, name);
    if LastOne(None, tags, HeadOf(name)) {
      LastOneUnique(LastValue(tags, name), None, tags, HeadOf(name));
    }
  }

  lemma ReadsLastMarked(tags: seq<Tag>, name: string, marker: string)
    ensures LastOne(LastMarked(tags, name, marker), tags, MarkedOf(name, marker))
  {
    MarkedGathered(tags, name, marker);
    LastReads(tags, MarkedOf(name, marker));
  }

  lemma ReadsFlag(tags: seq<Tag>, name: string, flag: string)
    ensures HasFlag(tags, name, flag) <==> Given(tags, HeadOf(name), flag)
  {
    HeadsGathered(tags, name);
    GatheredOrder(tags, HeadOf(name), flag, flag);
  }

  // ---- the description determines the list

  lemma EarlierHead(list: seq<string>, v: string, w: string)
    requires NoDuplicates(list) && list != [] && v != w
    ensures Earlier(list, list[0], w)
    ensures v != list[0] ==> !Earlier(list, v, list[0])
  {
    assert list[..0] == [];
    forall p | 0 < p < |list| ensures list[0] in list[..p] {
      assert list[..p][0] == list[0];
    }
  }

  lemma EarlierTail(list: seq<string>, v: string, w: string)
    requires NoDuplicates(list) && list != [] && v != list[0] && w != list[0]
    ensures Earlier(list[1..], v, w) <==> Earlier(list, v, w)
  {
    assert list == [list[0]] + list[1..];
    EarlierConcat([list[0]], list[1..], v, w);
    assert !Earlier([list[0]], v, w);
  }

  ghost predicate SameOrder(a: seq<string>, b: seq<string>) {
    && (forall v :: v in a <==> v in b)
    && (forall v, w :: v != w ==> (Earlier(a, v, w) <==> Earlier(b, v, w)))
  }

  lemma {:induction false} SameOrderUnique(a: seq<string>, b: seq<string>)
    requires NoDuplicates(a) && NoDuplicates(b) && SameOrder(a, b)
    ensures a == b
  {
    SameEmptiness(a, b);
    if a != [] {
      SameFirst(a, b);
      SameTails(a, b);
      SameOrderUnique(a[1..], b[1..]);
      assert a == [a[0]] + a[1..] && b == [b[0]] + b[1..];
    }
  }

  lemma SameEmptiness(a: seq<string>, b: seq<string>)
    requires forall v :: v in a <==> v in b
    ensures a == [] <==> b == []
  {
    assert a != [] ==> a[0] in a;
    assert b != [] ==> b[0] in b;
  }

  lemma SameFirst(a: seq<string>, b: seq<string>)
    requires NoDuplicates(a) && NoDuplicates(b) && SameOrder(a, b) && a != [] && b != []
    ensures a[0] == b[0]
  {
    if a[0] != b[0] {
      EarlierHead(a, a[0], b[0]);
      EarlierHead(b, a[0], b[0]);
    }
  }

  lemma SameTails(a: seq<string>, b: seq<string>)
    requires NoDuplicates(a) && NoDuplicates(b) && SameOrder(a, b) && a != [] && b != [] && a[0] == b[0]
    ensures NoDuplicates(a[1..]) && NoDuplicates(b[1..]) && SameOrder(a[1..], b[1..])
  {
    forall v ensures v in a[1..] <==> v in b[1..] {
      TailMember(a, v);
      TailMember(b, v);
    }
    forall v, w | v != w ensures Earlier(a[1..], v, w) <==> Earlier(b[1..], v, w) {
      TailOrder(a, v, w);
      TailOrder(b, v, w);
    }
  }

  lemma TailMember(a: seq<string>, v: string)
    requires NoDuplicates(a) && a != []
    ensures v in a[1..] <==> v in a && v != a[0]
  {
    assert a == [a[0]] + a[1..];
  }

  lemma TailOrder(a: seq<string>, v: string, w: string)
    requires NoDuplicates(a) && a != [] && v != w
    ensures Earlier(a[1..], v, w) <==>
            v != a[0] && (if w == a[0] then v in a else Earlier(a, v, w))
  {
    TailMember(a, v);
    TailMember(a, w);
    if v != a[0] {
      if w == a[0] {
        if v in a {
          InIsEarlier(a[1..], v, w);
        }
      } else {
        EarlierTail(a, v, w);
      }
    }
  }

  lemma FirstOccurrencesUnique<T>(a: seq<string>, b: seq<string>, items: seq<T>, give: T -> seq<string>)
    requires FirstOccurrences(a, items, give) && FirstOccurrences(b, items, give)
    ensures a == b
  {
    SameOrderUnique(a, b);
  }
}
