/** Tag lists (crates/core/src/tags.rs) and the queries the event codecs are specified by.

    A tag is a list of strings whose first element names it. Every codec field is
    a function of `Named(tags, name)`, the sub-list of the tags with one name, and
    every printed event is a concatenation of blocks with distinct names. */
module Tags {
  import opened Wrappers
  import opened Sorting

  type Tag = seq<string>

  // ---- first-occurrence de-duplication

  function PushUniqueSpec(target: seq<string>, value: string): (r: seq<string>) {
    if value in target then target else target + [value]
  }

  /** The first occurrences of a list, in order. */
  function Dedup(s: seq<string>): (r: seq<string>) {
    if s == [] then [] else PushUniqueSpec(Dedup(s[..|s| - 1]), s[|s| - 1])
  }

  lemma {:induction false} DedupElements(s: seq<string>)
    ensures NoDuplicates(Dedup(s))
    ensures forall x :: x in Dedup(s) <==> x in s
  {
    if s != [] {
      DedupElements(s[..|s| - 1]);
      assert s == s[..|s| - 1] + [s[|s| - 1]];
    }
  }

  lemma {:induction false} DedupFixed(s: seq<string>)
    ensures Dedup(s) == s <==> NoDuplicates(s)
  {
    DedupElements(s);
    if NoDuplicates(s) && s != [] {
      DedupFixed(s[..|s| - 1]);
      assert s == s[..|s| - 1] + [s[|s| - 1]];
    }
  }

  ghost function FirstIndex(s: seq<string>, x: string): (i: nat)
    requires x in s
    ensures i < |s| && s[i] == x && forall j :: 0 <= j < i ==> s[j] != x
  {
    if s[0] == x then 0 else 1 + FirstIndex(s[1..], x)
  }

  lemma FirstIndexUnique(s: seq<string>, x: string, i: nat)
    requires i < |s| && s[i] == x && forall j :: 0 <= j < i ==> s[j] != x
    ensures FirstIndex(s, x) == i
  {
  }

  /** De-duplication keeps the values in the order of their first occurrences. */
  lemma {:induction false} DedupOrder(s: seq<string>, i: nat, j: nat)
    requires i < j < |Dedup(s)|
    ensures Dedup(s)[i] in s && Dedup(s)[j] in s
    ensures FirstIndex(s, Dedup(s)[i]) < FirstIndex(s, Dedup(s)[j])
  {
    DedupElements(s);
    var prefix, last := s[..|s| - 1], s[|s| - 1];
    var d := Dedup(s);
    DedupElements(prefix);
    assert s == prefix + [last];
    FirstIndexInPrefix(prefix, last, d[i]);
    if j < |Dedup(prefix)| {
      DedupOrder(prefix, i, j);
      FirstIndexInPrefix(prefix, last, d[j]);
    } else {
      FirstIndexUnique(s, last, |prefix|);
    }
  }

  lemma FirstIndexInPrefix(prefix: seq<string>, last: string, x: string)
    requires x in prefix
    ensures x in prefix + [last] && FirstIndex(prefix + [last], x) == FirstIndex(prefix, x)
  {
    var k := FirstIndex(prefix, x);
    FirstIndexUnique(prefix + [last], x, k);
  }

  lemma DedupPush(s: seq<string>, x: string)
    ensures Dedup(s + [x]) == PushUniqueSpec(Dedup(s), x)
  {
    assert (s + [x])[..|s|] == s;
  }

  /** `push_unique`, the vector passed by unique reference as an in-out value. */
  method PushUnique(target: seq<string>, value: string) returns (r: seq<string>)
    ensures Elements(r) == Elements(target) + {value} && target <= r
    ensures NoDuplicates(target) ==> NoDuplicates(r)
    ensures r == PushUniqueSpec(target, value)
  {
    r := target;
    if value !in target {
      r := r + [value];
    }
  }

  /** `extend_unique` on a vector that itself grew only by unique pushes. */
  method ExtendUnique(target: seq<string>, values: seq<string>, ghost seen: seq<string>) returns (r: seq<string>)
    requires target == Dedup(seen)
    ensures r == Dedup(seen + values)
  {
    r := target;
    assert seen + values[..0] == seen;
    for i := 0 to |values|
      invariant r == Dedup(seen + values[..i])
    {
      r := PushUnique(r, values[i]);
      DedupPush(seen + values[..i], values[i]);
      assert seen + values[..i + 1] == seen + values[..i] + [values[i]];
    }
    assert values[..|values|] == values;
  }

  // ---- queries

  predicate HasName(tag: Tag, name: string) {
    |tag| > 0 && tag[0] == name
  }

  /** The tags with one name, in order. */
  function Named(tags: seq<Tag>, name: string): (r: seq<Tag>) {
    if tags == [] then []
    else
      var rest, tag := Named(tags[..|tags| - 1], name), tags[|tags| - 1];
      if HasName(tag, name) then rest + [tag] else rest
  }

  /** The value slots `tag[1]` of the tags that have one. */
  function Heads(tags: seq<Tag>): (r: seq<string>) {
    if tags == [] then []
    else
      var rest, tag := Heads(tags[..|tags| - 1]), tags[|tags| - 1];
      if |tag| >= 2 then rest + [tag[1]] else rest
  }

  /** All values `tag[1..]`, concatenated. */
  function Values(tags: seq<Tag>): (r: seq<string>) {
    if tags == [] then []
    else
      var rest, tag := Values(tags[..|tags| - 1]), tags[|tags| - 1];
      if |tag| >= 1 then rest + tag[1..] else rest
  }

  function Last<T>(s: seq<T>): (r: Option<T>) {
    if s == [] then None else Some(s[|s| - 1])
  }

  lemma NamedPush(tags: seq<Tag>, tag: Tag, name: string)
    ensures Named(tags + [tag], name) == if HasName(tag, name) then Named(tags, name) + [tag] else Named(tags, name)
  {
    assert (tags + [tag])[..|tags|] == tags;
  }

  lemma HeadsPush(tags: seq<Tag>, tag: Tag)
    ensures Heads(tags + [tag]) == if |tag| >= 2 then Heads(tags) + [tag[1]] else Heads(tags)
  {
    assert (tags + [tag])[..|tags|] == tags;
  }

  lemma ValuesPush(tags: seq<Tag>, tag: Tag)
    requires |tag| >= 1
    ensures Values(tags + [tag]) == Values(tags) + tag[1..]
  {
    assert (tags + [tag])[..|tags|] == tags;
  }

  /** A scalar field: the value of the last tag with the name. */
  function LastValue(tags: seq<Tag>, name: string): (r: Option<string>) {
    Last(Heads(Named(tags, name)))
  }

  /** A list field with one value per tag: first occurrences. */
  function UniqueHeads(tags: seq<Tag>, name: string): (r: seq<string>) {
    Dedup(Heads(Named(tags, name)))
  }

  /** A list field with many values per tag: first occurrences. */
  function UniqueValues(tags: seq<Tag>, name: string): (r: seq<string>) {
    Dedup(Values(Named(tags, name)))
  }

  /** The event ids of the tags whose fourth slot is the marker. */
  function Marked(tags: seq<Tag>, marker: string): (r: seq<string>) {
    if tags == [] then []
    else
      var rest, tag := Marked(tags[..|tags| - 1], marker), tags[|tags| - 1];
      if IsMarked(tag, marker) then rest + [tag[1]] else rest
  }

  predicate IsMarked(tag: Tag, marker: string) {
    |tag| >= 4 && tag[3] == marker
  }

  lemma MarkedPush(tags: seq<Tag>, tag: Tag, marker: string)
    ensures Marked(tags + [tag], marker) ==
            if IsMarked(tag, marker) then Marked(tags, marker) + [tag[1]] else Marked(tags, marker)
  {
    assert (tags + [tag])[..|tags|] == tags;
  }

  ghost predicate Carries(tags: seq<Tag>, name: string, value: string) {
    exists tag :: tag in tags && HasName(tag, name) && value in tag[1..]
  }

  /** A value is listed exactly when some tag with the name carries it. */
  lemma {:induction false} ValuesMember(tags: seq<Tag>, name: string, value: string)
    ensures value in Values(Named(tags, name)) <==> Carries(tags, name, value)
  {
    if tags != [] {
      var n := |tags| - 1;
      var init, tag := tags[..n], tags[n];
      ValuesMember(init, name, value);
      assert tags == init + [tag];
      if HasName(tag, name) {
        NamedPush(init, tag, name);
        ValuesPush(Named(init, name), tag);
      }
      assert Carries(tags, name, value) <==> Carries(init, name, value) || (HasName(tag, name) && value in tag[1..]);
    }
  }

  lemma {:induction false} LastValueExists(tags: seq<Tag>, name: string)
    ensures LastValue(tags, name).Some? <==> exists tag :: tag in tags && HasName(tag, name) && |tag| >= 2
  {
    if tags != [] {
      var n := |tags| - 1;
      LastValueExists(tags[..n], name);
      ReadLast(tags, n, name);
      assert tags[..n + 1] == tags == tags[..n] + [tags[n]];
    }
  }

  // What reading one more tag does to the fields of one name.

  lemma ReadNamed(tags: seq<Tag>, i: nat, name: string)
    requires i < |tags|
    ensures Named(tags[..i + 1], name) ==
            if HasName(tags[i], name) then Named(tags[..i], name) + [tags[i]] else Named(tags[..i], name)
  {
    assert tags[..i + 1] == tags[..i] + [tags[i]];
    NamedPush(tags[..i], tags[i], name);
  }

  lemma ReadLast(tags: seq<Tag>, i: nat, name: string)
    requires i < |tags|
    ensures LastValue(tags[..i + 1], name) ==
            if HasName(tags[i], name) && |tags[i]| >= 2 then Some(tags[i][1]) else LastValue(tags[..i], name)
  {
    ReadNamed(tags, i, name);
    HeadsPush(Named(tags[..i], name), tags[i]);
  }

  lemma ReadHeads(tags: seq<Tag>, i: nat, name: string)
    requires i < |tags|
    ensures UniqueHeads(tags[..i + 1], name) ==
            if HasName(tags[i], name) && |tags[i]| >= 2
            then PushUniqueSpec(UniqueHeads(tags[..i], name), tags[i][1])
            else UniqueHeads(tags[..i], name)
  {
    ReadNamed(tags, i, name);
    HeadsPush(Named(tags[..i], name), tags[i]);
    if |tags[i]| >= 2 {
      DedupPush(Heads(Named(tags[..i], name)), tags[i][1]);
    }
  }

  lemma ReadValues(tags: seq<Tag>, i: nat, name: string)
    requires i < |tags|
    ensures UniqueValues(tags[..i + 1], name) ==
            if HasName(tags[i], name)
            then Dedup(Values(Named(tags[..i], name)) + tags[i][1..])
            else UniqueValues(tags[..i], name)
  {
    ReadNamed(tags, i, name);
    if HasName(tags[i], name) {
      ValuesPush(Named(tags[..i], name), tags[i]);
    }
  }

  /** The last, and all distinct, event ids with a marker. */
  function LastMarked(tags: seq<Tag>, name: string, marker: string): (r: Option<string>) {
    Last(Marked(Named(tags, name), marker))
  }

  function UniqueMarked(tags: seq<Tag>, name: string, marker: string): (r: seq<string>) {
    Dedup(Marked(Named(tags, name), marker))
  }

  predicate HasMarker(tag: Tag, name: string, marker: string) {
    HasName(tag, name) && IsMarked(tag, marker)
  }

  lemma ReadMarked(tags: seq<Tag>, i: nat, name: string, marker: string)
    requires i < |tags|
    ensures Marked(Named(tags[..i + 1], name), marker) ==
            if HasMarker(tags[i], name, marker)
            then Marked(Named(tags[..i], name), marker) + [tags[i][1]]
            else Marked(Named(tags[..i], name), marker)
  {
    ReadNamed(tags, i, name);
    MarkedPush(Named(tags[..i], name), tags[i], marker);
  }

  lemma ReadLastMarked(tags: seq<Tag>, i: nat, name: string, marker: string)
    requires i < |tags|
    ensures LastMarked(tags[..i + 1], name, marker) ==
            if HasMarker(tags[i], name, marker) then Some(tags[i][1]) else LastMarked(tags[..i], name, marker)
  {
    ReadMarked(tags, i, name, marker);
  }

  lemma ReadUniqueMarked(tags: seq<Tag>, i: nat, name: string, marker: string)
    requires i < |tags|
    ensures UniqueMarked(tags[..i + 1], name, marker) ==
            if HasMarker(tags[i], name, marker)
            then PushUniqueSpec(UniqueMarked(tags[..i], name, marker), tags[i][1])
            else UniqueMarked(tags[..i], name, marker)
  {
    ReadMarked(tags, i, name, marker);
    if HasMarker(tags[i], name, marker) {
      DedupPush(Marked(Named(tags[..i], name), marker), tags[i][1]);
    }
  }

  /** Some tag with the name has the value. */
  predicate HasFlag(tags: seq<Tag>, name: string, flag: string) {
    flag in Heads(Named(tags, name))
  }

  lemma ReadFlag(tags: seq<Tag>, i: nat, name: string, flag: string)
    requires i < |tags|
    ensures HasFlag(tags[..i + 1], name, flag) <==>
            HasFlag(tags[..i], name, flag) || (HasName(tags[i], name) && |tags[i]| >= 2 && tags[i][1] == flag)
  {
    ReadNamed(tags, i, name);
    HeadsPush(Named(tags[..i], name), tags[i]);
  }

  lemma {:induction false} NamedConcat(a: seq<Tag>, b: seq<Tag>, name: string)
    ensures Named(a + b, name) == Named(a, name) + Named(b, name)
  {
    if b == [] {
      assert a + b == a;
    } else {
      var n := |b| - 1;
      NamedConcat(a, b[..n], name);
      assert a + b == (a + b[..n]) + [b[n]] && b == b[..n] + [b[n]];
      NamedPush(a + b[..n], b[n], name);
      NamedPush(b[..n], b[n], name);
    }
  }

  // ---- printed blocks

  ghost predicate AllNamed(tags: seq<Tag>, name: string) {
    forall i :: 0 <= i < |tags| ==> HasName(tags[i], name)
  }

  /** The first `k` runs, concatenated. */
  function Concat(parts: seq<seq<Tag>>, k: nat): (r: seq<Tag>)
    requires k <= |parts|
  {
    if k == 0 then [] else Concat(parts, k - 1) + parts[k - 1]
  }

  /** Printed tags in runs, each run with its own name. */
  ghost predicate Blocks(names: seq<string>, parts: seq<seq<Tag>>) {
    && |names| == |parts|
    && NoDuplicates(names)
    && (forall i :: 0 <= i < |parts| ==> AllNamed(parts[i], names[i]))
  }

  /** A concatenation of few runs, as a sum. */
  lemma ConcatSums(p: seq<seq<Tag>>)
    ensures |p| == 4 ==> Concat(p, 4) == p[0] + p[1] + p[2] + p[3]
    ensures |p| == 7 ==> Concat(p, 7) == p[0] + p[1] + p[2] + p[3] + p[4] + p[5] + p[6]
    ensures |p| == 8 ==> Concat(p, 8) == p[0] + p[1] + p[2] + p[3] + p[4] + p[5] + p[6] + p[7]
    ensures |p| == 9 ==> Concat(p, 9) == p[0] + p[1] + p[2] + p[3] + p[4] + p[5] + p[6] + p[7] + p[8]
    ensures |p| == 10 ==> Concat(p, 10) == p[0] + p[1] + p[2] + p[3] + p[4] + p[5] + p[6] + p[7] + p[8] + p[9]
  {
    assert |p| >= 1 ==> Concat(p, 1) == p[0];
    assert |p| >= 2 ==> Concat(p, 2) == p[0] + p[1];
    assert |p| >= 3 ==> Concat(p, 3) == p[0] + p[1] + p[2];
    assert |p| >= 4 ==> Concat(p, 4) == p[0] + p[1] + p[2] + p[3];
    assert |p| >= 5 ==> Concat(p, 5) == p[0] + p[1] + p[2] + p[3] + p[4];
    assert |p| >= 6 ==> Concat(p, 6) == p[0] + p[1] + p[2] + p[3] + p[4] + p[5];
    assert |p| >= 7 ==> Concat(p, 7) == p[0] + p[1] + p[2] + p[3] + p[4] + p[5] + p[6];
    assert |p| >= 8 ==> Concat(p, 8) == p[0] + p[1] + p[2] + p[3] + p[4] + p[5] + p[6] + p[7];
    assert |p| >= 9 ==> Concat(p, 9) == p[0] + p[1] + p[2] + p[3] + p[4] + p[5] + p[6] + p[7] + p[8];
  }

  lemma {:induction false} NamedUniform(tags: seq<Tag>, own: string, name: string)
    requires AllNamed(tags, own)
    ensures Named(tags, name) == if own == name then tags else []
  {
    if tags != [] {
      var n := |tags| - 1;
      NamedUniform(tags[..n], own, name);
      assert tags == tags[..n] + [tags[n]];
    }
  }

  /** What the last of the first `n` runs adds to the tags with a run's name. */
  lemma NamedLastRun(names: seq<string>, parts: seq<seq<Tag>>, k: nat, n: nat)
    requires Blocks(names, parts) && k < |parts| && 0 < n <= |parts|
    ensures Named(Concat(parts, n), names[k]) ==
            Named(Concat(parts, n - 1), names[k]) + if k == n - 1 then parts[k] else []
  {
    NamedConcat(Concat(parts, n - 1), parts[n - 1], names[k]);
    NamedUniform(parts[n - 1], names[n - 1], names[k]);
    assert names[n - 1] == names[k] <==> k == n - 1;
  }

  lemma {:induction false} NamedAbsent(names: seq<string>, parts: seq<seq<Tag>>, k: nat, n: nat)
    requires Blocks(names, parts) && n <= k < |parts|
    ensures Named(Concat(parts, n), names[k]) == []
  {
    if n > 0 {
      NamedLastRun(names, parts, k, n);
      NamedAbsent(names, parts, k, n - 1);
    }
  }

  /** In printed tags, the tags with a run's name are that run. */
  lemma {:induction false} NamedBlock(names: seq<string>, parts: seq<seq<Tag>>, k: nat, n: nat)
    requires Blocks(names, parts) && k < n <= |parts|
    ensures Named(Concat(parts, n), names[k]) == parts[k]
  {
    NamedLastRun(names, parts, k, n);
    if k < n - 1 {
      NamedBlock(names, parts, k, n - 1);
    } else {
      NamedAbsent(names, parts, k, k);
    }
  }

  /** One two-element tag per value. */
  function Each(name: string, values: seq<string>): (r: seq<Tag>)
    ensures |r| == |values|
    ensures forall i :: 0 <= i < |r| ==> r[i] == [name, values[i]]
    ensures AllNamed(r, name)
  {
    seq(|values|, i requires 0 <= i < |values| => [name, values[i]])
  }

  /** One marked event reference per value. */
  function EachMarked(name: string, values: seq<string>, marker: string): (r: seq<Tag>)
    ensures |r| == |values|
    ensures forall i :: 0 <= i < |r| ==> r[i] == [name, values[i], "", marker]
    ensures AllNamed(r, name)
  {
    seq(|values|, i requires 0 <= i < |values| => [name, values[i], "", marker])
  }

  lemma {:induction false} MarkedConcat(a: seq<Tag>, b: seq<Tag>, marker: string)
    ensures Marked(a + b, marker) == Marked(a, marker) + Marked(b, marker)
  {
    if b == [] {
      assert a + b == a;
    } else {
      var n := |b| - 1;
      MarkedConcat(a, b[..n], marker);
      assert a + b == (a + b[..n]) + [b[n]] && b == b[..n] + [b[n]];
      MarkedPush(a + b[..n], b[n], marker);
      MarkedPush(b[..n], b[n], marker);
    }
  }

  lemma EachMarkedPush(name: string, values: seq<string>, marker: string)
    requires values != []
    ensures var n := |values| - 1;
            EachMarked(name, values, marker) == EachMarked(name, values[..n], marker) + [[name, values[n], "", marker]]
  {
  }

  lemma MarkerOf(name: string, value: string, own: string, marker: string)
    ensures IsMarked([name, value, "", own], marker) <==> own == marker
  {
  }

  lemma {:induction false} MarkedEach(name: string, values: seq<string>, own: string, marker: string)
    ensures Marked(EachMarked(name, values, own), marker) == if own == marker then values else []
  {
    if values != [] {
      var n := |values| - 1;
      MarkedEach(name, values[..n], own, marker);
      EachMarkedPush(name, values, own);
      MarkerOf(name, values[n], own, marker);
      MarkedPush(EachMarked(name, values[..n], own), [name, values[n], "", own], marker);
      assert values == values[..n] + [values[n]];
    }
  }

  /** A tag for a present value, none otherwise. */
  function Maybe(name: string, value: Option<string>): (r: seq<Tag>)
    ensures AllNamed(r, name)
  {
    match value
    case None => []
    case Some(v) => [[name, v]]
  }

  /** `join_tag_values`, printed only when there is a value. */
  function Joined(name: string, values: seq<string>): (r: seq<Tag>)
    ensures AllNamed(r, name)
  {
    if values == [] then [] else [[name] + values]
  }

  lemma {:induction false} HeadsEach(name: string, values: seq<string>)
    ensures Heads(Each(name, values)) == values
  {
    if values != [] {
      var n := |values| - 1;
      HeadsEach(name, values[..n]);
      assert Each(name, values) == Each(name, values[..n]) + [[name, values[n]]];
      HeadsPush(Each(name, values[..n]), [name, values[n]]);
      assert values == values[..n] + [values[n]];
    }
  }

  lemma HeadsMaybe(name: string, value: Option<string>)
    ensures Last(Heads(Maybe(name, value))) == value
  {
    if value.Some? {
      HeadsPush([], [name, value.value]);
      assert [] + [[name, value.value]] == Maybe(name, value);
    }
  }

  lemma ValuesJoined(name: string, values: seq<string>)
    ensures Values(Joined(name, values)) == values
  {
    if values != [] {
      var tag := [name] + values;
      ValuesPush([], tag);
      assert [] + [tag] == Joined(name, values);
      assert tag[1..] == values;
    }
  }

  lemma PrintedMaybe(names: seq<string>, parts: seq<seq<Tag>>, k: nat, value: Option<string>)
    requires Blocks(names, parts) && k < |parts| && parts[k] == Maybe(names[k], value)
    ensures LastValue(Concat(parts, |parts|), names[k]) == value
  {
    NamedBlock(names, parts, k, |parts|);
    HeadsMaybe(names[k], value);
  }

  lemma PrintedJoined(names: seq<string>, parts: seq<seq<Tag>>, k: nat, values: seq<string>)
    requires Blocks(names, parts) && k < |parts| && parts[k] == Joined(names[k], values)
    ensures UniqueValues(Concat(parts, |parts|), names[k]) == Dedup(values)
  {
    NamedBlock(names, parts, k, |parts|);
    ValuesJoined(names[k], values);
  }

  lemma PrintedEach(names: seq<string>, parts: seq<seq<Tag>>, k: nat, values: seq<string>)
    requires Blocks(names, parts) && k < |parts| && parts[k] == Each(names[k], values)
    ensures UniqueHeads(Concat(parts, |parts|), names[k]) == Dedup(values)
  {
    NamedBlock(names, parts, k, |parts|);
    HeadsEach(names[k], values);
  }

  // ---- printing statements

  method PushMaybe(tags: seq<Tag>, name: string, value: Option<string>) returns (r: seq<Tag>)
    ensures r == tags + Maybe(name, value)
  {
    r := tags;
    if value.Some? {
      r := r + [[name, value.value]];
    }
  }

  method PushJoined(tags: seq<Tag>, name: string, values: seq<string>) returns (r: seq<Tag>)
    ensures r == tags + Joined(name, values)
  {
    r := tags;
    if values != [] {
      r := r + [[name] + values];
    }
  }

  method PushEach(tags: seq<Tag>, name: string, values: seq<string>) returns (r: seq<Tag>)
    ensures r == tags + Each(name, values)
  {
    r := tags;
    for i := 0 to |values|
      invariant r == tags + Each(name, values)[..i]
    {
      r := r + [[name, values[i]]];
    }
  }

  method PushEachMarked(tags: seq<Tag>, name: string, values: seq<string>, marker: string) returns (r: seq<Tag>)
    ensures r == tags + EachMarked(name, values, marker)
  {
    r := tags;
    for i := 0 to |values|
      invariant r == tags + EachMarked(name, values, marker)[..i]
    {
      r := r + [[name, values[i], "", marker]];
    }
  }
}
