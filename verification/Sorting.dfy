/** Strings in code-point order and the strictly sorted listing of a set of them. */
module Sorting {

  predicate Less(a: string, b: string) {
    if b == "" then false
    else if a == "" then true
    else a[0] < b[0] || (a[0] == b[0] && Less(a[1..], b[1..]))
  }

  /** A string is less when it is a proper prefix, or smaller at the first difference. */
  lemma {:induction false} LessMeaning(a: string, b: string)
    ensures Less(a, b) <==>
            exists k: nat :: k <= |a| && k < |b| && a[..k] == b[..k] && (k == |a| || a[k] < b[k])
  {
    if a == "" || b == "" {
      assert a == "" && b != "" ==> a[..0] == b[..0];
    } else {
      LessMeaning(a[1..], b[1..]);
      if a[0] < b[0] {
        assert a[..0] == b[..0];
      } else if a[0] == b[0] {
        LessTails(a, b);
      }
    }
  }

  lemma LessTails(a: string, b: string)
    requires a != "" && b != "" && a[0] == b[0]
    ensures (exists k: nat :: k <= |a| && k < |b| && a[..k] == b[..k] && (k == |a| || a[k] < b[k])) <==>
            (exists k: nat :: && k <= |a[1..]| && k < |b[1..]| && a[1..][..k] == b[1..][..k]
                              && (k == |a[1..]| || a[1..][k] < b[1..][k]))
  {
    if k: nat :| k <= |a| && k < |b| && a[..k] == b[..k] && (k == |a| || a[k] < b[k]) {
      assert k > 0;
      assert a[1..][..k - 1] == a[..k][1..] && b[1..][..k - 1] == b[..k][1..];
    }
    if k: nat :| && k <= |a[1..]| && k < |b[1..]| && a[1..][..k] == b[1..][..k]
                 && (k == |a[1..]| || a[1..][k] < b[1..][k]) {
      assert a[..k + 1] == [a[0]] + a[1..][..k] && b[..k + 1] == [b[0]] + b[1..][..k];
    }
  }

  lemma {:induction false} LessTotal(a: string, b: string)
    ensures Less(a, b) || a == b || Less(b, a)
    ensures !(Less(a, b) && Less(b, a))
    ensures Less(a, b) ==> a != b
  {
    if a != "" && b != "" && a[0] == b[0] {
      LessTotal(a[1..], b[1..]);
      assert a == [a[0]] + a[1..] && b == [b[0]] + b[1..];
    }
  }

  lemma {:induction false} LessTransitive(a: string, b: string, c: string)
    requires Less(a, b) && Less(b, c)
    ensures Less(a, c)
  {
    if a != "" && a[0] == b[0] == c[0] {
      LessTransitive(a[1..], b[1..], c[1..]);
    }
  }

  ghost predicate StrictlySorted(s: seq<string>) {
    forall i, j :: 0 <= i < j < |s| ==> Less(s[i], s[j])
  }

  function Elements<T>(s: seq<T>): (r: set<T>) {
    set x | x in s
  }

  ghost predicate NoDuplicates<T>(s: seq<T>) {
    forall i, j :: 0 <= i < j < |s| ==> s[i] != s[j]
  }

  /** The list with one element moved to its end. */
  function MoveLast<T>(s: seq<T>, i: nat): (r: seq<T>)
    requires i < |s|
    ensures multiset(r) == multiset(s) && r != [] && r[|r| - 1] == s[i]
  {
    assert s == s[..i] + [s[i]] + s[i + 1..];
    s[..i] + s[i + 1..] + [s[i]]
  }

  ghost predicate IsListing(s: seq<string>, keys: set<string>) {
    StrictlySorted(s) && Elements(s) == keys
  }

  lemma SortedNoDuplicates(s: seq<string>)
    requires StrictlySorted(s)
    ensures NoDuplicates(s)
  {
    forall i, j | 0 <= i < j < |s| ensures s[i] != s[j] {
      LessTotal(s[i], s[j]);
    }
  }

  lemma ElementsEmpty<T>(s: seq<T>)
    ensures Elements(s) == {} <==> s == []
  {
    if s != [] {
      assert s[0] in Elements(s);
    }
  }

  lemma {:induction false} ListingSize(s: seq<string>)
    requires NoDuplicates(s)
    ensures |s| == |Elements(s)|
  {
    if s != [] {
      var n := |s| - 1;
      ListingSize(s[..n]);
      assert s == s[..n] + [s[n]];
      assert Elements(s) == Elements(s[..n]) + {s[n]};
    }
  }

  /** A set of strings has one strictly sorted listing. */
  lemma {:induction false} ListingUnique(s: seq<string>, t: seq<string>)
    requires StrictlySorted(s) && StrictlySorted(t)
    requires Elements(s) == Elements(t)
    ensures s == t
  {
    if s == [] || t == [] {
      ElementsEmpty(s);
      ElementsEmpty(t);
    } else {
      LastsAgree(s, t);
      var m, n := |s| - 1, |t| - 1;
      SortedNoDuplicates(s);
      SortedNoDuplicates(t);
      assert Elements(s[..m]) == Elements(s) - {s[m]};
      assert Elements(t[..n]) == Elements(t) - {t[n]};
      ListingUnique(s[..m], t[..n]);
      assert s == s[..m] + [s[m]] && t == t[..n] + [t[n]];
    }
  }

  lemma LastsAgree(s: seq<string>, t: seq<string>)
    requires StrictlySorted(s) && StrictlySorted(t) && s != [] && t != []
    requires Elements(s) == Elements(t)
    ensures s[|s| - 1] == t[|t| - 1]
  {
    var x, y := s[|s| - 1], t[|t| - 1];
    assert x in Elements(t) && y in Elements(s);
    var i :| 0 <= i < |t| && t[i] == x;
    var j :| 0 <= j < |s| && s[j] == y;
    LessTotal(x, y);
  }

  /** Where an insertion sort puts a new key. */
  function InsertSorted(s: seq<string>, key: string): (r: seq<string>)
    requires StrictlySorted(s) && key !in s
    ensures IsListing(r, Elements(s) + {key})
  {
    if s == [] || Less(s[|s| - 1], key) then
      InsertAtEnd(s, key);
      s + [key]
    else
      var last, prefix := s[|s| - 1], s[..|s| - 1];
      var r := InsertSorted(prefix, key) + [last];
      InsertBeforeLast(s, key, r);
      r
  }

  lemma InsertAtEnd(s: seq<string>, key: string)
    requires StrictlySorted(s)
    requires s == [] || Less(s[|s| - 1], key)
    ensures IsListing(s + [key], Elements(s) + {key})
  {
    forall i | 0 <= i < |s| ensures Less(s[i], key) {
      if i < |s| - 1 {
        LessTransitive(s[i], s[|s| - 1], key);
      }
    }
  }

  lemma InsertBeforeLast(s: seq<string>, key: string, r: seq<string>)
    requires StrictlySorted(s) && key !in s && s != [] && !Less(s[|s| - 1], key)
    requires r != [] && r[|r| - 1] == s[|s| - 1]
    requires IsListing(r[..|r| - 1], Elements(s[..|s| - 1]) + {key})
    ensures IsListing(r, Elements(s) + {key})
  {
    var last, prefix, q := s[|s| - 1], s[..|s| - 1], r[..|r| - 1];
    assert s == prefix + [last] && r == q + [last];
    LessTotal(last, key);
    forall i | 0 <= i < |q| ensures Less(q[i], last) {
      assert q[i] in Elements(q);
      if q[i] in prefix {
        var j :| 0 <= j < |prefix| && prefix[j] == q[i];
        assert s[j] == q[i];
      }
    }
    forall x ensures x in r <==> x in s || x == key {
      assert x in r <==> x in Elements(q) || x == last;
    }
  }

  /** Collecting a hash set in any order and sorting it gives the set's listing. */
  method SortKeys(keys: set<string>) returns (r: seq<string>)
    ensures IsListing(r, keys)
  {
    r := [];
    var rest := keys;
    while rest != {}
      invariant rest <= keys
      invariant IsListing(r, keys - rest)
      decreases rest
    {
      var key :| key in rest;
      assert key !in Elements(r);
      r := InsertSorted(r, key);
      rest := rest - {key};
      assert keys - rest == (keys - rest - {key}) + {key};
    }
    assert keys - {} == keys;
  }

  lemma {:induction false} ListingExists(keys: set<string>)
    ensures exists s :: IsListing(s, keys)
    decreases keys
  {
    if keys == {} {
      assert IsListing([], keys);
    } else {
      var key :| key in keys;
      ListingExists(keys - {key});
      var s :| IsListing(s, keys - {key});
      var r := InsertSorted(s, key);
      assert (keys - {key}) + {key} == keys;
      assert IsListing(r, keys);
    }
  }

  /** The strictly sorted listing of a set. */
  ghost function Listing(keys: set<string>): (r: seq<string>)
    ensures IsListing(r, keys)
  {
    ListingExists(keys);
    var s :| IsListing(s, keys);
    s
  }
}
