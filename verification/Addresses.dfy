/** Colon-separated addresses (crates/core/src/nip34_common.rs). */
module Addresses {
  import opened Wrappers
  import opened Text

  /** `str::split`: the pieces between separators, at least one. */
  function Split(s: string, c: char): (r: seq<string>)
    ensures |r| >= 1
  {
    if s == "" then [""]
    else
      var rest := Split(s[1..], c);
      if s[0] == c then [""] + rest else [[s[0]] + rest[0]] + rest[1..]
  }

  function Join(parts: seq<string>, c: char): (r: string)
    requires parts != []
  {
    if |parts| == 1 then parts[0] else parts[0] + [c] + Join(parts[1..], c)
  }

  lemma {:induction false} JoinSplit(s: string, c: char)
    ensures Join(Split(s, c), c) == s
    ensures forall i :: 0 <= i < |Split(s, c)| ==> c !in Split(s, c)[i]
  {
    if s != "" {
      var rest := Split(s[1..], c);
      JoinSplit(s[1..], c);
      assert s == [s[0]] + s[1..];
      if s[0] == c {
        assert ([""] + rest)[1..] == rest;
      } else {
        var r := [[s[0]] + rest[0]] + rest[1..];
        assert r[1..] == rest[1..];
        if |rest| > 1 {
          assert r[0] + [c] + Join(r[1..], c) == [s[0]] + (rest[0] + [c] + Join(rest[1..], c));
        }
      }
    }
  }

  lemma {:induction false} SplitPiece(piece: string, c: char)
    requires c !in piece
    ensures Split(piece, c) == [piece]
  {
    if piece != "" {
      SplitPiece(piece[1..], c);
      assert piece == [piece[0]] + piece[1..];
    }
  }

  lemma {:induction false} SplitCons(piece: string, c: char, rest: string)
    requires c !in piece
    ensures Split(piece + [c] + rest, c) == [piece] + Split(rest, c)
  {
    var s := piece + [c] + rest;
    if piece == "" {
      assert s[1..] == rest;
    } else {
      SplitCons(piece[1..], c, rest);
      assert s[1..] == piece[1..] + [c] + rest;
      assert piece == [piece[0]] + piece[1..];
    }
  }

  /** The number of pieces counts the separators, so a separator inside a field is seen. */
  lemma {:induction false} SplitConcat(a: string, b: string, c: char)
    ensures |Split(a + [c] + b, c)| == |Split(a, c)| + |Split(b, c)|
  {
    var s := a + [c] + b;
    if a == "" {
      assert s[1..] == b;
    } else {
      SplitConcat(a[1..], b, c);
      assert s[1..] == a[1..] + [c] + b;
    }
  }

  lemma {:induction false} SplitSize(s: string, c: char)
    ensures |Split(s, c)| == 1 <==> c !in s
  {
    if s != "" {
      SplitSize(s[1..], c);
      assert s == [s[0]] + s[1..];
    }
  }

  /** `is_hex_hash`: a SHA-1 or a SHA-256 in hex. */
  predicate IsHexHash(s: string) {
    IsHexLen(s, 40) || IsHexLen(s, 64)
  }

  // ---- repository addresses

  const REPO_KIND := "30617"

  datatype RepoAddress = RepoAddress(pubkey: string, identifier: string)

  function New(pubkey: string, identifier: string): (r: Result<RepoAddress, CoreError>) {
    if pubkey == "" || !IsHexLen(pubkey, 64) || identifier == "" then Err(InvalidField("a"))
    else Ok(RepoAddress(pubkey, identifier))
  }

  /** `splitn(4, ':')` with a fourth piece refused: exactly three pieces. */
  function Parse(value: string): (r: Result<RepoAddress, CoreError>) {
    var parts := Split(value, ':');
    if |parts| != 3 || parts[0] != REPO_KIND || parts[1] == "" || parts[2] == "" then Err(InvalidField("a"))
    else New(parts[1], parts[2])
  }

  function Display(a: RepoAddress): (r: string) {
    REPO_KIND + ":" + (a.pubkey + ":" + a.identifier)
  }

  /** Display and parse are inverse: an address parses back exactly when it is one `new`
      accepts and its identifier has no colon, which `new` itself does not require. */
  lemma DisplayParse(a: RepoAddress)
    ensures Parse(Display(a)) == Ok(a) <==> New(a.pubkey, a.identifier).Ok? && ':' !in a.identifier
    ensures Parse(Display(a)).Ok? ==> Parse(Display(a)) == Ok(a)
  {
    var tail := a.pubkey + ":" + a.identifier;
    SplitCons(REPO_KIND, ':', tail);
    SplitConcat(a.pubkey, a.identifier, ':');
    SplitSize(a.pubkey, ':');
    SplitSize(a.identifier, ':');
    if ':' !in a.pubkey {
      SplitCons(a.pubkey, ':', a.identifier);
      if ':' !in a.identifier {
        SplitPiece(a.identifier, ':');
      }
    }
  }

  /** Exactly the texts that are addresses. */
  lemma ParseMeaning(value: string, a: RepoAddress)
    ensures Parse(value) == Ok(a) <==>
            && value == "30617:" + a.pubkey + ":" + a.identifier
            && |a.pubkey| == 64 && (forall i :: 0 <= i < 64 ==> IsHexDigit(a.pubkey[i]))
            && a.identifier != "" && ':' !in a.identifier
    ensures Parse(value).Err? ==> Parse(value) == Err(InvalidField("a"))
  {
    var text := "30617:" + a.pubkey + ":" + a.identifier;
    assert Display(a) == text;
    DisplayParse(a);
    if Parse(value) == Ok(a) {
      ParseDisplay(value);
    }
  }

  /** An address that `new` accepts and `parse` does not read back. */
  lemma ColonIsLost(pubkey: string)
    requires IsHexLen(pubkey, 64)
    ensures New(pubkey, "a:b") == Ok(RepoAddress(pubkey, "a:b"))
    ensures Parse(Display(RepoAddress(pubkey, "a:b"))).Err?
  {
    assert "a:b"[1] == ':';
    DisplayParse(RepoAddress(pubkey, "a:b"));
  }

  lemma ParseDisplay(value: string)
    requires Parse(value).Ok?
    ensures Display(Parse(value).value) == value
  {
    var parts := Split(value, ':');
    JoinSplit(value, ':');
    assert Join(parts[1..], ':') == parts[1] + [':'] + parts[2];
    assert Join(parts, ':') == parts[0] + [':'] + (parts[1] + [':'] + parts[2]);
  }
}
