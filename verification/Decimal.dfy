/** Decimal integers as Rust prints and parses them. */
module Decimal {
  import opened Wrappers

  type I64 = x: int | -0x8000_0000_0000_0000 <= x < 0x8000_0000_0000_0000
  type I32 = x: int | -0x8000_0000 <= x < 0x8000_0000
  type U32 = x: int | 0 <= x < 0x1_0000_0000

  function Digit(d: nat): (c: char)
    requires d < 10
    ensures '0' <= c <= '9'
  {
    ('0' as int + d) as char
  }

  function PrintNat(n: nat): (s: string)
    ensures s != ""
    ensures forall i :: 0 <= i < |s| ==> '0' <= s[i] <= '9'
  {
    if n < 10 then [Digit(n)] else PrintNat(n / 10) + [Digit(n % 10)]
  }

  function PrintInt(n: int): (s: string) {
    if n < 0 then "-" + PrintNat(-n) else PrintNat(n)
  }

  /** A non-empty run of digits, leading zeros allowed. */
  function ParseNat(s: string): (r: Option<nat>) {
    if s == "" then None
    else
      var c := s[|s| - 1];
      if !('0' <= c <= '9') then None
      else
        var low := c as int - '0' as int;
        if |s| == 1 then Some(low)
        else
          match ParseNat(s[..|s| - 1])
          case None => None
          case Some(high) => Some(10 * high + low)
  }

  /** `str::parse` for a signed type with the given range: one optional sign,
      then digits, and an error when the value does not fit. */
  function ParseSigned(s: string, lo: int, hi: int): (r: Option<int>)
    ensures r.Some? ==> lo <= r.value < hi
  {
    var magnitude :=
      if s != "" && (s[0] == '+' || s[0] == '-') then ParseNat(s[1..]) else ParseNat(s);
    match magnitude
    case None => None
    case Some(n) =>
      var v := if s[0] == '-' then -(n as int) else n as int;
      if lo <= v < hi then Some(v) else None
  }

  function ParseI64(s: string): (r: Option<I64>) {
    match ParseSigned(s, -0x8000_0000_0000_0000, 0x8000_0000_0000_0000)
    case None => None
    case Some(v) => Some(v)
  }

  function ParseI32(s: string): (r: Option<I32>) {
    match ParseSigned(s, -0x8000_0000, 0x8000_0000)
    case None => None
    case Some(v) => Some(v)
  }

  /** `str::parse::<u32>`: a plus sign is allowed, a minus sign is not. */
  function ParseU32(s: string): (r: Option<U32>) {
    match ParseNat(if s != "" && s[0] == '+' then s[1..] else s)
    case None => None
    case Some(n) => if n < 0x1_0000_0000 then Some(n) else None
  }

  lemma {:induction false} ParsePrintNat(n: nat)
    ensures ParseNat(PrintNat(n)) == Some(n)
  {
    if n >= 10 {
      ParsePrintNat(n / 10);
      var s := PrintNat(n);
      assert s[..|s| - 1] == PrintNat(n / 10);
    }
  }

  lemma ParseWithSign(digits: string, n: nat, lo: int, hi: int)
    requires digits != "" && '0' <= digits[0] <= '9' && ParseNat(digits) == Some(n)
    ensures ParseSigned(digits, lo, hi) == if lo <= n < hi then Some(n) else None
    ensures ParseSigned("-" + digits, lo, hi) == if lo <= -(n as int) < hi then Some(-(n as int)) else None
  {
    assert ("-" + digits)[1..] == digits;
  }

  lemma ParsePrintSigned(n: int, lo: int, hi: int)
    ensures ParseSigned(PrintInt(n), lo, hi) == if lo <= n < hi then Some(n) else None
  {
    var m := if n < 0 then -n else n;
    ParsePrintNat(m);
    ParseWithSign(PrintNat(m), m, lo, hi);
  }

  lemma ParsePrintI64(n: I64)
    ensures ParseI64(PrintInt(n)) == Some(n)
  {
    ParsePrintSigned(n, -0x8000_0000_0000_0000, 0x8000_0000_0000_0000);
  }

  lemma ParsePrintI32(n: I32)
    ensures ParseI32(PrintInt(n)) == Some(n)
  {
    ParsePrintSigned(n, -0x8000_0000, 0x8000_0000);
  }

  lemma ParsePrintU32(n: U32)
    ensures ParseU32(PrintNat(n)) == Some(n)
  {
    ParsePrintNat(n);
    assert '0' <= PrintNat(n)[0] <= '9';
  }

  /** The digits, in order. */
  lemma DigitMeaning(d: nat)
    requires d < 10
    ensures PrintNat(d) == ["0123456789"[d]]
  {
  }

  // ---- exactly the texts that parse

  function Zeros(k: nat): (r: string) {
    seq(k, i => '0')
  }

  /** The text is the decimal form of the number, with any number of zeros in front. */
  ghost predicate Spells(s: string, n: nat) {
    exists k: nat :: s == Zeros(k) + PrintNat(n)
  }

  lemma ParsePush(s: string, d: nat)
    requires d < 10
    ensures ParseNat(s + [Digit(d)]) ==
            if s == "" then Some(d) else if ParseNat(s).None? then None else Some(10 * ParseNat(s).value + d)
  {
    DigitValue(d);
    ParseLast(s, Digit(d));
  }

  lemma DigitValue(d: nat)
    requires d < 10
    ensures '0' <= Digit(d) <= '9' && Digit(d) as int - '0' as int == d
  {
  }

  lemma ParseLast(s: string, c: char)
    requires '0' <= c <= '9'
    ensures var d := c as int - '0' as int;
            ParseNat(s + [c]) ==
            if s == "" then Some(d) else if ParseNat(s).None? then None else Some(10 * ParseNat(s).value + d)
  {
    var t := s + [c];
    assert t != "" && t[|t| - 1] == c;
    if s == "" {
      assert |t| == 1;
    } else {
      assert t[..|t| - 1] == s;
    }
  }

  lemma PrintPush(high: nat, low: nat)
    requires high > 0 && low < 10
    ensures PrintNat(10 * high + low) == PrintNat(high) + [Digit(low)]
  {
  }

  lemma {:induction false} ParsePrefixed(k: nat, n: nat)
    ensures ParseNat(Zeros(k) + PrintNat(n)) == Some(n)
  {
    if n < 10 {
      ParseZeros(k);
      ParsePush(Zeros(k), n);
    } else {
      ParsePrefixed(k, n / 10);
      ParsePush(Zeros(k) + PrintNat(n / 10), n % 10);
      PrintPush(n / 10, n % 10);
      assert Zeros(k) + PrintNat(n) == (Zeros(k) + PrintNat(n / 10)) + [Digit(n % 10)];
    }
  }

  lemma {:induction false} ParseZeros(k: nat)
    ensures ParseNat(Zeros(k)) == if k == 0 then None else Some(0)
  {
    if k > 0 {
      ParseZeros(k - 1);
      assert Zeros(k) == Zeros(k - 1) + [Digit(0)];
      ParsePush(Zeros(k - 1), 0);
    }
  }

  lemma SpellsPush(s: string, high: nat, low: nat)
    requires Spells(s, high) && low < 10
    ensures Spells(s + [Digit(low)], 10 * high + low)
  {
    var k: nat :| s == Zeros(k) + PrintNat(high);
    if high == 0 {
      assert s + [Digit(low)] == Zeros(k + 1) + PrintNat(low);
    } else {
      PrintPush(high, low);
      assert s + [Digit(low)] == Zeros(k) + PrintNat(10 * high + low);
    }
  }

  lemma {:induction false} ParsedSpells(s: string)
    requires ParseNat(s).Some?
    ensures Spells(s, ParseNat(s).value)
  {
    var n := |s| - 1;
    var low := s[n] as int - '0' as int;
    assert s == s[..n] + [Digit(low)];
    ParsePush(s[..n], low);
    if n == 0 {
      assert s == Zeros(0) + PrintNat(low);
    } else {
      ParsedSpells(s[..n]);
      SpellsPush(s[..n], ParseNat(s[..n]).value, low);
    }
  }

  lemma ParseNatMeaning(s: string, n: nat)
    ensures ParseNat(s) == Some(n) <==> Spells(s, n)
  {
    if ParseNat(s).Some? {
      ParsedSpells(s);
    }
    if k: nat :| s == Zeros(k) + PrintNat(n) {
      ParsePrefixed(k, n);
    }
  }

  /** A text parses to a number exactly when the number is in range and the text is its
      decimal form after an optional sign, zeros in front allowed. */
  lemma ParseSignedMeaning(s: string, lo: int, hi: int, v: int)
    ensures ParseSigned(s, lo, hi) == Some(v) <==>
            && lo <= v < hi
            && if "-" <= s then v <= 0 && Spells(s[1..], -v)
               else v >= 0 && Spells(if "+" <= s then s[1..] else s, v)
  {
    var rest := if "+" <= s || "-" <= s then s[1..] else s;
    assert "+" <= s <==> s != "" && s[0] == '+';
    assert "-" <= s <==> s != "" && s[0] == '-';
    if v >= 0 {
      ParseNatMeaning(rest, v);
    }
    if v <= 0 {
      ParseNatMeaning(rest, -v);
    }
  }

  /** The same without a minus sign for 32-bit unsigned numbers. */
  lemma ParseU32Meaning(s: string, v: U32)
    ensures ParseU32(s) == Some(v) <==> Spells(if "+" <= s then s[1..] else s, v)
  {
    assert "+" <= s <==> s != "" && s[0] == '+';
    ParseNatMeaning(if "+" <= s then s[1..] else s, v);
  }
}
