/** Serial numbers: decimal from the signer, hexadecimal in the table, an integer in the revocation list. */
module Serials {
  import opened Strings

  function DigitChar(d: nat): char
    requires d < 16
  {
    "0123456789abcdef"[d]
  }

  function DigitValue(c: char): nat {
    if '0' <= c <= '9' then (c - '0') as nat
    else if 'a' <= c <= 'f' then (c - 'a') as nat + 10
    else if 'A' <= c <= 'F' then (c - 'A') as nat + 10
    else 0
  }

  predicate IsDigit(c: char, base: nat) {
    ('0' <= c <= '9' || 'a' <= c <= 'f' || 'A' <= c <= 'F') && DigitValue(c) < base
  }

  predicate Numeral(s: string, base: nat) {
    s != "" && forall i :: 0 <= i < |s| ==> IsDigit(s[i], base)
  }

  /** `fmt.Sprintf("%x", n)` and `big.Int.String()`: no padding, lower case. */
  function Format(n: nat, base: nat): (s: string)
    requires 2 <= base <= 16
    ensures |s| > 0
    decreases n
  {
    if n < base then [DigitChar(n)] else Format(n / base, base) + [DigitChar(n % base)]
  }

  /** `big.Int.SetString(s, base)` on a numeral. */
  function Parse(s: string, base: nat): nat {
    if s == "" then 0 else Parse(s[..|s| - 1], base) * base + DigitValue(s[|s| - 1])
  }

  lemma {:induction false} DigitRoundTrip(d: nat)
    requires d < 16
    ensures DigitValue(DigitChar(d)) == d && LowerChar(DigitChar(d)) == DigitChar(d)
    ensures forall base :: d < base ==> IsDigit(DigitChar(d), base)
    ensures DigitChar(d) == '0' <==> d == 0
  {
    assert "0123456789abcdef" == ['0', '1', '2', '3', '4', '5', '6', '7', '8', '9', 'a', 'b', 'c', 'd', 'e', 'f'];
  }

  lemma {:induction false} DivModIdentity(n: nat, base: nat)
    requires base >= 2
    ensures n / base * base + n % base == n && (n > 0 ==> n / base < n) && (n >= base ==> n / base > 0)
  {
  }

  lemma {:induction false} ParseSnoc(s: string, c: char, base: nat)
    ensures Parse(s + [c], base) == Parse(s, base) * base + DigitValue(c)
  {
    assert (s + [c])[..|s|] == s;
  }

  lemma {:induction false} NumeralSnoc(s: string, c: char, base: nat)
    requires Numeral(s, base) && IsDigit(c, base)
    ensures Numeral(s + [c], base)
  {
  }

  /** `s` spells `n`, without a leading zero unless it is zero. */
  ghost predicate Spells(s: string, n: nat, base: nat) {
    Parse(s, base) == n && Numeral(s, base) && (n > 0 ==> s[0] != '0')
  }

  lemma {:induction false} SpellsDigit(d: nat, base: nat)
    requires d < base <= 16
    ensures Spells([DigitChar(d)], d, base)
  {
    DigitRoundTrip(d);
    ParseSnoc("", DigitChar(d), base);
    assert "" + [DigitChar(d)] == [DigitChar(d)];
    assert Parse("", base) * base == 0;
  }

  lemma {:induction false} SpellsSnoc(init: string, q: nat, d: nat, base: nat)
    requires d < base <= 16 && q > 0 && Spells(init, q, base)
    ensures Spells(init + [DigitChar(d)], q * base + d, base)
  {
    DigitRoundTrip(d);
    ParseSnoc(init, DigitChar(d), base);
    NumeralSnoc(init, DigitChar(d), base);
  }

  lemma {:induction false} FormatSpells(n: nat, base: nat)
    requires 2 <= base <= 16
    ensures Spells(Format(n, base), n, base)
    decreases n
  {
    if n < base {
      SpellsDigit(n, base);
    } else {
      DivModIdentity(n, base);
      FormatSpells(n / base, base);
      SpellsSnoc(Format(n / base, base), n / base, n % base, base);
    }
  }

  lemma {:induction false} ParseFormat(n: nat, base: nat)
    requires 2 <= base <= 16
    ensures Parse(Format(n, base), base) == n && Numeral(Format(n, base), base)
    ensures n > 0 ==> Format(n, base)[0] != '0'
  {
    FormatSpells(n, base);
  }

  /** The stored form: lower case without leading zeros. */
  ghost predicate Canonical(s: string) {
    s != "" && s[0] != '0' && forall i :: 0 <= i < |s| ==> LowerChar(s[i]) == s[i]
  }

  lemma {:induction false} LowerDigit(c: char)
    requires IsDigit(c, 16) && LowerChar(c) == c
    ensures DigitChar(DigitValue(c)) == c
  {
    assert "0123456789abcdef" == ['0', '1', '2', '3', '4', '5', '6', '7', '8', '9', 'a', 'b', 'c', 'd', 'e', 'f'];
  }

  /** A number has one canonical hexadecimal numeral. */
  lemma {:induction false} CanonicalIsUnique(s: string)
    requires Numeral(s, 16) && Canonical(s)
    ensures Parse(s, 16) > 0 && s == Format(Parse(s, 16), 16)
    decreases |s|
  {
    var init, c := s[..|s| - 1], s[|s| - 1];
    LowerDigit(c);
    if |s| == 1 {
      assert init == "" && s == [c];
      assert DigitValue(c) > 0;
    } else {
      CanonicalIsUnique(init);
      var n := Parse(init, 16);
      DivMod(n, DigitValue(c));
      assert s == init + [c];
    }
  }

  lemma {:induction false} DivMod(n: nat, d: nat)
    requires d < 16
    ensures (n * 16 + d) / 16 == n && (n * 16 + d) % 16 == d
  {
  }

  /** How queries and authentication spell a serial before looking it up. */
  function Normalized(s: string): string {
    TrimLeft(ToLower(s), '0')
  }

  lemma {:induction false} ParseZeros(z: string, s: string)
    requires forall i :: 0 <= i < |z| ==> z[i] == '0'
    ensures Parse(z + s, 16) == Parse(s, 16)
    decreases |z| + |s|
  {
    if s == "" {
      assert z + s == z;
      if z != "" {
        ParseZeros(z[..|z| - 1], "");
        assert z[..|z| - 1] + "" == z[..|z| - 1];
      }
    } else {
      ParseZeros(z, s[..|s| - 1]);
      assert (z + s)[..|z + s| - 1] == z + s[..|s| - 1];
    }
  }

  lemma {:induction false} LowerKeepsDigit(c: char)
    requires IsDigit(c, 16)
    ensures IsDigit(LowerChar(c), 16) && DigitValue(LowerChar(c)) == DigitValue(c) &&
            LowerChar(LowerChar(c)) == LowerChar(c)
  {
  }

  lemma {:induction false} LowerSnoc(s: string, c: char)
    ensures ToLower(s + [c]) == ToLower(s) + [LowerChar(c)]
  {
  }

  lemma {:induction false} ParseLower(s: string)
    requires forall i :: 0 <= i < |s| ==> IsDigit(s[i], 16)
    ensures Parse(ToLower(s), 16) == Parse(s, 16)
  {
    if s != "" {
      var init, c := s[..|s| - 1], s[|s| - 1];
      ParseLower(init);
      LowerKeepsDigit(c);
      assert s == init + [c];
      LowerSnoc(init, c);
      ParseSnoc(init, c, 16);
      ParseSnoc(ToLower(init), LowerChar(c), 16);
    }
  }

  lemma {:induction false} LowerNumeral(s: string)
    requires Numeral(s, 16)
    ensures Numeral(ToLower(s), 16) && forall i :: 0 <= i < |s| ==> LowerChar(ToLower(s)[i]) == ToLower(s)[i]
  {
    forall i | 0 <= i < |s| ensures IsDigit(ToLower(s)[i], 16) && LowerChar(ToLower(s)[i]) == ToLower(s)[i] {
      LowerKeepsDigit(s[i]);
    }
  }

  lemma {:induction false} SuffixCanonical(t: string, z: string, r: string)
    requires Numeral(t, 16) && (forall i :: 0 <= i < |t| ==> LowerChar(t[i]) == t[i])
    requires r != "" && r[0] != '0' && t == z + r
    ensures Numeral(r, 16) && Canonical(r)
  {
    forall i | 0 <= i < |r| ensures IsDigit(r[i], 16) && LowerChar(r[i]) == r[i] {
      assert r[i] == t[|z| + i];
    }
  }

  lemma {:induction false} TrimmedIsStored(t: string, r: string)
    requires Numeral(t, 16) && (forall i :: 0 <= i < |t| ==> LowerChar(t[i]) == t[i]) && Parse(t, 16) > 0
    requires r == TrimLeft(t, '0')
    ensures r == Format(Parse(t, 16), 16)
  {
    var z := TrimSplits(t, '0');
    ParseZeros(z, r);
    assert r != "" by { assert Parse("", 16) == 0; }
    SuffixCanonical(t, z, r);
    CanonicalIsUnique(r);
  }

  /** Any zero-padded or re-cased hexadecimal spelling of a positive serial normalises to the stored key. */
  lemma {:induction false} NormalizedIsStored(s: string)
    requires Numeral(s, 16) && Parse(s, 16) > 0
    ensures Normalized(s) == Format(Parse(s, 16), 16)
  {
    ParseLower(s);
    LowerNumeral(s);
    TrimmedIsStored(ToLower(s), Normalized(s));
  }

  /** Decimal from the signer to stored hexadecimal to the integer in the revocation list is the identity. */
  lemma {:induction false} SerialRoundTrip(n: nat)
    requires n > 0
    ensures var stored := Format(Parse(Format(n, 10), 10), 16);
            Parse(stored, 16) == n && Normalized(stored) == stored
  {
    ParseFormat(n, 10);
    ParseFormat(n, 16);
    NormalizedIsStored(Format(n, 16));
  }

  /** `parseInput`: it trims zeros before it removes colons. */
  function ParseInput(s: string): string {
    Remove(TrimLeft(ToLower(s), '0'), ':')
  }

  ghost predicate ColonSpelling(s: string) {
    forall i :: 0 <= i < |s| ==> s[i] == ':' || IsDigit(s[i], 16)
  }

  lemma {:induction false} RemoveCons(h: char, t: string, c: char)
    ensures Remove([h] + t, c) == (if h == c then "" else [h]) + Remove(t, c)
  {
    assert ([h] + t)[1..] == t;
  }

  lemma {:induction false} LowerCons(h: char, t: string)
    ensures ToLower([h] + t) == [LowerChar(h)] + ToLower(t)
  {
  }

  lemma {:induction false} RemoveNothing(s: string, c: char)
    requires forall i :: 0 <= i < |s| ==> s[i] != c
    ensures Remove(s, c) == s
  {
    if s != "" { RemoveNothing(s[1..], c); }
  }

  lemma {:induction false} RemoveAppend(a: string, b: string, c: char)
    ensures Remove(a + b, c) == Remove(a, c) + Remove(b, c)
  {
    if a == "" {
      assert a + b == b;
    } else {
      var h, t := a[0], a[1..];
      RemoveAppend(t, b, c);
      RemoveCons(h, t + b, c);
      RemoveCons(h, t, c);
      assert a == [h] + t && a + b == [h] + (t + b);
    }
  }

  /** Removing colons keeps the digits and their case. */
  lemma {:induction false} RemoveColons(s: string)
    requires ColonSpelling(s)
    ensures forall c :: c in Remove(s, ':') ==> IsDigit(c, 16) && c in s
  {
    if s != "" {
      var h, t := s[0], s[1..];
      RemoveColons(t);
      assert s == [h] + t;
      RemoveCons(h, t, ':');
    }
  }

  /** The first digit comes first. */
  lemma {:induction false} FirstKept(s: string)
    ensures Remove(s, ':') == "" <==> TrimLeft(s, ':') == ""
    ensures Remove(s, ':') != "" ==> Remove(s, ':')[0] == TrimLeft(s, ':')[0]
  {
    if s != "" && s[0] == ':' { FirstKept(s[1..]); }
  }

  lemma {:induction false} LowerRemove(s: string)
    requires ColonSpelling(s)
    ensures Remove(ToLower(s), ':') == ToLower(Remove(s, ':'))
  {
    if s != "" {
      var h, t := s[0], s[1..];
      LowerRemove(t);
      assert s == [h] + t;
      LowerCons(h, t);
      RemoveCons(LowerChar(h), ToLower(t), ':');
      RemoveCons(h, t, ':');
      if h != ':' {
        LowerKeepsDigit(h);
        LowerCons(h, Remove(t, ':'));
      } else {
        assert "" + Remove(t, ':') == Remove(t, ':');
      }
    }
  }

  lemma {:induction false} LowerSpelling(s: string)
    requires ColonSpelling(s)
    ensures ColonSpelling(ToLower(s)) && forall i :: 0 <= i < |s| ==> LowerChar(ToLower(s)[i]) == ToLower(s)[i]
  {
    forall i | 0 <= i < |s|
      ensures (ToLower(s)[i] == ':' || IsDigit(ToLower(s)[i], 16)) && LowerChar(ToLower(s)[i]) == ToLower(s)[i]
    {
      if s[i] != ':' { LowerKeepsDigit(s[i]); }
    }
  }

  /** `parseInput` keeps the number spelled. */
  lemma {:induction false} ParseInputValue(s: string)
    requires ColonSpelling(s)
    ensures Parse(ParseInput(s), 16) == Parse(Remove(s, ':'), 16)
  {
    var z := TrimSplits(ToLower(s), '0');
    CutKeepsValue(z, TrimLeft(ToLower(s), '0'));
    LowerRemove(s);
    RemoveColons(s);
    ParseLower(Remove(s, ':'));
  }

  lemma {:induction false} CutKeepsValue(z: string, u: string)
    requires forall i :: 0 <= i < |z| ==> z[i] == '0'
    ensures Parse(Remove(z + u, ':'), 16) == Parse(Remove(u, ':'), 16)
  {
    RemoveAppend(z, u, ':');
    RemoveNothing(z, ':');
    ParseZeros(z, Remove(u, ':'));
  }

  /** Behind its leading zeros and the colons after them, the spelling goes on with another zero. */
  predicate ZeroBehindColon(s: string) {
    var u := TrimLeft(TrimLeft(ToLower(s), '0'), ':');
    u != "" && u[0] == '0'
  }

  lemma {:induction false} ParseInputDigits(s: string)
    requires ColonSpelling(s)
    ensures forall i :: 0 <= i < |ParseInput(s)| ==>
              IsDigit(ParseInput(s)[i], 16) && LowerChar(ParseInput(s)[i]) == ParseInput(s)[i]
    ensures ParseInput(s) != "" ==> (ParseInput(s)[0] == '0' <==> ZeroBehindColon(s))
  {
    var t := ToLower(s);
    LowerSpelling(s);
    var z := TrimSplits(t, '0');
    var u := TrimLeft(t, '0');
    forall i | 0 <= i < |u| ensures (u[i] == ':' || IsDigit(u[i], 16)) && LowerChar(u[i]) == u[i] {
      assert u[i] == t[|z| + i];
    }
    RemoveColons(u);
    FirstKept(u);
    var r := Remove(u, ':');
    forall i | 0 <= i < |r| ensures IsDigit(r[i], 16) && LowerChar(r[i]) == r[i] {
      assert r[i] in u;
    }
  }

  /** A colon-separated spelling of a positive serial reaches the stored key exactly when no zero follows the colons
      behind its leading zeros. */
  lemma {:induction false} ParseInputExact(s: string)
    requires ColonSpelling(s) && Parse(Remove(s, ':'), 16) > 0
    ensures ParseInput(s) == Format(Parse(Remove(s, ':'), 16), 16) <==> !ZeroBehindColon(s)
  {
    var r, n := ParseInput(s), Parse(Remove(s, ':'), 16);
    ParseInputValue(s);
    ParseInputDigits(s);
    ParseFormat(n, 16);
    assert r != "" by { assert Parse("", 16) == 0; }
    if r[0] != '0' {
      CanonicalIsUnique(r);
    }
  }

  lemma {:induction false} TrimCons(h: char, t: string, c: char)
    ensures TrimLeft([h] + t, c) == if h == c then TrimLeft(t, c) else [h] + t
  {
    assert ([h] + t)[1..] == t;
  }

  lemma {:induction false} KeptZero(d: char)
    requires IsDigit(d, 16) && LowerChar(d) == d && d != '0'
    ensures ParseInput(['0'] + ([':'] + ['0', d])) == ['0', d] && ZeroBehindColon(['0'] + ([':'] + ['0', d]))
  {
    var t := ['0', d];
    assert ToLower(['0'] + ([':'] + t)) == ['0'] + ([':'] + t);
    TrimCons('0', [':'] + t, '0');
    TrimCons(':', t, '0');
    TrimCons(':', t, ':');
    assert t == ['0'] + [d];
    TrimCons('0', [d], ':');
    RemoveCons(':', t, ':');
    RemoveNothing(t, ':');
    assert "" + t == t;
  }

  lemma {:induction false} SpelledDigit(d: char)
    requires IsDigit(d, 16) && LowerChar(d) == d && d != '0'
    ensures Parse(Remove(['0'] + ([':'] + ['0', d]), ':'), 16) == DigitValue(d) && Format(DigitValue(d), 16) == [d]
  {
    var t := ['0', d];
    RemoveCons('0', [':'] + t, ':');
    RemoveCons(':', t, ':');
    RemoveNothing(t, ':');
    assert ['0'] + ("" + t) == "00" + [d];
    ParseZeros("00", [d]);
    ParseSnoc("", d, 16);
    assert "" + [d] == [d];
    LowerDigit(d);
  }

  /** Such a spelling: `0:0a` spells ten and is looked up as `0a`, while ten is stored as `a`. */
  lemma {:induction false} ColonKeepsZero()
    ensures ZeroBehindColon("0:0a")
    ensures Parse(Remove("0:0a", ':'), 16) == 10 && ParseInput("0:0a") == "0a" && Format(10, 16) == "a"
  {
    assert "0:0a" == ['0'] + ([':'] + ['0', 'a']) && "0a" == ['0', 'a'] && "a" == ['a'];
    KeptZero('a');
    SpelledDigit('a');
  }

  /** On colon-free spellings it always agrees. */
  lemma {:induction false} ParseInputAgrees(s: string)
    requires Numeral(s, 16) && Parse(s, 16) > 0
    ensures ParseInput(s) == Format(Parse(s, 16), 16)
  {
    NormalizedIsStored(s);
    ParseFormat(Parse(s, 16), 16);
    RemoveNothing(Normalized(s), ':');
  }
}
