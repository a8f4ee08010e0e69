/** The parts of Go's `strings` package that the registry relies on. */
module Strings {

  /** Go's `strings.Split` for a one-character separator. */
  function Split(s: string, sep: char): (r: seq<string>)
    ensures |r| > 0
  {
    if s == "" then [""]
    else if s[0] == sep then [""] + Split(s[1..], sep)
    else
      var r := Split(s[1..], sep);
      [[s[0]] + r[0]] + r[1..]
  }

  /** Go's `strings.Join` for a one-character separator. */
  function Join(parts: seq<string>, sep: char): (r: string)
  {
    if |parts| == 0 then ""
    else if |parts| == 1 then parts[0]
    else parts[0] + [sep] + Join(parts[1..], sep)
  }

  ghost predicate SepFree(parts: seq<string>, sep: char) {
    forall i :: 0 <= i < |parts| ==> sep !in parts[i]
  }

  lemma {:induction false} JoinSplit(s: string, sep: char)
    ensures Join(Split(s, sep), sep) == s
    ensures SepFree(Split(s, sep), sep)
  {
    if s != "" {
      JoinSplit(s[1..], sep);
      var r := Split(s[1..], sep);
      if s[0] == sep {
        assert (([""] + r)[1..]) == r;
      } else {
        var q := [[s[0]] + r[0]] + r[1..];
        assert q[1..] == r[1..];
        assert Join(q, sep) == [s[0]] + Join(r, sep);
      }
      assert s == [s[0]] + s[1..];
    }
  }

  lemma {:induction false} SplitSingle(s: string, sep: char)
    ensures sep !in s ==> Split(s, sep) == [s]
    ensures sep in s ==> |Split(s, sep)| > 1
  {
    if s != "" {
      SplitSingle(s[1..], sep);
      assert s == [s[0]] + s[1..];
    }
  }

  lemma {:induction false} SplitCons(c: char, s: string, sep: char)
    ensures var r := Split(s, sep);
            Split([c] + s, sep) == if c == sep then [""] + r else [[c] + r[0]] + r[1..]
  {
    assert ([c] + s)[1..] == s;
  }

  /** A separator cuts a string into the pieces of its two sides. */
  lemma {:induction false} SplitConcat(a: string, b: string, sep: char)
    ensures Split(a + [sep] + b, sep) == Split(a, sep) + Split(b, sep)
  {
    var t := Split(b, sep);
    if a == "" {
      assert a + [sep] + b == [sep] + b;
      SplitCons(sep, b, sep);
    } else {
      var c, rest := a[0], a[1..];
      var r := Split(rest, sep);
      SplitConcat(rest, b, sep);
      assert a + [sep] + b == [c] + (rest + [sep] + b) && a == [c] + rest;
      SplitCons(c, rest + [sep] + b, sep);
      SplitCons(c, rest, sep);
      PiecesAppend(c, r, t);
    }
  }

  lemma {:induction false} PiecesAppend(c: char, r: seq<string>, t: seq<string>)
    requires |r| > 0
    ensures [[c] + (r + t)[0]] + (r + t)[1..] == [[c] + r[0]] + r[1..] + t
    ensures [""] + (r + t) == [""] + r + t
  {
    assert (r + t)[1..] == r[1..] + t;
  }

  lemma {:induction false} SplitJoin(parts: seq<string>, sep: char)
    requires |parts| > 0 && SepFree(parts, sep)
    ensures Split(Join(parts, sep), sep) == parts
  {
    SplitSingle(parts[0], sep);
    if |parts| == 1 {
      assert parts == [parts[0]];
    } else {
      SplitJoin(parts[1..], sep);
      SplitConcat(parts[0], Join(parts[1..], sep), sep);
      assert parts == [parts[0]] + parts[1..];
    }
  }

  /** Separator-free, nonempty paths are determined by their joined spelling. */
  lemma {:induction false} JoinInjective(p: seq<string>, q: seq<string>, sep: char)
    requires |p| > 0 && |q| > 0 && SepFree(p, sep) && SepFree(q, sep)
    requires Join(p, sep) == Join(q, sep)
    ensures p == q
  {
    SplitJoin(p, sep);
    SplitJoin(q, sep);
  }

  /** Join of a path extended by one component. */
  lemma {:induction false} JoinSnoc(p: seq<string>, last: string, sep: char)
    requires |p| > 0
    ensures Join(p + [last], sep) == Join(p, sep) + [sep] + last
  {
    var q := p + [last];
    if |p| == 1 {
      assert q[1..] == [last];
    } else {
      JoinSnoc(p[1..], last, sep);
      assert q[1..] == p[1..] + [last];
    }
  }

  predicate Contains(s: string, sub: string)
    decreases |s|
  {
    sub <= s || (s != "" && Contains(s[1..], sub))
  }

  /** Go's `strings.Replace(s, old, new, 1)`: the leftmost occurrence of `old` is replaced. */
  function ReplaceFirst(s: string, old': string, new': string): (r: string)
    ensures !Contains(s, old') ==> r == s
    ensures old' <= s ==> r == new' + s[|old'|..]
    decreases |s|
  {
    if old' <= s then new' + s[|old'|..]
    else if s == "" then ""
    else [s[0]] + ReplaceFirst(s[1..], old', new')
  }

  /** A string holds no occurrence of a longer one. */
  lemma {:induction false} ShorterHoldsNone(s: string, sub: string)
    requires |s| < |sub|
    ensures !Contains(s, sub)
    decreases |s|
  {
    if s != "" { ShorterHoldsNone(s[1..], sub); }
  }

  /** Replacing an occurrence by something else changes the string. */
  lemma {:induction false} ReplaceChanges(s: string, old': string, new': string)
    requires Contains(s, old') && old' != new'
    ensures ReplaceFirst(s, old', new') != s
    decreases |s|
  {
    if old' <= s {
      assert s == old' + s[|old'|..];
      if |old'| == |new'| {
        var i :| 0 <= i < |old'| && old'[i] != new'[i];
        assert (new' + s[|old'|..])[i] != s[i];
      }
    } else {
      ReplaceChanges(s[1..], old', new');
      assert s == [s[0]] + s[1..];
    }
  }

  function LowerChar(c: char): char {
    if 'A' <= c <= 'Z' then c - 'A' + 'a' else c
  }

  /** Lower-casing, for the ASCII letters. */
  function ToLower(s: string): (r: string)
    ensures |r| == |s|
    ensures forall i :: 0 <= i < |s| ==> r[i] == LowerChar(s[i])
  {
    seq(|s|, i requires 0 <= i < |s| => LowerChar(s[i]))
  }

  /** `strings.TrimRight` with a one-character cut set. */
  function TrimRight(s: string, c: char): (r: string)
    ensures r <= s && (r == "" || r[|r| - 1] != c)
    ensures forall i :: |r| <= i < |s| ==> s[i] == c
  {
    if s != "" && s[|s| - 1] == c then TrimRight(s[..|s| - 1], c) else s
  }

  /** `strings.TrimLeft` with a one-character cut set. */
  function TrimLeft(s: string, c: char): string {
    if s != "" && s[0] == c then TrimLeft(s[1..], c) else s
  }

  /** What is cut is all `c`, and what is left does not start with it. */
  lemma {:induction false} TrimSplits(s: string, c: char) returns (cut: string)
    ensures s == cut + TrimLeft(s, c) && forall i :: 0 <= i < |cut| ==> cut[i] == c
    ensures TrimLeft(s, c) == "" || TrimLeft(s, c)[0] != c
  {
    cut := "";
    if s != "" && s[0] == c {
      cut := TrimSplits(s[1..], c);
      cut := [c] + cut;
    }
  }

  /** `strings.Replace(s, string(c), "", -1)`. */
  function Remove(s: string, c: char): string {
    if s == "" then "" else (if s[0] == c then "" else [s[0]]) + Remove(s[1..], c)
  }
}
