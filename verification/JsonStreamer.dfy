/** JSON values as the token stream a decoder yields, and the streamer that walks it. */
module JsonStreamer {
  import opened Options
  import opened Strings

  datatype Value =
    | Scalar(literal: string)
    | Str(text: string)
    | Arr(items: seq<Value>)
    | Obj(fields: seq<Field>)

  datatype Field = Field(key: string, value: Value)

  datatype Token = OpenArr | CloseArr | OpenObj | CloseObj | StrTok(text: string) | ScalarTok(literal: string)

  predicate IsDelim(t: Token) { t.OpenArr? || t.CloseArr? || t.OpenObj? || t.CloseObj? }

  function Tokens(v: Value): seq<Token>
    decreases v
  {
    match v
    case Scalar(l) => [ScalarTok(l)]
    case Str(s) => [StrTok(s)]
    case Arr(items) => [OpenArr] + TokensAll(items) + [CloseArr]
    case Obj(fields) => [OpenObj] + FieldTokens(fields) + [CloseObj]
  }

  function TokensAll(vs: seq<Value>): seq<Token>
    decreases vs
  {
    if vs == [] then [] else Tokens(vs[0]) + TokensAll(vs[1..])
  }

  function FieldTokens(fs: seq<Field>): seq<Token>
    decreases fs
  {
    if fs == [] then [] else
      var f := fs[0];
      [StrTok(f.key)] + Tokens(f.value) + FieldTokens(fs[1..])
  }

  // What a search finds

  /** A search element; a failing callback consumes its element and then reports an error. */
  datatype SearchElement = SearchElement(path: string, failing: bool)

  /** `getSearchElement`: the first one with that path. */
  function Find(search: seq<SearchElement>, path: string): Option<SearchElement> {
    if search == [] then None else if search[0].path == path then Some(search[0]) else Find(search[1..], path)
  }

  /** One callback: the element and the path of the array it belongs to. */
  datatype Call = Call(path: string, element: Value)

  function CallsFor(path: string, items: seq<Value>): seq<Call> {
    seq(|items|, i requires 0 <= i < |items| => Call(path, items[i]))
  }

  /** The callbacks owed to a value met under `stack`: the elements of the searched arrays that are reached through
      objects only, in document order. */
  function Visits(v: Value, stack: seq<string>, search: seq<SearchElement>): seq<Call>
    decreases v
  {
    match v
    case Arr(items) => if Find(search, Join(stack, '.')).Some? then CallsFor(Join(stack, '.'), items) else []
    case Obj(fields) => FieldVisits(fields, stack, search)
    case _ => []
  }

  function FieldVisits(fs: seq<Field>, stack: seq<string>, search: seq<SearchElement>): seq<Call>
    decreases fs
  {
    if fs == [] then [] else
      var f := fs[0];
      Visits(f.value, stack + [f.key], search) + FieldVisits(fs[1..], stack, search)
  }

  /** When the walk succeeds: no object sits at a searched path and no failing callback is owed an element. */
  predicate Streams(v: Value, stack: seq<string>, search: seq<SearchElement>)
    decreases v
  {
    match v
    case Arr(items) => var se := Find(search, Join(stack, '.')); se.Some? && se.value.failing ==> items == []
    case Obj(fields) => Find(search, Join(stack, '.')).None? && FieldsStream(fields, stack, search)
    case _ => true
  }

  predicate FieldsStream(fs: seq<Field>, stack: seq<string>, search: seq<SearchElement>)
    decreases fs
  {
    fs == [] ||
    (var f := fs[0];
     Streams(f.value, stack + [f.key], search) && FieldsStream(fs[1..], stack, search))
  }

  /** The callbacks made before the walk ends or fails. */
  function Made(v: Value, stack: seq<string>, search: seq<SearchElement>): seq<Call>
    decreases v
  {
    match v
    case Arr(items) => MadeFor(Find(search, Join(stack, '.')), Join(stack, '.'), items)
    case Obj(fields) => if Find(search, Join(stack, '.')).Some? then [] else FieldsMade(fields, stack, search)
    case _ => []
  }

  function MadeFor(se: Option<SearchElement>, path: string, items: seq<Value>): seq<Call> {
    if se.Some? && !se.value.failing then CallsFor(path, items) else []
  }

  function FieldsMade(fs: seq<Field>, stack: seq<string>, search: seq<SearchElement>): seq<Call>
    decreases fs
  {
    if fs == [] then [] else
      var f := fs[0];
      Made(f.value, stack + [f.key], search) +
      if Streams(f.value, stack + [f.key], search) then FieldsMade(fs[1..], stack, search) else []
  }

  /** A walk that does not fail makes every callback owed. */
  lemma {:induction false} MadeIsVisits(v: Value, stack: seq<string>, search: seq<SearchElement>)
    requires Streams(v, stack, search)
    ensures Made(v, stack, search) == Visits(v, stack, search)
    decreases v
  {
    if v.Obj? { FieldsMadeIsVisits(v.fields, stack, search); }
  }

  lemma {:induction false} FieldsMadeIsVisits(fs: seq<Field>, stack: seq<string>, search: seq<SearchElement>)
    requires FieldsStream(fs, stack, search)
    ensures FieldsMade(fs, stack, search) == FieldVisits(fs, stack, search)
    decreases fs
  {
    if fs != [] {
      var f := fs[0];
      MadeIsVisits(f.value, stack + [f.key], search);
      FieldsMadeIsVisits(fs[1..], stack, search);
    }
  }

  /** No object reached through objects has an empty key. */
  predicate Keyed(v: Value)
    decreases v
  {
    v.Obj? ==> FieldsKeyed(v.fields)
  }

  predicate FieldsKeyed(fs: seq<Field>)
    decreases fs
  {
    fs == [] || (var f := fs[0]; f.key != "" && Keyed(f.value) && FieldsKeyed(fs[1..]))
  }

  // Nesting

  function Delta(t: Token): int {
    match t
    case OpenArr => 1
    case OpenObj => 1
    case CloseArr => -1
    case CloseObj => -1
    case _ => 0
  }

  function Sum(ts: seq<Token>): int {
    if ts == [] then 0 else Sum(ts[..|ts| - 1]) + Delta(ts[|ts| - 1])
  }

  lemma {:induction false} SumAppend(a: seq<Token>, b: seq<Token>)
    ensures Sum(a + b) == Sum(a) + Sum(b)
  {
    if b == [] {
      assert a + b == a;
    } else {
      SumAppend(a, b[..|b| - 1]);
      assert (a + b)[..|a + b| - 1] == a + b[..|b| - 1];
    }
  }

  lemma {:induction false} SumOne(t: Token)
    ensures Sum([t]) == Delta(t)
  {
    assert [t][..0] == [];
  }

  /** The tokens of a value close what they open. */
  lemma {:induction false} Balanced(v: Value)
    ensures Sum(Tokens(v)) == 0
    decreases v
  {
    match v
    case Scalar(l) => SumOne(ScalarTok(l));
    case Str(s) => SumOne(StrTok(s));
    case Arr(items) => BalancedAll(items); SumBracketed(OpenArr, TokensAll(items), CloseArr);
    case Obj(fields) => BalancedFields(fields); SumBracketed(OpenObj, FieldTokens(fields), CloseObj);
  }

  lemma {:induction false} SumBracketed(a: Token, ts: seq<Token>, b: Token)
    ensures Sum([a] + ts + [b]) == Delta(a) + Sum(ts) + Delta(b)
  {
    SumAppend([a] + ts, [b]);
    SumAppend([a], ts);
    SumOne(a);
    SumOne(b);
  }

  lemma {:induction false} BalancedAll(vs: seq<Value>)
    ensures Sum(TokensAll(vs)) == 0
    decreases vs
  {
    if vs != [] {
      Balanced(vs[0]);
      BalancedAll(vs[1..]);
      SumAppend(Tokens(vs[0]), TokensAll(vs[1..]));
    }
  }

  lemma {:induction false} BalancedFields(fs: seq<Field>)
    ensures Sum(FieldTokens(fs)) == 0
    decreases fs
  {
    if fs != [] {
      var k := StrTok(fs[0].key);
      Balanced(fs[0].value);
      BalancedFields(fs[1..]);
      SumAppend([k] + Tokens(fs[0].value), FieldTokens(fs[1..]));
      SumAppend([k], Tokens(fs[0].value));
      SumOne(k);
    }
  }

  // The decoder and the walk

  /** Where an object's fields begin: position, path, and what was called so far. */
  datatype Start = Start(pos: nat, stack: seq<string>, calls: seq<Call>, got: bool)

  class JsonStream {
    const tokens: seq<Token>
    const search: seq<SearchElement>
    var pos: nat
    var stack: seq<string>
    var gotResults: bool
    var calls: seq<Call>

    constructor (tokens: seq<Token>, search: seq<SearchElement>)
      ensures this.tokens == tokens && this.search == search
      ensures pos == 0 && stack == [] && !gotResults && calls == []
    {
      this.tokens, this.search := tokens, search;
      pos, stack, gotResults, calls := 0, [], false, [];
    }

    /** The tokens at position `p` start with `ts`. */
    ghost predicate At(p: nat, ts: seq<Token>) {
      p + |ts| <= |tokens| && tokens[p..p + |ts|] == ts
    }

    lemma {:induction false} AtSplit(p: nat, a: seq<Token>, b: seq<Token>)
      ensures At(p, a + b) <==> At(p, a) && At(p + |a|, b)
    {
      if At(p, a + b) {
        assert tokens[p..p + |a|] == (a + b)[..|a|];
        assert tokens[p + |a|..p + |a| + |b|] == (a + b)[|a|..];
      }
      if At(p, a) && At(p + |a|, b) {
        assert tokens[p..p + |a| + |b|] == tokens[p..p + |a|] + tokens[p + |a|..p + |a| + |b|];
      }
    }

    /** How deep the tokens before position `k` are nested. */
    ghost function Depth(k: nat): int {
      if k == 0 then 0 else Depth(k - 1) + if k - 1 < |tokens| then Delta(tokens[k - 1]) else 0
    }

    lemma {:induction false} DepthAcross(p: nat, ts: seq<Token>)
      requires At(p, ts)
      ensures Depth(p + |ts|) == Depth(p) + Sum(ts)
      decreases |ts|
    {
      if ts != [] {
        var init := ts[..|ts| - 1];
        assert tokens[p..p + |init|] == tokens[p..p + |ts|][..|init|] == init;
        DepthAcross(p, init);
        assert tokens[p + |init|] == tokens[p..p + |ts|][|init|];
      }
    }

    /** A whole value ends as deep as it starts. */
    lemma {:induction false} DepthOfValue(p: nat, v: Value)
      requires At(p, Tokens(v))
      ensures Depth(p + |Tokens(v)|) == Depth(p)
    {
      DepthAcross(p, Tokens(v));
      Balanced(v);
    }

    method GetToken() returns (ok: bool, t: Token)
      modifies this`pos
      ensures ok <==> old(pos) < |tokens|
      ensures ok ==> t == tokens[old(pos)] && pos == old(pos) + 1 && Depth(pos) == Depth(old(pos)) + Delta(t)
      ensures !ok ==> pos == old(pos)
    {
      if pos < |tokens| {
        ok, t := true, tokens[pos];
        pos := pos + 1;
      } else {
        ok, t := false, CloseArr;
      }
    }

    /** `decoder.More()`: another element follows in the current array or object. */
    function More(): bool
      reads this
    {
      pos < |tokens| && !tokens[pos].CloseArr? && !tokens[pos].CloseObj?
    }

    /** `skipToDelim`: on a balanced body the matching delimiter, and no more, is consumed. */
    method SkipToDelim(close: Token, ghost wf: bool, ghost body: seq<Value>) returns (ok: bool)
      requires close == CloseArr || close == CloseObj
      requires wf ==> At(pos, TokensAll(body) + [close])
      modifies this`pos
      ensures old(pos) <= pos && (pos <= |tokens| || pos == old(pos))
      ensures wf ==> ok && pos == old(pos) + |TokensAll(body)| + 1
      ensures ok ==> Depth(pos) == Depth(old(pos)) - 1
      decreases |tokens| - pos, 0
    {
      ghost var rest := body;
      ghost var end := pos + |TokensAll(body)| + 1;
      while true
        invariant old(pos) <= pos && (pos <= |tokens| || pos == old(pos))
        invariant wf ==> At(pos, TokensAll(rest) + [close]) && pos + |TokensAll(rest)| + 1 == end
        invariant Depth(pos) == Depth(old(pos))
        decreases |tokens| - pos
      {
        var t, done;
        ok, t := GetToken();
        if !ok {
          return;
        }
        ok, done := SkipOne(t, close, wf, rest);
        if !ok || done {
          return;
        }
        if wf { rest := rest[1..]; }
      }
    }

    /** One round, after its token has been read: a value, or the delimiter looked for. */
    method SkipOne(t: Token, close: Token, ghost wf: bool, ghost rest: seq<Value>) returns (ok: bool, done: bool)
      requires close == CloseArr || close == CloseObj
      requires 0 < pos <= |tokens| && t == tokens[pos - 1]
      requires wf ==> At(pos - 1, TokensAll(rest) + [close])
      modifies this`pos
      ensures old(pos) <= pos <= |tokens|
      ensures wf ==> ok && (done <==> rest == [])
      ensures wf && done ==> pos == old(pos)
      ensures wf && !done ==> At(pos, TokensAll(rest[1..]) + [close])
      ensures wf && !done ==> pos + |TokensAll(rest[1..])| == old(pos) - 1 + |TokensAll(rest)|
      ensures ok ==> Depth(pos) == Depth(old(pos)) - Delta(t) - if done then 1 else 0
      decreases |tokens| - pos, 2
    {
      if wf {
        if rest == [] { AtClose(pos - 1, close); } else { SplitFirst(pos - 1, rest, close); }
      }
      ok, done := true, t == close;
      if IsDelim(t) && !done {
        ok := SkipNested(t, wf, if wf then rest[0] else Scalar(""));
      }
    }

    /** The value opened by the delimiter just read. */
    method SkipNested(t: Token, ghost wf: bool, ghost v: Value) returns (ok: bool)
      requires IsDelim(t)
      requires wf ==> pos > 0 && At(pos - 1, Tokens(v)) && t == Tokens(v)[0]
      modifies this`pos
      ensures old(pos) <= pos && (pos <= |tokens| || pos == old(pos))
      ensures wf ==> ok && pos == old(pos) - 1 + |Tokens(v)|
      ensures ok ==> Delta(t) == 1 && Depth(pos) == Depth(old(pos)) - 1
      decreases |tokens| - pos, 1
    {
      match t
      case OpenArr =>
        if wf { OpenedArr(pos - 1, v); }
        ok := SkipToDelim(CloseArr, wf, if wf then v.items else []);
      case OpenObj =>
        if wf {
          MembersTokens(v.fields);
          OpenedObj(pos - 1, v);
        }
        ok := SkipToDelim(CloseObj, wf, if wf then Members(v.fields) else []);
      case _ =>
        ok := false;
    }

    lemma {:induction false} AtClose(p: nat, close: Token)
      requires At(p, TokensAll([]) + [close])
      ensures p < |tokens| && tokens[p] == close
    {
      assert tokens[p..p + 1][0] == close;
    }

    lemma {:induction false} SplitFirst(p: nat, rest: seq<Value>, close: Token)
      requires rest != [] && At(p, TokensAll(rest) + [close])
      ensures At(p, Tokens(rest[0])) && At(p + |Tokens(rest[0])|, TokensAll(rest[1..]) + [close])
      ensures |TokensAll(rest)| == |Tokens(rest[0])| + |TokensAll(rest[1..])|
      ensures p < |tokens| && tokens[p] == Tokens(rest[0])[0]
      ensures !tokens[p].CloseArr? && !tokens[p].CloseObj? && (!IsDelim(tokens[p]) ==> |Tokens(rest[0])| == 1)
    {
      FirstToken(rest[0]);
      var a, b := Tokens(rest[0]), TokensAll(rest[1..]) + [close];
      assert TokensAll(rest) + [close] == a + b;
      AtSplit(p, a, b);
      assert tokens[p..p + |a|][0] == a[0];
    }
  
    // Decoding one element, as a callback does

    method Decode(ghost wf: bool, ghost v: Value) returns (ok: bool, r: Value)
      requires wf ==> At(pos, Tokens(v))
      modifies this`pos
      ensures old(pos) <= pos && (pos <= |tokens| || pos == old(pos)) && (ok || old(pos) < |tokens| ==> pos > old(pos))
      ensures wf ==> ok && r == v && pos == old(pos) + |Tokens(v)|
      ensures ok ==> Depth(pos) == Depth(old(pos))
      decreases |tokens| - pos, 1
    {
      r := Scalar("");
      ghost var p := pos;
      if wf {
        assert tokens[p..p + |Tokens(v)|][0] == Tokens(v)[0];
      }
      var t;
      ok, t := GetToken();
      if !ok {
        return;
      }
      match t
      case StrTok(s) => r := Str(s);
      case ScalarTok(l) => r := Scalar(l);
      case OpenArr =>
        if wf { OpenedArr(p, v); }
        var items;
        ok, items := DecodeItems(wf, if wf then v.items else []);
        r := Arr(items);
      case OpenObj =>
        if wf { OpenedObj(p, v); }
        var fields;
        ok, fields := DecodeFields(wf, if wf then v.fields else []);
        r := Obj(fields);
      case _ =>
        ok := false;
    }

    method DecodeItems(ghost wf: bool, ghost items: seq<Value>) returns (ok: bool, r: seq<Value>)
      requires wf ==> At(pos, TokensAll(items) + [CloseArr])
      modifies this`pos
      ensures old(pos) <= pos && (pos <= |tokens| || pos == old(pos))
      ensures wf ==> ok && r == items && pos == old(pos) + |TokensAll(items)| + 1
      ensures ok ==> Depth(pos) == Depth(old(pos)) - 1
      decreases |tokens| - pos, 3
    {
      r := [];
      ghost var rest := items;
      ghost var end := pos + |TokensAll(items)| + 1;
      while More()
        invariant old(pos) <= pos && (pos <= |tokens| || pos == old(pos))
        invariant wf ==>
                  At(pos, TokensAll(rest) + [CloseArr]) && pos + |TokensAll(rest)| + 1 == end && r + rest == items
        invariant Depth(pos) == Depth(old(pos))
        decreases |tokens| - pos
      {
        var value;
        ok, value := DecodeElement(wf, rest);
        if !ok {
          return;
        }
        if wf {
          Shift(r, rest);
          rest := rest[1..];
        }
        r := r + [value];
      }
      if wf { AtEnd(pos, rest, CloseArr); }
      var t;
      ok, t := GetToken();
      ok := ok && t == CloseArr;
    }

    /** The next element of an array, whose remaining elements are `rest`. */
    method DecodeElement(ghost wf: bool, ghost rest: seq<Value>) returns (ok: bool, r: Value)
      requires wf ==> At(pos, TokensAll(rest) + [CloseArr])
      requires More()
      modifies this`pos
      ensures old(pos) < pos <= |tokens|
      ensures wf ==> ok && rest != [] && r == rest[0] && At(pos, TokensAll(rest[1..]) + [CloseArr])
      ensures wf ==> pos + |TokensAll(rest[1..])| == old(pos) + |TokensAll(rest)|
      ensures ok ==> Depth(pos) == Depth(old(pos))
      decreases |tokens| - pos, 2
    {
      if wf {
        NotAtEnd(pos, rest, CloseArr);
        SplitFirst(pos, rest, CloseArr);
      }
      ok, r := Decode(wf, if wf then rest[0] else Scalar(""));
    }

    method DecodeFields(ghost wf: bool, ghost fields: seq<Field>) returns (ok: bool, r: seq<Field>)
      requires wf ==> At(pos, FieldTokens(fields) + [CloseObj])
      modifies this`pos
      ensures old(pos) <= pos && (pos <= |tokens| || pos == old(pos))
      ensures wf ==> ok && r == fields && pos == old(pos) + |FieldTokens(fields)| + 1
      ensures ok ==> Depth(pos) == Depth(old(pos)) - 1
      decreases |tokens| - pos, 4
    {
      r := [];
      ghost var rest := fields;
      ghost var end := pos + |FieldTokens(fields)| + 1;
      while More()
        invariant old(pos) <= pos && (pos <= |tokens| || pos == old(pos))
        invariant wf ==>
                  At(pos, FieldTokens(rest) + [CloseObj]) && pos + |FieldTokens(rest)| + 1 == end && r + rest == fields
        invariant Depth(pos) == Depth(old(pos))
        decreases |tokens| - pos
      {
        var field;
        ok, field := DecodeNextField(wf, rest);
        if !ok {
          return;
        }
        if wf {
          Shift(r, rest);
          rest := rest[1..];
        }
        r := r + [field];
      }
      if wf { FieldAtEnd(pos, rest); }
      var t;
      ok, t := GetToken();
      ok := ok && t == CloseObj;
    }

    /** The next field of an object, whose remaining fields are `rest`. */
    method DecodeNextField(ghost wf: bool, ghost rest: seq<Field>) returns (ok: bool, r: Field)
      requires wf ==> At(pos, FieldTokens(rest) + [CloseObj])
      requires More()
      modifies this`pos
      ensures old(pos) < pos <= |tokens|
      ensures wf ==> ok && rest != [] && r == rest[0] && At(pos, FieldTokens(rest[1..]) + [CloseObj])
      ensures wf ==> pos + |FieldTokens(rest[1..])| == old(pos) + |FieldTokens(rest)|
      ensures ok ==> Depth(pos) == Depth(old(pos))
      decreases |tokens| - pos, 3
    {
      if wf {
        FieldNotAtEnd(pos, rest);
        SplitField(pos, rest);
      }
      ok, r := DecodeField(wf, if wf then rest[0] else Field("", Scalar("")));
    }

    method DecodeField(ghost wf: bool, ghost f: Field) returns (ok: bool, r: Field)
      requires wf ==> At(pos, [StrTok(f.key)]) && At(pos + 1, Tokens(f.value))
      requires pos < |tokens|
      modifies this`pos
      ensures old(pos) < pos <= |tokens|
      ensures wf ==> ok && r == f && pos == old(pos) + 1 + |Tokens(f.value)|
      ensures ok ==> Depth(pos) == Depth(old(pos))
      decreases |tokens| - pos, 2
    {
      if wf { assert tokens[pos..pos + 1][0] == StrTok(f.key); }
      r := Field("", Scalar(""));
      var key, value;
      ok, key := GetToken();
      if !ok || !key.StrTok? {
        return false, r;
      }
      ok, value := Decode(wf, if wf then f.value else Scalar(""));
      r := Field(key.text, value);
    }

    lemma {:induction false} NotAtEnd(p: nat, rest: seq<Value>, close: Token)
      requires At(p, TokensAll(rest) + [close]) && tokens[p] != close
      ensures rest != []
    {
      assert tokens[p] == tokens[p..p + |TokensAll(rest)| + 1][0];
    }

    lemma {:induction false} AtEnd(p: nat, rest: seq<Value>, close: Token)
      requires At(p, TokensAll(rest) + [close]) && (tokens[p] == CloseArr || tokens[p] == CloseObj)
      ensures rest == [] && tokens[p] == close
    {
      if rest != [] { SplitFirst(p, rest, close); }
      assert tokens[p] == tokens[p..p + |TokensAll(rest)| + 1][0];
    }

    lemma {:induction false} FieldNotAtEnd(p: nat, rest: seq<Field>)
      requires At(p, FieldTokens(rest) + [CloseObj]) && tokens[p] != CloseObj
      ensures rest != []
    {
      assert tokens[p] == tokens[p..p + |FieldTokens(rest)| + 1][0];
    }

    lemma {:induction false} FieldAtEnd(p: nat, rest: seq<Field>)
      requires At(p, FieldTokens(rest) + [CloseObj]) && (tokens[p] == CloseArr || tokens[p] == CloseObj)
      ensures rest == [] && tokens[p] == CloseObj
    {
      if rest != [] { SplitField(p, rest); }
      assert tokens[p] == tokens[p..p + |FieldTokens(rest)| + 1][0];
    }

    lemma {:induction false} SplitField(p: nat, rest: seq<Field>)
      requires rest != [] && At(p, FieldTokens(rest) + [CloseObj])
      ensures p < |tokens| && tokens[p] == StrTok(rest[0].key) && At(p, [StrTok(rest[0].key)])
      ensures At(p + 1, Tokens(rest[0].value))
      ensures At(p + 1 + |Tokens(rest[0].value)|, FieldTokens(rest[1..]) + [CloseObj])
      ensures |FieldTokens(rest)| == 1 + |Tokens(rest[0].value)| + |FieldTokens(rest[1..])|
    {
      var k, a, b := [StrTok(rest[0].key)], Tokens(rest[0].value), FieldTokens(rest[1..]) + [CloseObj];
      Associate(k, a, FieldTokens(rest[1..]), [CloseObj]);
      AtSplit(p, k, a + b);
      AtSplit(p + 1, a, b);
      assert tokens[p..p + 1][0] == k[0];
    }

    // The walk

    /** `getNextName`: the next key, or "" at the end of the object. */
    method GetNextName() returns (ok: bool, name: string)
      modifies this`pos
      ensures old(pos) <= pos && (ok ==> old(pos) < pos <= |tokens|)
      ensures old(pos) < |tokens| && tokens[old(pos)].StrTok? ==>
                ok && name == tokens[old(pos)].text && pos == old(pos) + 1
      ensures old(pos) < |tokens| && tokens[old(pos)].CloseObj? ==> ok && name == "" && pos == old(pos) + 1
      ensures ok ==> Depth(pos) >= Depth(old(pos)) - if name == "" then 1 else 0
      ensures ok && tokens[old(pos)].StrTok? ==> Depth(pos) == Depth(old(pos))
    {
      var t;
      ok, t := GetToken();
      name := "";
      if ok {
        match t
        case StrTok(s) => name := s;
        case CloseObj =>
        case _ => ok := false;
      }
    }

    ghost predicate Called(calls0: seq<Call>, got0: bool, made: seq<Call>)
      reads this
    {
      calls == calls0 + made && gotResults == (got0 || made != [])
    }

    /** `stream`, on the tokens of any value. Without empty keys it succeeds exactly when `Streams` says so, and then it
        has consumed those tokens, restored the path stack and made exactly the callbacks owed; if it fails it has made
        those that come before. With an empty key it never succeeds on all tokens of the value. */
    method Stream(ghost wf: bool, ghost v: Value) returns (ok: bool)
      requires wf ==> At(pos, Tokens(v))
      modifies this`pos, this`stack, this`gotResults, this`calls
      ensures old(pos) <= pos && (ok ==> old(pos) < pos <= |tokens| && Depth(pos) >= Depth(old(pos)))
      ensures wf && Keyed(v) ==> (ok <==> Streams(v, old(stack), search))
      ensures wf && Keyed(v) && ok ==> pos == old(pos) + |Tokens(v)| && stack == old(stack)
      ensures wf && Keyed(v) ==> Called(old(calls), old(gotResults), Made(v, old(stack), search))
      ensures wf && !Keyed(v) && ok ==> Depth(pos) > Depth(old(pos))
      ensures wf && StartsEmpty(v) && Find(search, Join(old(stack), '.')).None? ==> ok && pos == old(pos) + 2
      decreases |tokens| - pos, 6
    {
      ghost var p := pos;
      if wf {
        assert tokens[p..p + |Tokens(v)|][0] == Tokens(v)[0];
      }
      var t;
      ok, t := GetToken();
      if !ok {
        return;
      }
      if !IsDelim(t) {
        return;
      }
      var path := Join(stack, '.');
      var se := Find(search, path);
      match t
      case OpenArr =>
        if wf { OpenedArr(p, v); }
        ok := StreamItems(se, path, wf, if wf then v.items else []);
      case OpenObj =>
        if se.Some? {
          return false;
        }
        if wf { OpenedObj(p, v); }
        ok := StreamFields(wf, if wf then v.fields else []);
      case _ =>
        ok := false;
    }

    lemma {:induction false} OpenedArr(p: nat, v: Value)
      requires At(p, Tokens(v)) && v.Arr?
      ensures At(p + 1, TokensAll(v.items) + [CloseArr]) && |Tokens(v)| == |TokensAll(v.items)| + 2
    {
      assert Tokens(v) == [OpenArr] + (TokensAll(v.items) + [CloseArr]);
      AtSplit(p, [OpenArr], TokensAll(v.items) + [CloseArr]);
    }

    lemma {:induction false} OpenedObj(p: nat, v: Value)
      requires At(p, Tokens(v)) && v.Obj?
      ensures At(p + 1, FieldTokens(v.fields) + [CloseObj]) && |Tokens(v)| == |FieldTokens(v.fields)| + 2
    {
      assert Tokens(v) == [OpenObj] + (FieldTokens(v.fields) + [CloseObj]);
      AtSplit(p, [OpenObj], FieldTokens(v.fields) + [CloseObj]);
    }

    /** The array branch: one callback per element when the path is searched, then skip to the end. */
    method StreamItems(se: Option<SearchElement>, path: string, ghost wf: bool,
                       ghost items: seq<Value>) returns (ok: bool)
      requires wf ==> At(pos, TokensAll(items) + [CloseArr])
      modifies this`pos, this`gotResults, this`calls
      ensures old(pos) <= pos && (pos <= |tokens| || pos == old(pos)) && (ok ==> Depth(pos) == Depth(old(pos)) - 1)
      ensures wf ==> (ok <==> (se.Some? && se.value.failing ==> items == []))
      ensures wf && ok ==> pos == old(pos) + |TokensAll(items)| + 1
      ensures wf ==> Called(old(calls), old(gotResults), MadeFor(se, path, items))
      decreases |tokens| - pos, 4
    {
      ghost var rest := items;
      if se.Some? {
        ok := StreamElements(se.value, path, wf, items);
        if !ok {
          return;
        }
        rest := [];
      }
      ok := SkipToDelim(CloseArr, wf, rest);
    }

    /** The callback loop: it stops before the closing delimiter, or at the first error. */
    method StreamElements(se: SearchElement, path: string, ghost wf: bool, ghost items: seq<Value>) returns (ok: bool)
      requires wf ==> At(pos, TokensAll(items) + [CloseArr])
      modifies this`pos, this`gotResults, this`calls
      ensures old(pos) <= pos && (pos <= |tokens| || pos == old(pos)) && (ok ==> Depth(pos) == Depth(old(pos)))
      ensures wf ==> (ok <==> (se.failing ==> items == []))
      ensures wf && ok ==> At(pos, [CloseArr]) && pos == old(pos) + |TokensAll(items)|
      ensures wf ==> Called(old(calls), old(gotResults), MadeFor(Some(se), path, items))
      decreases |tokens| - pos, 3
    {
      ghost var k := 0;
      ghost var end := pos + |TokensAll(items)|;
      while More()
        invariant old(pos) <= pos && (pos <= |tokens| || pos == old(pos)) && Depth(pos) == Depth(old(pos))
        invariant wf ==>
                  0 <= k <= |items| && At(pos, TokensAll(items[k..]) + [CloseArr]) &&
                      pos + |TokensAll(items[k..])| == end
        invariant wf ==> Called(old(calls), old(gotResults), CallsFor(path, items[..k]))
        invariant wf && k > 0 ==> !se.failing
        decreases |tokens| - pos
      {
        var value;
        ok, value := DecodeElement(wf, if wf then items[k..] else []);
        if !ok || se.failing {
          return false;
        }
        calls := calls + [Call(path, value)];
        gotResults := true;
        if wf {
          CallsStep(path, items, k);
          k := k + 1;
        }
      }
      if wf {
        AtEnd(pos, items[k..], CloseArr);
        assert items[..k] == items;
      }
      ok := true;
    }

    /** The object branch: each field is walked with its name pushed on the stack. Past a value with an empty key the
        walk is out of step, deeper than it should be, and cannot make up for it. */
    method StreamFields(ghost wf: bool, ghost fields: seq<Field>) returns (ok: bool)
      requires wf ==> At(pos, FieldTokens(fields) + [CloseObj])
      modifies this`pos, this`stack, this`gotResults, this`calls
      ensures old(pos) <= pos && (ok ==> old(pos) < pos <= |tokens| && Depth(pos) >= Depth(old(pos)) - 1)
      ensures wf && FieldsKeyed(fields) ==> (ok <==> FieldsStream(fields, old(stack), search))
      ensures wf && FieldsKeyed(fields) && ok ==> pos == old(pos) + |FieldTokens(fields)| + 1 && stack == old(stack)
      ensures wf && FieldsKeyed(fields) ==> Called(old(calls), old(gotResults), FieldsMade(fields, old(stack), search))
      ensures wf && !FieldsKeyed(fields) && ok ==> Depth(pos) >= Depth(old(pos))
      ensures wf && fields != [] && fields[0].key == "" ==> ok && pos == old(pos) + 1
      decreases |tokens| - pos, 5
    {
      ghost var start := Start(pos, stack, calls, gotResults);
      ghost var rest, sync, made: seq<Call> := fields, wf, [];
      var more := true;
      while more
        invariant more ==> Walking(wf, fields, start, sync, rest, made)
        invariant !more ==> Ended(wf, fields, start)
        decreases more, |tokens| - pos
      {
        ok, more, sync, rest, made := StreamNext(wf, fields, start, sync, rest, made);
        if !ok {
          return;
        }
      }
      ok := true;
    }

    /** Between two fields: as long as the walk is in step, `rest` is what follows and `made` what was called; once it
        is out of step it is too deep. */
    ghost predicate Walking(wf: bool, fields: seq<Field>, start: Start, sync: bool, rest: seq<Field>, made: seq<Call>)
      reads this
    {
      && start.pos <= pos && (pos <= |tokens| || pos == start.pos) && stack == start.stack
      && (sync ==> wf && InStep(fields, start, rest, made) && Depth(pos) >= Depth(start.pos))
      && (!sync ==> (wf ==> !FieldsKeyed(fields)) && Depth(pos) >= Depth(start.pos) + if wf then 1 else 0)
      && (wf && fields != [] && fields[0].key == "" ==> sync && rest == fields && pos == start.pos)
    }

    ghost function Now(): Start
      reads this
    {
      Start(pos, stack, calls, gotResults)
    }

    ghost predicate InStep(fields: seq<Field>, start: Start, rest: seq<Field>, made: seq<Call>)
      reads this
    {
      At(pos, FieldTokens(rest) + [CloseObj]) && Tracks(fields, start, rest, made, Now())
    }

    /** Seen from `now`, `rest` is what is left of `fields` and `made` what was called for the others. */
    ghost predicate Tracks(fields: seq<Field>, start: Start, rest: seq<Field>, made: seq<Call>, now: Start) {
      && now.stack == start.stack
      && now.pos + |FieldTokens(rest)| == start.pos + |FieldTokens(fields)|
      && (FieldsKeyed(fields) <==> FieldsKeyed(rest))
      && (FieldsStream(fields, start.stack, search) <==> FieldsStream(rest, start.stack, search))
      && FieldsMade(fields, start.stack, search) == made + FieldsMade(rest, start.stack, search)
      && now.calls == start.calls + made && now.got == (start.got || made != [])
    }

    /** After the last field. */
    ghost predicate Ended(wf: bool, fields: seq<Field>, start: Start)
      reads this
    {
      && start.pos < pos <= |tokens| && stack == start.stack && Depth(pos) >= Depth(start.pos) - 1
      && (wf && !FieldsKeyed(fields) ==> Depth(pos) >= Depth(start.pos))
      && (wf && FieldsKeyed(fields) ==>
          pos == start.pos + |FieldTokens(fields)| + 1 && FieldsStream(fields, stack, search))
      && (wf && FieldsKeyed(fields) ==> Called(start.calls, start.got, FieldsMade(fields, stack, search)))
      && (wf && fields != [] && fields[0].key == "" ==> pos == start.pos + 1)
    }

    /** One round of the object loop, from one such point to the next. */
    method StreamNext(ghost wf: bool, ghost fields: seq<Field>, ghost start: Start,
                      ghost sync: bool, ghost rest: seq<Field>, ghost made: seq<Call>)
      returns (ok: bool, more: bool, ghost sync': bool, ghost rest': seq<Field>, ghost made': seq<Call>)
      requires Walking(wf, fields, start, sync, rest, made)
      modifies this`pos, this`stack, this`gotResults, this`calls
      ensures old(pos) <= pos && (ok ==> old(pos) < pos)
      ensures ok && more ==> Walking(wf, fields, start, sync', rest', made')
      ensures ok && !more ==> Ended(wf, fields, start)
      ensures !ok && wf && FieldsKeyed(fields) ==>
                !FieldsStream(fields, start.stack, search) &&
                    Called(start.calls, start.got, FieldsMade(fields, start.stack, search))
      ensures wf && fields != [] && fields[0].key == "" ==> ok
      decreases |tokens| - pos, 4
    {
      sync', rest', made' := sync, rest, made;
      ghost var was := Now();
      ok, more := StreamField(sync, rest);
      if sync && rest != [] && rest[0].key != "" {
        sync' := Keyed(rest[0].value);
        made' := made + Made(rest[0].value, start.stack + [rest[0].key], search);
        rest' := rest[1..];
        FieldRound(fields, start, rest, made, was, ok);
      } else if sync {
        LastRound(fields, start, rest, made, was);
      }
    }

    /** A named field was walked. */
    lemma {:induction false} FieldRound(fields: seq<Field>, start: Start, rest: seq<Field>, made: seq<Call>,
                                        was: Start, ok: bool)
      requires rest != [] && rest[0].key != "" && Tracks(fields, start, rest, made, was)
      requires FieldWalked(rest[0], ok, was.pos, was.stack, was.calls, was.got) && (ok ==> stack == was.stack)
      requires ok && Keyed(rest[0].value) ==>
                 At(pos, FieldTokens(rest[1..]) + [CloseObj]) &&
                     pos + |FieldTokens(rest[1..])| == was.pos + |FieldTokens(rest)|
      ensures var f := rest[0];
              && (ok && Keyed(f.value) ==>
                  InStep(fields, start, rest[1..], made + Made(f.value, start.stack + [f.key], search)))
              && (!Keyed(f.value) ==> !FieldsKeyed(fields))
              && (!ok && FieldsKeyed(fields) ==> !FieldsStream(fields, start.stack, search) &&
                                                 Called(start.calls, start.got, FieldsMade(fields, start.stack,
                                                     search)))
    {
      var f := rest[0];
      var m := Made(f.value, start.stack + [f.key], search);
      FieldsCons(rest, start.stack);
      CalledTwice(start.calls, start.got, made, was.calls, was.got, m);
      var tail := FieldsMade(rest[1..], start.stack, search);
      assert made + (m + tail) == made + m + tail && m + [] == m;
    }

    /** The end of the object was met, or an empty key taken for it. */
    lemma {:induction false} LastRound(fields: seq<Field>, start: Start, rest: seq<Field>, made: seq<Call>, was: Start)
      requires Tracks(fields, start, rest, made, was) && (rest == [] || rest[0].key == "")
      ensures rest == [] ==> FieldsKeyed(fields) && FieldsStream(fields, start.stack, search) && FieldTokens(rest) == []
      ensures rest == [] && Called(was.calls, was.got, []) ==>
                Called(start.calls, start.got, FieldsMade(fields, start.stack, search))
      ensures rest != [] ==> !FieldsKeyed(fields)
    {
      assert made + [] == made;
      if rest != [] { FieldsCons(rest, start.stack); }
    }

    lemma {:induction false} FieldsCons(fs: seq<Field>, stack: seq<string>)
      requires fs != []
      ensures FieldsKeyed(fs) <==> fs[0].key != "" && Keyed(fs[0].value) && FieldsKeyed(fs[1..])
      ensures FieldsStream(fs, stack, search) <==>
                Streams(fs[0].value, stack + [fs[0].key], search) && FieldsStream(fs[1..], stack, search)
      ensures FieldsMade(fs, stack, search) == Made(fs[0].value, stack + [fs[0].key], search) +
                if Streams(fs[0].value, stack + [fs[0].key], search) then FieldsMade(fs[1..], stack, search) else []
    {
    }

    lemma {:induction false} CalledTwice(calls0: seq<Call>, got0: bool, a: seq<Call>, calls1: seq<Call>, got1: bool,
                                         b: seq<Call>)
      requires calls1 == calls0 + a && got1 == (got0 || a != [])
      ensures Called(calls1, got1, b) ==> Called(calls0, got0, a + b)
    {
      assert calls0 + a + b == calls0 + (a + b);
    }

    /** One round of the object loop: the end of the object, or a name and its value. */
    method StreamField(ghost wf: bool, ghost rest: seq<Field>) returns (ok: bool, more: bool)
      requires wf ==> At(pos, FieldTokens(rest) + [CloseObj])
      modifies this`pos, this`stack, this`gotResults, this`calls
      ensures old(pos) <= pos && (ok ==> old(pos) < pos <= |tokens| && stack == old(stack))
      ensures ok ==> Depth(pos) >= Depth(old(pos)) - if more then 0 else 1
      ensures wf && rest == [] ==> ok && !more && pos == old(pos) + 1 && Called(old(calls), old(gotResults), [])
      ensures wf && rest != [] && rest[0].key == "" ==>
                ok && !more && pos == old(pos) + 1 && Depth(pos) == Depth(old(pos))
      ensures wf && rest != [] && rest[0].key != "" ==>
                (ok ==> more) && FieldWalked(rest[0], ok, old(pos), old(stack), old(calls), old(gotResults))
      ensures wf && rest != [] && rest[0].key != "" && ok && Keyed(rest[0].value) ==>
                At(pos, FieldTokens(rest[1..]) + [CloseObj]) &&
                    pos + |FieldTokens(rest[1..])| == old(pos) + |FieldTokens(rest)|
      decreases |tokens| - pos, 3
    {
      if wf && rest != [] { SplitField(pos, rest); }
      if wf && rest == [] { assert tokens[pos..pos + 1][0] == CloseObj; }
      var name;
      ok, name := GetNextName();
      more := name != "";
      if !ok || !more {
        return;
      }
      var saved := stack;
      stack := saved + [name];
      ok := Stream(wf, if wf then rest[0].value else Scalar(""));
      if !ok {
        return;
      }
      stack := saved;
    }

    /** What the walk of one field's value amounts to. */
    ghost predicate FieldWalked(f: Field, ok: bool, pos0: nat, stack0: seq<string>, calls0: seq<Call>, got0: bool)
      reads this
    {
      && (Keyed(f.value) ==> (ok <==> Streams(f.value, stack0 + [f.key], search)) &&
                             Called(calls0, got0, Made(f.value, stack0 + [f.key], search)))
      && (!Keyed(f.value) && ok ==> Depth(pos) > Depth(pos0))
    }

    /** All tokens of a value are consumed with success exactly when it has no empty keys and `Streams` says so. */
    method StreamWhole(v: Value) returns (ok: bool)
      requires At(pos, Tokens(v))
      modifies this`pos, this`stack, this`gotResults, this`calls
      ensures ok && pos == old(pos) + |Tokens(v)| <==> Keyed(v) && Streams(v, old(stack), search)
      ensures ok && pos == old(pos) + |Tokens(v)| ==>
                stack == old(stack) && Called(old(calls), old(gotResults), Visits(v, old(stack), search))
    {
      DepthOfValue(pos, v);
      ghost var before := stack;
      ok := Stream(true, v);
      if Keyed(v) && Streams(v, before, search) { MadeIsVisits(v, before, search); }
    }
  }

  /** An object whose first key is empty. */
  predicate StartsEmpty(v: Value) { v.Obj? && v.fields != [] && v.fields[0].key == "" }

  /** `{"": 1}`: two of its four tokens are consumed, and success is reported. */
  method EmptyKeyEndsObject() returns (ok: bool, pos: nat)
    ensures ok && pos == 2 < |Tokens(Obj([Field("", Scalar("1"))]))|
  {
    ghost var v := Obj([Field("", Scalar("1"))]);
    var tokens := [OpenObj, StrTok(""), ScalarTok("1"), CloseObj];
    assert v.fields[1..] == [];
    assert FieldTokens(v.fields) == [StrTok(""), ScalarTok("1")];
    assert Tokens(v) == tokens && tokens[0..4] == tokens;
    var js := new JsonStream(tokens, []);
    ok := js.Stream(true, v);
    pos := js.pos;
  }

  lemma {:induction false} CallsStep(path: string, items: seq<Value>, k: nat)
    requires k < |items|
    ensures items[k..][1..] == items[k + 1..]
    ensures CallsFor(path, items[..k]) + [Call(path, items[k])] == CallsFor(path, items[..k + 1])
  {
  }

  lemma {:induction false} FirstToken(v: Value)
    ensures |Tokens(v)| > 0 && !Tokens(v)[0].CloseArr? && !Tokens(v)[0].CloseObj?
    ensures !IsDelim(Tokens(v)[0]) ==> |Tokens(v)| == 1
  {
  }

  lemma {:induction false} Associate<T>(a: seq<T>, b: seq<T>, c: seq<T>, d: seq<T>)
    ensures a + b + c + d == a + (b + (c + d)) == a + (b + c + d)
  {
    assert b + (c + d) == b + c + d;
  }

  lemma {:induction false} Shift<T>(done: seq<T>, rest: seq<T>)
    requires rest != []
    ensures done + [rest[0]] + rest[1..] == done + rest
  {
  }

  /** The tokens inside an object, as a flat list of values. */
  function Members(fs: seq<Field>): seq<Value> {
    if fs == [] then [] else [Str(fs[0].key), fs[0].value] + Members(fs[1..])
  }

  lemma {:induction false} MembersTokens(fs: seq<Field>)
    ensures TokensAll(Members(fs)) == FieldTokens(fs)
  {
    if fs != [] {
      MembersTokens(fs[1..]);
      var m := Members(fs);
      assert m[1..] == [fs[0].value] + Members(fs[1..]);
      assert m[1..][1..] == Members(fs[1..]);
    }
  }
}
