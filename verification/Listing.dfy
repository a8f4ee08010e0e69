/** A listing written piece by piece inside the response envelope, and read back by the client's streamer. */
module Listing {
  import opened Options
  import opened Strings
  import opened JsonStreamer

  /** What is written: tokens and the punctuation between them. */
  datatype Lexeme = Tok(token: Token) | Comma | Colon

  function Print(v: Value): seq<Lexeme>
    decreases v
  {
    match v
    case Scalar(l) => [Tok(ScalarTok(l))]
    case Str(s) => [Tok(StrTok(s))]
    case Arr(items) => [Tok(OpenArr)] + PrintAll(items) + [Tok(CloseArr)]
    case Obj(fields) => [Tok(OpenObj)] + PrintFields(fields) + [Tok(CloseObj)]
  }

  /** Elements separated by commas. */
  function PrintAll(vs: seq<Value>): seq<Lexeme>
    decreases vs
  {
    if vs == [] then []
    else if |vs| == 1 then Print(vs[0])
    else Print(vs[0]) + [Comma] + PrintAll(vs[1..])
  }

  function PrintFields(fs: seq<Field>): seq<Lexeme>
    decreases fs
  {
    if fs == [] then []
    else
      var f := fs[0];
      [Tok(StrTok(f.key)), Colon] + Print(f.value) + (if |fs| == 1 then [] else [Comma] + PrintFields(fs[1..]))
  }

  /** The decoder's view of well-punctuated text: the tokens without the punctuation. */
  function Strip(ls: seq<Lexeme>): seq<Token> {
    if ls == [] then [] else (if ls[0].Tok? then [ls[0].token] else []) + Strip(ls[1..])
  }

  lemma {:induction false} StripAppend(a: seq<Lexeme>, b: seq<Lexeme>)
    ensures Strip(a + b) == Strip(a) + Strip(b)
  {
    if a == [] {
      assert a + b == b;
    } else {
      StripAppend(a[1..], b);
      assert (a + b)[1..] == a[1..] + b && (a + b)[0] == a[0];
      var head := if a[0].Tok? then [a[0].token] else [];
      assert head + (Strip(a[1..]) + Strip(b)) == head + Strip(a[1..]) + Strip(b);
    }
  }

  lemma {:induction false} StripOne(l: Lexeme)
    ensures Strip([l]) == if l.Tok? then [l.token] else []
  {
    assert [l][1..] == [];
  }

  lemma {:induction false} StripPrint(v: Value)
    ensures Strip(Print(v)) == Tokens(v)
    decreases v
  {
    match v
    case Scalar(l) => StripOne(Tok(ScalarTok(l)));
    case Str(s) => StripOne(Tok(StrTok(s)));
    case Arr(items) =>
      StripPrintAll(items);
      StripAppend([Tok(OpenArr)] + PrintAll(items), [Tok(CloseArr)]);
      StripAppend([Tok(OpenArr)], PrintAll(items));
      StripOne(Tok(OpenArr));
      StripOne(Tok(CloseArr));
    case Obj(fields) =>
      StripPrintFields(fields);
      StripAppend([Tok(OpenObj)] + PrintFields(fields), [Tok(CloseObj)]);
      StripAppend([Tok(OpenObj)], PrintFields(fields));
      StripOne(Tok(OpenObj));
      StripOne(Tok(CloseObj));
  }

  lemma {:induction false} StripPrintAll(vs: seq<Value>)
    ensures Strip(PrintAll(vs)) == TokensAll(vs)
    decreases vs
  {
    if vs != [] {
      StripPrint(vs[0]);
      StripPrintAll(vs[1..]);
      StripAppend(Print(vs[0]) + [Comma], PrintAll(vs[1..]));
      StripAppend(Print(vs[0]), [Comma]);
      StripOne(Comma);
    }
  }

  lemma {:induction false} StripPrintFields(fs: seq<Field>)
    ensures Strip(PrintFields(fs)) == FieldTokens(fs)
    decreases fs
  {
    if fs != [] {
      var f := fs[0];
      var head := [Tok(StrTok(f.key)), Colon];
      var tail := if |fs| == 1 then [] else [Comma] + PrintFields(fs[1..]);
      StripPrint(f.value);
      StripPrintFields(fs[1..]);
      StripAppend(head + Print(f.value), tail);
      StripAppend(head, Print(f.value));
      StripAppend([Tok(StrTok(f.key))], [Colon]);
      assert head == [Tok(StrTok(f.key))] + [Colon];
      StripOne(Tok(StrTok(f.key)));
      StripOne(Colon);
      if |fs| > 1 {
        StripAppend([Comma], PrintFields(fs[1..]));
        StripOne(Comma);
      }
    }
  }

  lemma {:induction false} PrintAllCons(h: Value, t: seq<Value>)
    ensures PrintAll([h] + t) == if t == [] then Print(h) else Print(h) + [Comma] + PrintAll(t)
  {
    assert ([h] + t)[1..] == t;
  }

  lemma {:induction false} PrintAllSnoc(vs: seq<Value>, v: Value)
    ensures PrintAll(vs + [v]) == PrintAll(vs) + (if vs == [] then [] else [Comma]) + Print(v)
    decreases vs
  {
    if vs == [] {
      assert vs + [v] == [v];
    } else {
      var h, t := vs[0], vs[1..];
      PrintAllSnoc(t, v);
      assert vs + [v] == [h] + (t + [v]) && vs == [h] + t;
      PrintAllCons(h, t + [v]);
      PrintAllCons(h, t);
      if t == [] {
        assert [] + [] + Print(v) == Print(v) && t + [v] == [v];
      } else {
        Associate(Print(h) + [Comma], PrintAll(t), [Comma], Print(v));
      }
    }
  }

  const OK := 200

  /** `httpResponseWriter`: it adds the envelope prefix before the first piece and sends one status header. */
  class ResponseWriter {
    const isHead: bool
    const successRC: int
    var writeHeaderCalled: bool
    var writeCalled: bool
    var statuses: seq<int>
    var out: seq<Lexeme>
    var flushed: nat

    constructor (isHead: bool, successRC: int)
      ensures this.isHead == isHead && this.successRC == successRC
      ensures !writeHeaderCalled && !writeCalled && statuses == [] && out == [] && flushed == 0
    {
      this.isHead, this.successRC := isHead, successRC;
      writeHeaderCalled, writeCalled, statuses, out, flushed := false, false, [], [], 0;
    }

    method WriteHeader(scode: int)
      modifies this`writeHeaderCalled, this`statuses
      ensures writeHeaderCalled
      ensures statuses == if old(writeHeaderCalled) then old(statuses)
                          else old(statuses) + [if scode == OK then successRC else scode]
    {
      if !writeHeaderCalled {
        statuses := statuses + [if scode == OK then successRC else scode];
        writeHeaderCalled := true;
      }
    }

    method Write(buf: seq<Lexeme>)
      modifies this`writeHeaderCalled, this`statuses, this`writeCalled, this`out
      ensures isHead ==> unchanged(this)
      ensures !isHead ==> writeHeaderCalled && writeCalled
      ensures !isHead ==> statuses == if old(writeHeaderCalled) then old(statuses) else old(statuses) + [successRC]
      ensures !isHead && old(writeCalled) ==> out == old(out) + buf
      ensures !isHead && !old(writeCalled) ==> out == old(out) + EnvelopePrefix() + buf
    {
      if isHead {
        return;
      }
      WriteHeader(OK);
      if !writeCalled {
        out := out + EnvelopePrefix();
        writeCalled := true;
      }
      out := out + buf;
    }

    method Flush()
      modifies this`flushed
      ensures flushed == old(flushed) + 1
    {
      flushed := flushed + 1;
    }
  }

  function EnvelopePrefix(): seq<Lexeme> {
    [Tok(OpenObj), Tok(StrTok("result")), Colon]
  }

  // The pieces that are written

  function RowsOpen(field: string): seq<Lexeme> { [Tok(OpenObj), Tok(StrTok(field)), Colon, Tok(OpenArr)] }

  function RowsClose(caname: string): seq<Lexeme> {
    [Tok(CloseArr), Comma, Tok(StrTok("caname")), Colon, Tok(StrTok(caname)), Tok(CloseObj)]
  }

  function ErrorsOpen(): seq<Lexeme> { [Comma, Tok(StrTok("errors")), Colon, Tok(OpenArr)] }

  function ErrorsClose(): seq<Lexeme> {
    [Tok(CloseArr), Comma, Tok(StrTok("messages")), Colon, Tok(OpenArr), Tok(CloseArr), Comma, Tok(StrTok("success")),
        Colon]
  }

  function Verdict(ok: bool): seq<Lexeme> { [Tok(ScalarTok(if ok then "true" else "false")), Tok(CloseObj)] }

  /** What the pieces add up to: the listing ... */
  function ListingOf(field: string, rows: seq<Value>, caname: string): Value {
    Obj([Field(field, Arr(rows)), Field("caname", Str(caname))])
  }

  /** ... inside the response envelope. */
  function Envelope(result: Value, errors: seq<Value>): Value {
    Obj(EnvelopeFields(result, errors))
  }

  function EnvelopeFields(result: Value, errors: seq<Value>): seq<Field> {
    [Field("result", result)] + ([Field("errors", Arr(errors))] + ([Field("messages", Arr([]))] +
    [Field("success", Scalar(if errors == [] then "true" else "false"))]))
  }

  lemma {:induction false} PrintCons(f: Field, fs: seq<Field>)
    requires fs != []
    ensures PrintFields([f] + fs) == [Tok(StrTok(f.key)), Colon] + Print(f.value) + ([Comma] + PrintFields(fs))
  {
    assert ([f] + fs)[1..] == fs;
  }

  lemma {:induction false} PrintListing(field: string, rows: seq<Value>, caname: string)
    ensures Print(ListingOf(field, rows, caname)) == RowsOpen(field) + PrintAll(rows) + RowsClose(caname)
  {
    var f, g := Field(field, Arr(rows)), Field("caname", Str(caname));
    assert [f, g] == [f] + [g];
    PrintCons(f, [g]);
    assert PrintFields([g]) == [Tok(StrTok("caname")), Colon, Tok(StrTok(caname))];
  }

  lemma {:induction false} PrintEnvelope(result: Value, errors: seq<Value>)
    ensures Print(Envelope(result, errors)) ==
            EnvelopePrefix() + Print(result) + ErrorsOpen() + PrintAll(errors) + ErrorsClose() + Verdict(errors == [])
  {
    var r, e, m, s := Field("result", result), Field("errors", Arr(errors)), Field("messages", Arr([])),
                      Field("success", Scalar(if errors == [] then "true" else "false"));
    PrintCons(r, [e] + ([m] + [s]));
    PrintCons(e, [m] + [s]);
    PrintCons(m, [s]);
    assert Print(m.value) == [Tok(OpenArr), Tok(CloseArr)];
    assert PrintFields([s]) == [Tok(StrTok("success")), Colon, Tok(ScalarTok(s.value.literal))];
    EnvelopePieces(Print(result), PrintAll(errors), Tok(ScalarTok(s.value.literal)));
  }

  /** The same pieces, bracketed as they are written and as they nest. */
  lemma {:induction false} EnvelopePieces(result: seq<Lexeme>, errors: seq<Lexeme>, verdict: Lexeme)
    ensures [Tok(OpenObj)] +
            ([Tok(StrTok("result")), Colon] + result + ([Comma] +
             ([Tok(StrTok("errors")), Colon] + ([Tok(OpenArr)] + errors + [Tok(CloseArr)]) + ([Comma] +
              ([Tok(StrTok("messages")), Colon] + [Tok(OpenArr), Tok(CloseArr)] + ([Comma] +
               [Tok(StrTok("success")), Colon, verdict])))))) + [Tok(CloseObj)]
            == EnvelopePrefix() + result + ErrorsOpen() + errors + ErrorsClose() + [verdict, Tok(CloseObj)]
  {
  }

  /** Nothing has been written yet. */
  ghost predicate Fresh(w: ResponseWriter)
    reads w
  {
    !w.writeCalled && !w.writeHeaderCalled && w.statuses == [] && w.out == []
  }

  /** Where the handler meets an error, if it does: before it writes anything, reading a row, or encoding one. */
  datatype Trouble = Smooth | AtOnce | Reading(row: nat) | Encoding(row: nat)

  /** How the handler ends: a chunk size of zero makes it panic after the first row. */
  datatype End = Finished | Failed | Panicked

  /** The row at which the handler ends early, or the number of rows. */
  function EarlyRow(rows: seq<Value>, trouble: Trouble): nat {
    if (trouble.Reading? || trouble.Encoding?) && trouble.row < |rows| then trouble.row else |rows|
  }

  function EndOf(rows: seq<Value>, chunk: int, trouble: Trouble): End {
    if trouble.AtOnce? then Failed
    else if chunk == 0 && EarlyRow(rows, trouble) > 0 then Panicked
    else if EarlyRow(rows, trouble) < |rows| then Failed
    else Finished
  }

  /** The text of the rows up to there. */
  function RowsText(rows: seq<Value>, chunk: int, trouble: Trouble): seq<Lexeme> {
    var k := EarlyRow(rows, trouble);
    match EndOf(rows, chunk, trouble)
    case Finished => PrintAll(rows)
    case Panicked => PrintAll(rows[..1])
    case Failed => PrintAll(rows[..k]) + if trouble.Encoding? && k > 0 then [Comma] else []
  }

  /** The text of the result. */
  function ResultText(field: string, rows: seq<Value>, caname: string, chunk: int, trouble: Trouble): seq<Lexeme> {
    RowsOpen(field) + RowsText(rows, chunk, trouble) +
    if EndOf(rows, chunk, trouble) == Finished then RowsClose(caname) else []
  }

  /** `getCertificates` and `getIDs`: the rows between an opening and a closing piece, flushed every `chunk` rows; to a
      HEAD request nothing is written. */
  method WriteRows(w: ResponseWriter, field: string, rows: seq<Value>, caname: string, chunk: int, trouble: Trouble)
    returns (end: End)
    requires Fresh(w)
    modifies w
    ensures end == EndOf(rows, chunk, trouble)
    ensures w.isHead || trouble.AtOnce? ==> Fresh(w)
    ensures !w.isHead && !trouble.AtOnce? ==> Upto(w, EnvelopePrefix(), ResultText(field, rows, caname, chunk, trouble))
  {
    if trouble.AtOnce? {
      return Failed;
    }
    w.Write(RowsOpen(field));
    ghost var start := EnvelopePrefix() + RowsOpen(field);
    assert [] + EnvelopePrefix() + RowsOpen(field) == start;
    end := WriteLoop(w, rows, chunk, trouble, start);
    Regroup4(EnvelopePrefix(), RowsOpen(field), RowsText(rows, chunk, trouble),
        if end == Finished then RowsClose(caname) else []);
    if end == Finished {
      w.Write(RowsClose(caname));
      w.Flush();
    }
  }

  /** The loop over the rows. */
  method WriteLoop(w: ResponseWriter, rows: seq<Value>, chunk: int, trouble: Trouble,
                   ghost start: seq<Lexeme>) returns (end: End)
    requires Upto(w, start, []) && !trouble.AtOnce?
    modifies w
    ensures end == EndOf(rows, chunk, trouble) && Upto(w, start, RowsText(rows, chunk, trouble))
  {
    var rowNumber := 0;
    while rowNumber < |rows|
      invariant 0 <= rowNumber <= EarlyRow(rows, trouble)
      invariant chunk == 0 ==> rowNumber == 0
      invariant Upto(w, start, PrintAll(rows[..rowNumber]))
    {
      var more := WriteRow(w, rows, rowNumber, trouble, start);
      if !more {
        return Failed;
      }
      rowNumber := rowNumber + 1;
      if chunk == 0 {
        return Panicked;
      }
      if rowNumber % chunk == 0 {
        w.Flush();
      }
    }
    assert rows[..|rows|] == rows;
    end := Finished;
  }

  /** What has been written, unless to a HEAD request. */
  ghost predicate Upto(w: ResponseWriter, start: seq<Lexeme>, text: seq<Lexeme>)
    reads w
  {
    if w.isHead then Fresh(w)
    else w.writeCalled && w.writeHeaderCalled && w.statuses == [w.successRC] && w.out == start + text
  }

  lemma {:induction false} Regroup4(a: seq<Lexeme>, b: seq<Lexeme>, c: seq<Lexeme>, d: seq<Lexeme>)
    ensures a + b + c + d == a + (b + c + d)
    ensures d == [] ==> a + b + c == a + (b + c + d)
  {
    Associate(a, b, c, d);
  }

  lemma {:induction false} RowAppended(start: seq<Lexeme>, rows: seq<Value>, n: nat)
    requires 1 <= n <= |rows|
    ensures start + PrintAll(rows[..n]) ==
            start + PrintAll(rows[..n - 1]) + (if n == 1 then [] else [Comma]) + Print(rows[n - 1])
  {
    PrintAllSnoc(rows[..n - 1], rows[n - 1]);
    assert rows[..n] == rows[..n - 1] + [rows[n - 1]];
    Associate(start, PrintAll(rows[..n - 1]), if n == 1 then [] else [Comma], Print(rows[n - 1]));
  }

  /** One row, preceded by a comma unless it is the first; reading it may fail before the comma, encoding it after. */
  method WriteRow(w: ResponseWriter, rows: seq<Value>, rowNumber: nat, trouble: Trouble, ghost start: seq<Lexeme>)
    returns (more: bool)
    requires rowNumber < |rows| && Upto(w, start, PrintAll(rows[..rowNumber]))
    modifies w`writeHeaderCalled, w`statuses, w`writeCalled, w`out
    ensures more <==> trouble != Reading(rowNumber) && trouble != Encoding(rowNumber)
    ensures more ==> Upto(w, start, PrintAll(rows[..rowNumber + 1]))
    ensures !more ==>
              Upto(w, start, PrintAll(rows[..rowNumber]) + if trouble.Encoding? && rowNumber > 0 then [Comma] else [])
  {
    RowAppended(start, rows, rowNumber + 1);
    assert PrintAll(rows[..rowNumber]) + [] == PrintAll(rows[..rowNumber]);
    assert start + PrintAll(rows[..rowNumber]) + [Comma] == start + (PrintAll(rows[..rowNumber]) + [Comma]);
    if trouble == Reading(rowNumber) {
      return false;
    }
    if rowNumber > 0 {
      w.Write([Comma]);
    }
    if trouble == Encoding(rowNumber) {
      return false;
    }
    w.Write(Print(rows[rowNumber]));
    more := true;
  }

  /** The whole body; a panic ends it where it is. */
  function Body(result: seq<Lexeme>, failed: bool, error: Value): seq<Lexeme> {
    EnvelopePrefix() + result + ErrorsOpen() + PrintAll(if failed then [error] else []) + ErrorsClose() +
        Verdict(!failed)
  }

  /** What is sent for a listing: an error before anything is written leaves the empty string as the result. */
  function Sent(field: string, rows: seq<Value>, caname: string, chunk: int, trouble: Trouble,
                error: Value): seq<Lexeme> {
    var end := EndOf(rows, chunk, trouble);
    var result := if trouble.AtOnce? then Print(Str("")) else ResultText(field, rows, caname, chunk, trouble);
    if end == Panicked then EnvelopePrefix() + result else Body(result, end == Failed, error)
  }

  /** `ServeHTTP` around a streamed listing. The status is that of success as soon as anything has been written. */
  method ServeHTTP(w: ResponseWriter, field: string, rows: seq<Value>, caname: string, chunk: int, trouble: Trouble,
                   error: Value, errorStatus: int)
    returns (end: End)
    requires Fresh(w)
    modifies w
    ensures end == EndOf(rows, chunk, trouble)
    ensures w.isHead ==> w.out == []
    ensures !w.isHead ==> w.out == Sent(field, rows, caname, chunk, trouble, error)
    ensures w.statuses ==
              if end == Failed &&
                  (w.isHead || trouble.AtOnce?) then [if errorStatus == OK then w.successRC else errorStatus]
              else if end == Panicked && w.isHead then []
              else [w.successRC]
  {
    end := WriteRows(w, field, rows, caname, chunk, trouble);
    if end == Panicked {
      return;
    }
    w.WriteHeader(if end == Failed then errorStatus else w.successRC);
    if !w.writeCalled {
      w.Write(Print(Str("")));
    }
    FinishResponse(w, if trouble.AtOnce? then Print(Str("")) else ResultText(field, rows, caname, chunk, trouble),
        end == Failed, error);
  }

  /** The errors, the messages and the verdict, after the result. */
  method FinishResponse(w: ResponseWriter, ghost result: seq<Lexeme>, failed: bool, error: Value)
    requires w.writeHeaderCalled
    requires !w.isHead ==> w.writeCalled && w.out == EnvelopePrefix() + result
    modifies w
    ensures w.statuses == old(w.statuses)
    ensures w.isHead ==> w.out == old(w.out)
    ensures !w.isHead ==> w.out == Body(result, failed, error)
  {
    ghost var errors := if failed then [error] else [];
    w.Write(ErrorsOpen());
    ghost var begun := w.out;
    if failed {
      w.Write(Print(error));
    }
    assert !w.isHead ==> w.out == begun + PrintAll(errors);
    w.Write(ErrorsClose());
    w.Write(Verdict(!failed));
    w.Flush();
  }

  // Is the body well-formed?

  /** A result text that is the print of a value gives a body that is the print of its envelope. */
  lemma {:induction false} BodyPrints(result: Value, failed: bool, error: Value)
    ensures Body(Print(result), failed, error) == Print(Envelope(result, if failed then [error] else []))
  {
    PrintEnvelope(result, if failed then [error] else []);
  }

  /** How much deeper a text ends than it starts. */
  ghost function Rise(ls: seq<Lexeme>): int { Sum(Strip(ls)) }

  lemma {:induction false} RiseAppend(a: seq<Lexeme>, b: seq<Lexeme>)
    ensures Rise(a + b) == Rise(a) + Rise(b)
  {
    StripAppend(a, b);
    SumAppend(Strip(a), Strip(b));
  }

  lemma {:induction false} RiseOne(l: Lexeme)
    ensures Rise([l]) == if l.Tok? then Delta(l.token) else 0
  {
    StripOne(l);
    if l.Tok? { SumOne(l.token); }
  }

  lemma {:induction false} RiseCons(l: Lexeme, ls: seq<Lexeme>)
    ensures Rise([l] + ls) == (if l.Tok? then Delta(l.token) else 0) + Rise(ls)
  {
    RiseAppend([l], ls);
    RiseOne(l);
  }

  lemma {:induction false} PrintIsLevel(v: Value)
    ensures Rise(Print(v)) == 0
  {
    StripPrint(v);
    Balanced(v);
  }

  lemma {:induction false} RowsAreLevel(vs: seq<Value>)
    ensures Rise(PrintAll(vs)) == 0
  {
    StripPrintAll(vs);
    BalancedAll(vs);
  }

  lemma {:induction false} RiseFlat(ls: seq<Lexeme>)
    requires forall i :: 0 <= i < |ls| ==> !(ls[i].Tok? && IsDelim(ls[i].token))
    ensures Rise(ls) == 0
  {
    if ls != [] {
      assert ls == [ls[0]] + ls[1..];
      RiseCons(ls[0], ls[1..]);
      RiseFlat(ls[1..]);
    }
  }

  lemma {:induction false} OpeningRises(field: string)
    ensures Rise(EnvelopePrefix()) == 1 && Rise(RowsOpen(field)) == 2 && Rise(ErrorsOpen()) == 1
  {
    var key, rows, errors := [Tok(StrTok("result")), Colon], [Tok(StrTok(field)), Colon], [Comma,
        Tok(StrTok("errors")), Colon];
    RiseFlat(key);
    RiseFlat(rows);
    RiseFlat(errors);
    RiseCons(Tok(OpenObj), key);
    RiseAppend(rows, [Tok(OpenArr)]);
    RiseCons(Tok(OpenObj), rows + [Tok(OpenArr)]);
    RiseAppend(errors, [Tok(OpenArr)]);
    RiseOne(Tok(OpenArr));
    assert EnvelopePrefix() == [Tok(OpenObj)] + key && ErrorsOpen() == errors + [Tok(OpenArr)];
    assert RowsOpen(field) == [Tok(OpenObj)] + (rows + [Tok(OpenArr)]);
  }

  lemma {:induction false} ClosingRises()
    ensures Rise(ErrorsClose()) == -1
  {
    var messages, success := [Comma, Tok(StrTok("messages")), Colon], [Comma, Tok(StrTok("success")), Colon];
    var empty := [Tok(OpenArr)] + ([Tok(CloseArr)] + success);
    RiseFlat(messages);
    RiseFlat(success);
    RiseCons(Tok(CloseArr), success);
    RiseCons(Tok(OpenArr), [Tok(CloseArr)] + success);
    RiseAppend(messages, empty);
    RiseCons(Tok(CloseArr), messages + empty);
    ClosingPieces(messages, success);
  }

  lemma {:induction false} ClosingPieces(messages: seq<Lexeme>, success: seq<Lexeme>)
    requires messages == [Comma, Tok(StrTok("messages")), Colon] && success == [Comma, Tok(StrTok("success")), Colon]
    ensures ErrorsClose() == [Tok(CloseArr)] + (messages + ([Tok(OpenArr)] + ([Tok(CloseArr)] + success)))
  {
  }

  lemma {:induction false} VerdictRises(ok: bool)
    ensures Rise(Verdict(ok)) == -1
  {
    var word := [Tok(ScalarTok(if ok then "true" else "false"))];
    RiseFlat(word);
    RiseAppend(word, [Tok(CloseObj)]);
    RiseOne(Tok(CloseObj));
    assert Verdict(ok) == word + [Tok(CloseObj)];
  }

  lemma {:induction false} BodyRises(result: seq<Lexeme>, failed: bool, error: Value)
    ensures Rise(Body(result, failed, error)) == Rise(result)
  {
    var errors := PrintAll(if failed then [error] else []);
    OpeningRises("");
    ClosingRises();
    VerdictRises(!failed);
    RowsAreLevel(if failed then [error] else []);
    RiseAppend(EnvelopePrefix(), result);
    RiseAppend(EnvelopePrefix() + result, ErrorsOpen());
    RiseAppend(EnvelopePrefix() + result + ErrorsOpen(), errors);
    RiseAppend(EnvelopePrefix() + result + ErrorsOpen() + errors, ErrorsClose());
    RiseAppend(EnvelopePrefix() + result + ErrorsOpen() + errors + ErrorsClose(), Verdict(!failed));
  }

  /** Broken off inside the rows, the result never closes what it opened. */
  lemma {:induction false} BrokenRises(field: string, rows: seq<Value>, tail: seq<Lexeme>)
    requires tail == [] || tail == [Comma]
    ensures Rise(RowsOpen(field) + PrintAll(rows) + tail) == 2
  {
    OpeningRises(field);
    RowsAreLevel(rows);
    RiseFlat(tail);
    RiseAppend(RowsOpen(field), PrintAll(rows));
    RiseAppend(RowsOpen(field) + PrintAll(rows), tail);
  }

  /** The body is a well-formed value exactly when the handler finishes, or fails before it writes anything. */
  lemma {:induction false} WellFormedExactly(field: string, rows: seq<Value>, caname: string, chunk: int,
                                             trouble: Trouble, error: Value)
    ensures (exists v :: Print(v) == Sent(field, rows, caname, chunk, trouble, error)) <==>
            EndOf(rows, chunk, trouble) == Finished || trouble.AtOnce?
  {
    var end := EndOf(rows, chunk, trouble);
    if end == Finished {
      PrintListing(field, rows, caname);
      BodyPrints(ListingOf(field, rows, caname), false, error);
    } else if trouble.AtOnce? {
      BodyPrints(Str(""), true, error);
    } else {
      BrokenBody(field, rows, caname, chunk, trouble, error);
      forall v ensures Print(v) != Sent(field, rows, caname, chunk, trouble, error) { PrintIsLevel(v); }
    }
  }

  lemma {:induction false} BrokenBody(field: string, rows: seq<Value>, caname: string, chunk: int, trouble: Trouble,
                                      error: Value)
    requires EndOf(rows, chunk, trouble) != Finished && !trouble.AtOnce?
    ensures Rise(Sent(field, rows, caname, chunk, trouble, error)) > 0
  {
    var result := ResultText(field, rows, caname, chunk, trouble);
    var k := EarlyRow(rows, trouble);
    if EndOf(rows, chunk, trouble) == Panicked {
      BrokenRises(field, rows[..1], []);
      assert result == RowsOpen(field) + PrintAll(rows[..1]) + [];
      RiseAppend(EnvelopePrefix(), result);
      OpeningRises(field);
    } else {
      var tail := if trouble.Encoding? && k > 0 then [Comma] else [];
      BrokenRises(field, rows[..k], tail);
      assert result == RowsOpen(field) + PrintAll(rows[..k]) + tail;
      BodyRises(result, true, error);
    }
  }

  /** One row read, the second not: the first arrives, the body never closes its array, and the status says success. */
  method BrokenListing(row: Value, error: Value) returns (w: ResponseWriter)
    ensures w.statuses == [200] && forall v :: Print(v) != w.out
  {
    w := new ResponseWriter(false, OK);
    var end := ServeHTTP(w, "certs", [row, row], "ca", 100, Reading(1), error, 500);
    WellFormedExactly("certs", [row, row], "ca", 100, Reading(1), error);
  }

  /** `StreamJSONArray`: the listed array, and the errors array whose callback always fails. */
  function ClientSearch(field: string): seq<SearchElement> {
    [SearchElement("result." + field, false), SearchElement("errors", true)]
  }

  lemma {:induction false} WalkCons(f: Field, fs: seq<Field>, stack: seq<string>, search: seq<SearchElement>)
    ensures FieldsKeyed([f] + fs) <==> f.key != "" && Keyed(f.value) && FieldsKeyed(fs)
    ensures FieldsStream([f] + fs, stack, search) <==>
              Streams(f.value, stack + [f.key], search) && FieldsStream(fs, stack, search)
    ensures FieldsMade([f] + fs, stack, search) == Made(f.value, stack + [f.key], search) +
              if Streams(f.value, stack + [f.key], search) then FieldsMade(fs, stack, search) else []
  {
    assert ([f] + fs)[1..] == fs && ([f] + fs)[0] == f;
  }

  /** The client's walk over the listing itself. */
  lemma {:induction false} ListingWalk(field: string, rows: seq<Value>, caname: string)
    requires field in ["certs", "identities"]
    ensures Keyed(ListingOf(field, rows, caname)) &&
            Streams(ListingOf(field, rows, caname), ["result"], ClientSearch(field))
    ensures Made(ListingOf(field, rows, caname), ["result"], ClientSearch(field)) == CallsFor("result." + field, rows)
  {
    var search := ClientSearch(field);
    FindInClient(field);
    var f, g := Field(field, Arr(rows)), Field("caname", Str(caname));
    assert ListingOf(field, rows, caname).fields == [f] + ([g] + []);
    WalkCons(f, [g] + [], ["result"], search);
    WalkCons(g, [], ["result"], search);
    assert ["result"] + [field] == ["result", field];
  }

  /** The client's walk over the envelope: the callbacks of the result, and failure at the first error. */
  lemma {:induction false} EnvelopeWalk(field: string, result: Value, errors: seq<Value>)
    requires field in ["certs", "identities"]
    requires Keyed(result) && Streams(result, ["result"], ClientSearch(field))
    ensures Keyed(Envelope(result, errors))
    ensures Streams(Envelope(result, errors), [], ClientSearch(field)) <==> errors == []
    ensures Made(Envelope(result, errors), [], ClientSearch(field)) == Made(result, ["result"], ClientSearch(field))
  {
    var search := ClientSearch(field);
    FindInClient(field);
    var r, e := Field("result", result), Field("errors", Arr(errors));
    var tail := [Field("messages", Arr([]))] + [Field("success", Scalar(if errors == [] then "true" else "false"))];
    WalkCons(r, [e] + tail, [], search);
    WalkCons(e, tail, [], search);
    TailWalk(field, if errors == [] then "true" else "false");
    assert [] + ["result"] == ["result"] && [] + ["errors"] == ["errors"];
  }

  /** Nothing is owed to the last two fields of the envelope. */
  lemma {:induction false} TailWalk(field: string, verdict: string)
    requires field in ["certs", "identities"]
    ensures var tail := [Field("messages", Arr([]))] + [Field("success", Scalar(verdict))];
            FieldsKeyed(tail) && FieldsStream(tail, [], ClientSearch(field)) &&
                FieldsMade(tail, [], ClientSearch(field)) == []
  {
    var search := ClientSearch(field);
    FindInClient(field);
    var m, s := Field("messages", Arr([])), Field("success", Scalar(verdict));
    WalkCons(m, [s], [], search);
    assert [s] == [s] + [];
    WalkCons(s, [], [], search);
    assert [] + ["messages"] == ["messages"];
  }

  lemma {:induction false} FindInClient(field: string)
    requires field in ["certs", "identities"]
    ensures Join([], '.') == "" && Join(["result"], '.') == "result" &&
            Join(["result", field], '.') == "result." + field
    ensures Join(["errors"], '.') == "errors" && Join(["messages"], '.') == "messages"
    ensures Find(ClientSearch(field), "").None? && Find(ClientSearch(field), "result").None?
    ensures Find(ClientSearch(field), "messages").None?
    ensures Find(ClientSearch(field), "result." + field) == Some(SearchElement("result." + field, false))
    ensures Find(ClientSearch(field), "errors") == Some(SearchElement("errors", true))
  {
    assert ["result", field][1..] == [field];
    var path := "result." + field;
    var search := ClientSearch(field);
    assert search[1..] == [SearchElement("errors", true)];
    assert search[1..][1..] == [];
    assert |path| > 8 && "errors"[0] != "result"[0] && |"messages"| == 8;
    assert Find([SearchElement("errors", true)], "").None?;
    assert Find([SearchElement("errors", true)], "result").None?;
    assert Find([SearchElement("errors", true)], "messages").None?;
  }

  /** Server and client together: if the body is well-formed, every row arrives, in order, whatever the chunk size, and
      results are reported exactly when there is a row; an error response is reported as an error and delivers
      nothing. */
  method ListAndStream(field: string, rows: seq<Value>, caname: string, chunk: int, trouble: Trouble, error: Value,
                       errorStatus: int, successRC: int)
    returns (end: End, ok: bool, gotResults: bool, received: seq<Call>)
    requires field in ["certs", "identities"]
    ensures end == EndOf(rows, chunk, trouble)
    ensures end == Finished ==> ok && received == CallsFor("result." + field, rows) && (gotResults <==> rows != [])
    ensures trouble.AtOnce? ==> !ok && received == [] && !gotResults
  {
    var w := new ResponseWriter(false, successRC);
    end := ServeHTTP(w, field, rows, caname, chunk, trouble, error, errorStatus);
    ghost var wf := end == Finished || trouble.AtOnce?;
    ghost var body := if end == Finished then Envelope(ListingOf(field, rows, caname), []) else Envelope(Str(""),
        [error]);
    StripPrint(body);
    if end == Finished {
      PrintListing(field, rows, caname);
      BodyPrints(ListingOf(field, rows, caname), false, error);
      ListingWalk(field, rows, caname);
      EnvelopeWalk(field, ListingOf(field, rows, caname), []);
    } else {
      BodyPrints(Str(""), true, error);
      EnvelopeWalk(field, Str(""), [error]);
    }
    var js := new JsonStream(Strip(w.out), ClientSearch(field));
    assert js.tokens[0..|js.tokens|] == js.tokens;
    ok := js.Stream(wf, body);
    gotResults, received := js.gotResults, js.calls;
  }
}
