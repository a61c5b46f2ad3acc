/** A head and the body behind it, wherever the writes are cut (onion/request_parser.c). */
module Upload {
  import opened Wrappers
  import opened CText
  import opened RequestParser
  import opened RequestReader
  import opened Bodies

  const CONTENT_LENGTH: string := "Content-Length"
  const CONTENT_TYPE: string := "Content-Type"
  const URLENCODED: string := "application/x-www-form-urlencoded"

  /** The body's declared length, as `prepare_PUT` and `prepare_POST` take it. */
  function Declared(headers: seq<Header>): (r: Option<int>) {
    var cl := GetHeader(headers, CONTENT_LENGTH);
    if cl.Some? then Some(Atoi(cl.value)) else None
  }

  /** The length is declared and allowed; a negative one is huge as the `size_t` it is put in. */
  function Allowed(headers: seq<Header>, max: nat): Option<nat> {
    var d := Declared(headers);
    if d.Some? && 0 <= d.value <= max then Some(d.value) else None
  }

  datatype Outcome = Refused | Waiting | Done

  /** `prepare_POST` takes the body for a form. */
  predicate IsForm(headers: seq<Header>) {
    var ct := GetHeader(headers, CONTENT_TYPE);
    ct.None? || Contains(ct.value, URLENCODED)
  }

  /** One chunk of a head that will be accepted. */
  lemma HeadStep(s: Head, c: string, later: string)
    requires Accepted(FeedAll(s, c + later))
    ensures CanWrite(s, c) && FeedAll(WriteChunk(s, c), later) == FeedAll(s, c + later)
    ensures WriteChunk(s, c).mode.Stopped? ==> Accepted(WriteChunk(s, c))
  {
    hide FeedAll, Forget, CanWrite;
    AcceptedCanWrite(s, c, later);
    FeedAppend(s, c, later);
    ForgettingIsHarmless(FeedAll(s, c), later);
    var t := WriteChunk(s, c);
    if t.mode.Stopped? && !Accepted(t) {
      FailedStaysFailed(t, later);
    }
  }

  /** The head is read up to its end, which may stand anywhere in a chunk. */
  method ReceiveHead(chunks: seq<string>) returns (req: Request, k: nat, at: nat)
    requires Accepted(FeedAll(START, Concat(chunks)))
    ensures fresh(req) && req.Valid() && req.Abs() == HeadOf(FeedAll(START, Concat(chunks)))
    ensures k < |chunks| && at <= |chunks[k]|
    ensures FeedAll(START, Concat(chunks)).rest == chunks[k][at..] + Concat(chunks[k + 1..])
  {
    hide FeedAll, CanWrite, WriteChunk;
    ghost var h := FeedAll(START, Concat(chunks));
    req := new Request();
    k, at := 0, 0;
    assert chunks[0..] == chunks;
    while k < |chunks|
      invariant k <= |chunks| && fresh(req) && fresh(req.str) && req.Valid() && !req.parser.Stopped?
      invariant FeedAll(req.Abs(), Concat(chunks[k..])) == h
    {
      ghost var s, later := req.Abs(), Concat(chunks[k + 1..]);
      ConcatStep(chunks, k);
      HeadStep(s, chunks[k], later);
      var r;
      r, at := req.Write(chunks[k]);
      if req.parser.Stopped? {
        RestFollows(req.Abs().(rest := chunks[k][at..]), later);
        return;
      }
      k := k + 1;
    }
    assert chunks[k..] == [];
    FeedNothing(req.Abs());
    assert false;
  }

  lemma ConcatRest(c: string, later: seq<string>)
    ensures Concat([c] + later) == c + Concat(later)
  {
    assert ([c] + later)[1..] == later;
  }

  /**
   A PUT, head and body cut anywhere: the head is understood, and unless the server refuses
   its length the file gets exactly the declared bytes, those in the head's last write included.
   */
  method ReceivePut(chunks: seq<string>, max: nat) returns (r: Outcome, req: Request, p: PutBody?)
    requires FeedAll(START, Concat(chunks)).mode == Stopped(Complete(ReadPut))
    ensures req.Valid() && req.Abs() == HeadOf(FeedAll(START, Concat(chunks)))
    ensures var h := FeedAll(START, Concat(chunks));
      match Allowed(h.headers, max)
      case None => r == Refused
      case Some(size) =>
        && r == (if size <= |h.rest| then Done else Waiting)
        && p != null && p.file == if r == Done then h.rest[..size] else h.rest
  {
    hide FeedAll, Declared;
    var k, at;
    req, k, at := ReceiveHead(chunks);
    ConcatRest(chunks[k][at..], chunks[k + 1..]);
    var size := Allowed(req.headers, max);
    if size.None? {
      return Refused, req, null;
    }
    if size.value == 0 {
      p := new PutBody(0);
      return Done, req, p;
    }
    var done, k', end;
    done, p, k', end := Bodies.ReadPut(size.value, [chunks[k][at..]] + chunks[k + 1..]);
    r := if done then Done else Waiting;
  }

  /** The same of a form: it is parsed once its declared bytes, and one byte at least, have come, and as those bytes. */
  method ReceiveForm(chunks: seq<string>, max: nat) returns (r: Outcome, req: Request, f: FormBody?)
    requires FeedAll(START, Concat(chunks)).mode == Stopped(Complete(ReadPost))
    requires IsForm(FeedAll(START, Concat(chunks)).headers)
    ensures req.Valid() && req.Abs() == HeadOf(FeedAll(START, Concat(chunks)))
    ensures var h := FeedAll(START, Concat(chunks));
      match Allowed(h.headers, max)
      case None => r == Refused
      case Some(size) =>
        && r == (if size <= |h.rest| && h.rest != [] then Done else Waiting)
        && f != null && f.Valid()
        && if r == Done then f.extra[..] == h.rest[..size] + [NUL] else f.extra[..f.pos] == h.rest
  {
    hide FeedAll, Declared, IsForm;
    var k, at;
    req, k, at := ReceiveHead(chunks);
    ConcatRest(chunks[k][at..], chunks[k + 1..]);
    var size := Allowed(req.headers, max);
    if size.None? {
      return Refused, req, null;
    }
    var done;
    done, f := ReadForm(size.value, [chunks[k][at..]] + chunks[k + 1..]);
    r := if done then Done else Waiting;
  }

  /** A printed PUT request and its body, cut anywhere, arrive as they were sent, unless the body is too long. */
  method UploadPrinted(ghost target: string, ghost headers: seq<Header>, ghost body: string, chunks: seq<string>,
                       max: nat)
    returns (r: Outcome, req: Request, p: PutBody?)
    requires SpaceFree(target) && |target| < LIMIT && Declared(headers) == Some(|body|)
    requires forall i :: 0 <= i < |headers| ==> GoodKey(headers[i].key) && GoodValue(headers[i].value)
    requires Concat(chunks) == Print(5, target, headers) + body
    ensures r == if |body| <= max then Done else Refused
    ensures r == Done ==> p != null && p.file == body
    ensures req.verb == 5 && req.target == Some(target) && req.headers == headers
  {
    hide FeedAll, Print, GoodKey, GoodValue, Declared;
    ParsePrintedWithBody(5, target, headers, body, chunks);
    r, req, p := ReceivePut(chunks, max);
    assert body[..|body|] == body;
  }

  /** A printed form likewise; one that declares nothing waits for the next byte. */
  method PostPrinted(ghost target: string, ghost headers: seq<Header>, ghost body: string, chunks: seq<string>,
                     max: nat)
    returns (r: Outcome, req: Request, f: FormBody?)
    requires SpaceFree(target) && |target| < LIMIT && Declared(headers) == Some(|body|) && IsForm(headers)
    requires forall i :: 0 <= i < |headers| ==> GoodKey(headers[i].key) && GoodValue(headers[i].value)
    requires Concat(chunks) == Print(1, target, headers) + body
    ensures r == if |body| > max then Refused else if body == [] then Waiting else Done
    ensures r == Done ==> f != null && f.extra[..] == body + [NUL]
    ensures req.verb == 1 && req.target == Some(target) && req.headers == headers
  {
    hide FeedAll, Print, GoodKey, GoodValue, Declared;
    ParsePrintedWithBody(1, target, headers, body, chunks);
    r, req, f := ReceiveForm(chunks, max);
    assert body[..|body|] == body;
  }
}
