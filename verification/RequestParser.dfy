/**
 The request-head parser of onion/request_parser.c: a resumable state machine fed chunks of
 bytes.  `Feed` is the machine one byte at a time; the class of RequestReader.dfy is
 the code, chunk by chunk.
 */
module RequestParser {
  import opened Wrappers
  import opened CText
  import DictKeys
  import AATree

  /** sizeof(token->str) - 1 */
  const LIMIT := 8191

  datatype Status = NeedMore | InternalError | NotImplemented | Complete(next: Next)

  /** What the end of the head leads to. */
  datatype Next = Process | ReadPost | ReadPut | ReadContent

  datatype Mode =
    | Method | Url | Version | SkipNewLine | Key | Value
    | Peek            // parse_headers_VALUE_multiline_if_space
    | SkipWhitespace  // parse_headers_VALUE_skip_leading_whitespace
    | Stopped(status: Status)
    | Endless         // a NUL that parse_headers_VALUE_multiline_if_space is called with again and again
    | Undefined       // outside what the code defines

  datatype Header = Header(key: string, value: string)

  /**
   `tok` is token->str[..pos], `extra` the key of the header being read, and `rest` gathers
   what follows a head that has been understood: its body, which has readers of its own.
   */
  datatype Head = Head(mode: Mode, tok: string, extra: string, verb: nat, http11: bool,
                       target: Option<string>, headers: seq<Header>, rest: string)

  const HTTP11 := "HTTP/1.1"

  const START := Head(Method, [], [], 0, false, None, [], [])

  const METHODS := ["GET", "POST", "HEAD", "OPTIONS", "PROPFIND", "PUT", "DELETE", "MOVE", "MKCOL", "PROPPATCH",
    "PATCH"]

  function MethodIndex(name: string, from: nat): (r: Option<nat>)
    requires from <= |METHODS|
    ensures r.Some? ==> from <= r.value < |METHODS| && METHODS[r.value] == name
    ensures r.None? ==> forall i :: from <= i < |METHODS| ==> METHODS[i] != name
    decreases |METHODS| - from
  {
    if from == |METHODS| then None else if METHODS[from] == name then Some(from) else MethodIndex(name, from + 1)
  }

  // ------------------------------------------------------------------ the headers as a dictionary

  /** `onion_dict_add(req->headers, key, value, OD_DUP_VALUE|OD_FREE_KEY)`; the i-th header owns cells 2i and 2i+1. */
  function HeaderEntry(h: Header, i: nat): AATree.Entry {
    AATree.Entry(h.key, 2 * i, AATree.Text(h.value), 2 * i + 1, AATree.Flags(true, true, false, false))
  }

  function HeaderDict(headers: seq<Header>): AATree.Tree {
    if headers == [] then AATree.Nil
    else
      var n := |headers| - 1;
      AATree.Add(DictKeys.CaseInsensitive, HeaderDict(headers[..n]), HeaderEntry(headers[n], n))
  }

  /** `onion_request_get_header` */
  function GetHeader(headers: seq<Header>, key: string): Option<string> {
    var t := HeaderDict(headers);
    var f := AATree.Find(DictKeys.CaseInsensitive, t, key);
    if f.Some? && AATree.InOrder(t)[f.value].value.Text? then Some(AATree.InOrder(t)[f.value].value.text) else None
  }

  function NextOf(verb: nat, headers: seq<Header>): Next {
    var ct := GetHeader(headers, "Content-Type");
    var cl := GetHeader(headers, "Content-Length");
    var form := ct.None? || Contains(ct.value, "application/x-www-form-urlencoded");
    if verb == 1 && (form || Contains(ct.value, "boundary"))
    then ReadPost
    else if verb == 5 then ReadPut
    else if cl.Some? && Atoi(cl.value) > 0 then ReadContent
    else Process
  }

  // ------------------------------------------------------------------ one byte at a time

  /** A token of the kind that must fit the buffer has filled it. */
  predicate Full(s: Head) {
    (s.mode.Method? || s.mode.Url? || s.mode.Version? || s.mode.Key?) && |s.tok| >= LIMIT
  }

  function Stop(s: Head, r: Status): Head {
    s.(mode := Stopped(r), tok := [])
  }

  function HeaderDone(s: Head): Head {
    s.(mode := Key, tok := [], extra := [], headers := s.headers + [Header(s.extra, SkipSpaces(CString(s.tok)))])
  }

  function MethodDone(s: Head): Head {
    var m := MethodIndex(CString(s.tok), 0);
    if m.None? then Stop(s, NotImplemented) else s.(mode := Url, tok := [], verb := m.value)
  }

  function VersionDone(s: Head, c: char): Head {
    s.(mode := if c == '\n' then Key else SkipNewLine, tok := [], http11 := s.http11 || CString(s.tok) == HTTP11)
  }

  function Feed(s: Head, c: char): Head {
    if Full(s) then Stop(s, InternalError) else Take(s, c)
  }

  /** A byte that is looked at, whether or not the token is full. */
  function Take(s: Head, c: char): Head {
    match s.mode
      case Method =>
        if !IsSpace(c) then s.(tok := s.tok + [c]) else MethodDone(s)
      case Url =>
        if !IsSpace(c) then s.(tok := s.tok + [c])
        else s.(mode := if c == '\n' then Key else Version, tok := [], target := Some(CString(s.tok)))
      case Version =>
        if !IsSpace(c) then s.(tok := s.tok + [c]) else VersionDone(s, c)
      case SkipNewLine =>
        if s.tok == [] then (if c == '\n' then s.(mode := Key) else s.(tok := [c]))
        else if s.tok == ['\r'] && c == '\n' then s.(mode := Key, tok := [])
        else Stop(s, InternalError)
      case Key => FeedKey(s, c)
      case Value => FeedValue(s, c)
      case Peek =>
        if c == NUL then s.(mode := Endless)
        else if c == ' ' || c == '\t' then s.(mode := SkipWhitespace)
        else FeedKey(HeaderDone(s), c)
      case SkipWhitespace =>
        if c == ' ' || c == '\t' || c == '\n' then s
        else if |s.tok| + 2 <= LIMIT then s.(mode := Value, tok := s.tok + [' ', c])
        else s.(mode := Undefined)
      case Stopped(r) => if r.Complete? then s.(rest := s.rest + [c]) else s
      case Endless => s
      case Undefined => s
  }

  /** A line is cut at the buffer's size; at its end a final CR becomes the terminator. */
  function FeedValue(s: Head, c: char): Head {
    if c != '\n' then (if |s.tok| < LIMIT then s.(tok := s.tok + [c]) else s)
    else if s.tok == [] then s.(mode := Undefined)
    else if s.tok[|s.tok| - 1] == '\r' then s.(mode := Peek, tok := s.tok[|s.tok| - 1 := NUL])
    else s.(mode := Peek)
  }

  function FeedKey(s: Head, c: char): Head {
    if c == ':' then s.(mode := Value, tok := [], extra := CString(s.tok))
    else if c == '\n' then
      Stop(s, if s.tok == [] then Complete(NextOf(s.verb, s.headers)) else InternalError)
    else if c == '\r' then s
    else s.(tok := s.tok + [c])
  }

  /** The machine after a run of bytes. */
  function FeedAll(s: Head, w: string): Head
    decreases |w|
  {
    if w == [] then s else FeedAll(Feed(s, w[0]), w[1..])
  }

  lemma {:induction false} FeedAppend(s: Head, a: string, b: string)
    ensures FeedAll(s, a + b) == FeedAll(FeedAll(s, a), b)
    decreases |a|
  {
    hide Feed;
    if a == [] {
      assert a + b == b;
    } else {
      assert (a + b)[1..] == a[1..] + b;
      FeedAppend(Feed(s, a[0]), a[1..], b);
    }
  }

  // ------------------------------------------------------------------ chunks

  /**
   What the code remembers between two calls: a byte waiting for its line feed after the
   version is forgotten (`token->pos=0` at the end of token_read_NEW_LINE).
   */
  function Forget(s: Head): Head {
    if s.mode.SkipNewLine? then s.(tok := []) else s
  }

  /**
   The first byte of a call is looked at before the token's size is: a token that filled its
   buffer just as the last call ended may still end here, or take the buffer's last place.
   */
  function Enter(s: Head, c: char): Head {
    if Full(s) && |s.tok| > LIMIT then s.(mode := Undefined) else Take(s, c)
  }

  /** The bytes of one call. */
  function Begin(s: Head, w: string): Head {
    if w == [] then s else FeedAll(Enter(s, w[0]), w[1..])
  }

  /** One call of `onion_request_write`, as `RequestReader.Request.Write` is proved to perform it. */
  function WriteChunk(s: Head, chunk: string): Head {
    Forget(Begin(s, chunk))
  }

  lemma BeginIsFeed(s: Head, w: string)
    requires w == [] || !Full(s)
    ensures Begin(s, w) == FeedAll(s, w)
  {
    hide Take;
  }

  function WriteChunks(s: Head, chunks: seq<string>): Head
    decreases |chunks|
  {
    if chunks == [] then s else WriteChunks(WriteChunk(s, chunks[0]), chunks[1..])
  }

  /** The head has ended and was understood. */
  predicate Accepted(s: Head) {
    s.mode.Stopped? && s.mode.status.Complete?
  }

  /** No write comes back from here with an answer. */
  predicate Lost(s: Head) {
    s.mode.Endless? || s.mode.Undefined?
  }

  lemma {:induction false} LostStays(s: Head, w: string)
    requires Lost(s)
    ensures FeedAll(s, w) == s
    decreases |w|
  {
    if w == [] {
    } else {
      LostStays(s, w[1..]);
    }
  }

  lemma {:induction false} FailedStaysFailed(s: Head, w: string)
    requires Lost(s) || (s.mode.Stopped? && !s.mode.status.Complete?)
    ensures !Accepted(FeedAll(s, w))
    ensures s.mode.Stopped? ==> FeedAll(s, w) == s
    decreases |w|
  {
    if w == [] {
    } else {
      FailedStaysFailed(s, w[1..]);
    }
  }

  /** What follows an accepted head is kept for its body. */
  lemma {:induction false} RestFollows(s: Head, w: string)
    requires Accepted(s)
    ensures FeedAll(s, w) == s.(rest := s.rest + w)
    decreases |w|
  {
    if w == [] {
      assert s.rest + w == s.rest;
    } else {
      RestFollows(s.(rest := s.rest + [w[0]]), w[1..]);
      assert s.rest + [w[0]] + w[1..] == s.rest + w;
    }
  }

  /** On the way to an accepted head, the forgotten byte was a CR, and what is left does the same without it. */
  lemma ForgettingIsHarmless(s: Head, w: string)
    requires Accepted(FeedAll(s, w))
    ensures FeedAll(Forget(s), w) == FeedAll(s, w)
  {
    if s.mode.SkipNewLine? && s.tok != [] && w != [] {
      if s.tok == ['\r'] && w[0] == '\n' {
        assert Feed(Forget(s), w[0]) == Feed(s, w[0]);
      } else {
        FailedStaysFailed(Feed(s, w[0]), w[1..]);
      }
    }
  }

  /**
   The conditions under which one call is defined and ends: the head has not failed, no token
   outgrows its buffer, and no header line starts with a NUL.
   */
  predicate CanWrite(s: Head, chunk: string) {
    !Lost(Begin(s, chunk)) && (chunk != [] && s.mode.Stopped? ==> s.mode.status.Complete?)
  }

  lemma AcceptedCanWrite(s: Head, a: string, b: string)
    requires Accepted(FeedAll(s, a + b))
    ensures CanWrite(s, a) && Begin(s, a) == FeedAll(s, a)
  {
    hide Take;
    FeedAppend(s, a, b);
    if Lost(FeedAll(s, a)) {
      LostStays(FeedAll(s, a), b);
    }
    if a != [] && (Full(s) || (s.mode.Stopped? && !s.mode.status.Complete?)) {
      assert (a + b)[1..] == a[1..] + b;
      if s.mode.Stopped? { FailedStays(s, a[0]); }
      FailedStaysFailed(Feed(s, a[0]), a[1..] + b);
    }
    BeginIsFeed(s, a);
  }

  lemma FailedStays(s: Head, c: char)
    requires s.mode.Stopped? && !s.mode.status.Complete?
    ensures Feed(s, c) == s
  {
  }

  /**
   Chunk independence: a request head that one write accepts is accepted, with the same
   method, target, headers and outcome, however it is cut into consecutive writes.
   */
  lemma {:induction false} ChunksDoNotMatter(s: Head, chunks: seq<string>)
    requires Accepted(FeedAll(s, Concat(chunks)))
    ensures WriteChunks(s, chunks) == FeedAll(s, Concat(chunks))
    ensures forall i :: 0 <= i < |chunks| ==> CanWrite(WriteChunks(s, chunks[..i]), chunks[i])
    decreases |chunks|
  {
    hide Feed, FeedAll, Forget, Full, Accepted, Begin;
    if chunks == [] {
      assert FeedAll(s, []) == s by { FeedNothing(s); }
    } else {
      var a, b := chunks[0], Concat(chunks[1..]);
      AcceptedCanWrite(s, a, b);
      FeedAppend(s, a, b);
      ForgettingIsHarmless(FeedAll(s, a), b);
      var s1 := WriteChunk(s, a);
      ChunksDoNotMatter(s1, chunks[1..]);
      forall i | 0 <= i < |chunks| ensures CanWrite(WriteChunks(s, chunks[..i]), chunks[i]) {
        if i > 0 {
          assert chunks[..i][1..] == chunks[1..][..i - 1];
          assert chunks[i] == chunks[1..][i - 1];
        }
      }
    }
  }

  /** Nothing would be forgotten here. */
  predicate Steady(s: Head) {
    s.mode.SkipNewLine? ==> s.tok == []
  }

  /**
   A cut does no harm where more is to come if it does not fall right behind a token that
   fills its buffer, nor behind the byte after the version, unless that is the CR of a CRLF.
   */
  predicate HarmlessCut(t: Head, rest: string) {
    rest != [] ==> !Full(t) && (Steady(t) || (t.tok == ['\r'] && rest[0] == '\n'))
  }

  predicate HarmlessCuts(s: Head, chunks: seq<string>)
    decreases |chunks|
  {
    chunks == [] ||
    (HarmlessCut(Begin(s, chunks[0]), Concat(chunks[1..])) && HarmlessCuts(WriteChunk(s, chunks[0]), chunks[1..]))
  }

  /**
   What cuts can change, exactly: one write accepts a head if and only if the pieces are
   accepted and no cut is harmful.
   */
  lemma {:induction false} OnlyHarmfulCutsMatter(s: Head, chunks: seq<string>)
    requires Concat(chunks) != [] ==> !Full(s)
    ensures Accepted(FeedAll(s, Concat(chunks))) <==> Accepted(WriteChunks(s, chunks)) && HarmlessCuts(s, chunks)
    decreases |chunks|
  {
    hide Feed, FeedAll, Full, Accepted, Begin, HarmlessCut, Forget;
    if chunks == [] {
      FeedNothing(s);
    } else {
      var a, b := chunks[0], Concat(chunks[1..]);
      FeedAppend(s, a, b);
      FirstCut(s, a, b);
      if HarmlessCut(Begin(s, a), b) {
        OnlyHarmfulCutsMatter(WriteChunk(s, a), chunks[1..]);
      }
    }
  }

  /** Behind a harmless cut the writes stand where one write would; a harmful one dooms the single write. */
  lemma FirstCut(s: Head, a: string, b: string)
    requires a + b != [] ==> !Full(s)
    ensures HarmlessCut(Begin(s, a), b) ==>
      && (b != [] ==> !Full(WriteChunk(s, a)))
      && (Accepted(FeedAll(WriteChunk(s, a), b)) <==> Accepted(FeedAll(FeedAll(s, a), b)))
    ensures !HarmlessCut(Begin(s, a), b) ==> !Accepted(FeedAll(FeedAll(s, a), b))
  {
    hide Take;
    BeginIsFeed(s, a);
    var t := FeedAll(s, a);
    if b == [] {
      FeedNothing(t);
      FeedNothing(Forget(t));
    } else {
      CutState(t, b);
    }
  }

  lemma CutState(t: Head, b: string)
    requires b != []
    ensures HarmlessCut(t, b) ==> !Full(Forget(t)) && FeedAll(Forget(t), b) == FeedAll(t, b)
    ensures !HarmlessCut(t, b) ==> !Accepted(FeedAll(t, b))
  {
    if !HarmlessCut(t, b) {
      assert !Accepted(Feed(t, b[0])) && (Feed(t, b[0]).mode.Stopped? && !Feed(t, b[0]).mode.status.Complete?);
      FailedStaysFailed(Feed(t, b[0]), b[1..]);
    } else if !Steady(t) {
      assert Feed(Forget(t), '\n') == Feed(t, '\n');
    }
  }

  // ------------------------------------------------------------------ what is forgotten

  /** The text without the bytes that cuts make the parser forget. */
  function Kept(s: Head, chunks: seq<string>): string
    decreases |chunks|
  {
    if chunks == [] then []
    else
      var a := chunks[0];
      (if a == [] || Steady(FeedAll(s, a)) then a else a[..|a| - 1]) + Kept(WriteChunk(s, a), chunks[1..])
  }

  /** No write starts with a full token. */
  predicate NoFullCut(s: Head, chunks: seq<string>)
    decreases |chunks|
  {
    chunks == [] || ((chunks[0] != [] ==> !Full(s)) && NoFullCut(WriteChunk(s, chunks[0]), chunks[1..]))
  }

  lemma ForgottenByte(s: Head, a: string)
    requires Steady(s) && a != [] && !Steady(FeedAll(s, a))
    ensures Forget(FeedAll(s, a)) == FeedAll(s, a[..|a| - 1])
  {
    hide FeedAll;
    var u, c := FeedAll(s, a[..|a| - 1]), a[|a| - 1];
    FeedOne(s, a[..|a| - 1], c);
    assert a == a[..|a| - 1] + [c];
    LastByteWaits(u, c);
  }

  lemma LastByteWaits(u: Head, c: char)
    requires !Steady(Feed(u, c))
    ensures Forget(Feed(u, c)) == u
  {
    hide FeedKey, FeedValue, MethodDone;
    FeedKeyMoves(u, c);
    FeedKeyMoves(HeaderDone(u), c);
    FeedValueMoves(u, c);
    MethodMoves(u);
  }

  /**
   What cuts do to any head, accepted or not: the pieces end where the text without the
   forgotten bytes ends.
   */
  lemma {:induction false} CutsForgetBytes(s: Head, chunks: seq<string>)
    requires Steady(s) && NoFullCut(s, chunks)
    ensures WriteChunks(s, chunks) == FeedAll(s, Kept(s, chunks))
    ensures Accepted(WriteChunks(s, chunks)) <==> Accepted(FeedAll(s, Kept(s, chunks)))
    decreases |chunks|
  {
    hide Feed, FeedAll, Full, Accepted, Begin, Steady, Forget;
    if chunks == [] {
      FeedNothing(s);
    } else {
      var a, rest := chunks[0], chunks[1..];
      BeginIsFeed(s, a);
      var t := FeedAll(s, a);
      ForgottenSteady(t);
      CutsForgetBytes(Forget(t), rest);
      var k := if a == [] || Steady(t) then a else a[..|a| - 1];
      if a == [] {
        FeedNothing(s);
        SteadyForgetsNothing(s);
      } else if Steady(t) {
        SteadyForgetsNothing(t);
      } else {
        ForgottenByte(s, a);
      }
      FeedAppend(s, k, Kept(Forget(t), rest));
    }
  }

  lemma ForgottenSteady(s: Head)
    ensures Steady(Forget(s))
  {
  }

  lemma SteadyForgetsNothing(s: Head)
    requires Steady(s)
    ensures Forget(s) == s
  {
  }

  /** One cut behind the byte after the version: the byte is as if it had not been sent. */
  lemma OneByteForgotten(s: Head, a: string, b: string)
    requires Steady(s) && a != [] && !Full(s) && !Steady(FeedAll(s, a))
    ensures WriteChunks(s, [a, b]) == Forget(FeedAll(s, a[..|a| - 1] + b))
  {
    hide Feed, FeedAll, Steady, Forget, Begin;
    var t := FeedAll(s, a);
    BeginIsFeed(s, a);
    ForgottenByte(s, a);
    NotFullHere(t);
    BeginIsFeed(Forget(t), b);
    FeedAppend(s, a[..|a| - 1], b);
    assert [a, b][1..] == [b] && [b][1..] == [];
    assert WriteChunks(WriteChunk(s, a), [b]) == WriteChunks(WriteChunk(WriteChunk(s, a), b), []);
  }

  lemma NotFullHere(t: Head)
    requires !Steady(t)
    ensures !Full(Forget(t))
  {
  }

  lemma FeedKeyMoves(s: Head, c: char)
    ensures s.mode.Key? ==> !FeedKey(s, c).mode.SkipNewLine?
  {
    hide NextOf;
  }

  lemma FeedValueMoves(s: Head, c: char)
    ensures s.mode.Value? ==> !FeedValue(s, c).mode.SkipNewLine?
  {
  }

  lemma MethodMoves(s: Head)
    ensures !MethodDone(s).mode.SkipNewLine?
  {
    hide MethodIndex;
  }

  lemma {:induction false} WriteOneMore(s: Head, chunks: seq<string>, c: string)
    ensures WriteChunks(s, chunks + [c]) == WriteChunk(WriteChunks(s, chunks), c)
    decreases |chunks|
  {
    hide WriteChunk;
    if chunks == [] {
      assert WriteChunks(WriteChunk(s, c), []) == WriteChunk(s, c);
      assert ([] + [c])[1..] == [];
    } else {
      WriteOneMore(WriteChunk(s, chunks[0]), chunks[1..], c);
      assert (chunks + [c])[1..] == chunks[1..] + [c];
    }
  }

  lemma FeedNothing(s: Head)
    ensures FeedAll(s, []) == s
  {
  }

  // ------------------------------------------------------------------ printing and parsing

  const CRLF := "\r\n"

  function PrintHeaders(headers: seq<Header>): string {
    if headers == [] then []
    else headers[0].key + ": " + headers[0].value + CRLF + PrintHeaders(headers[1..])
  }

  /** Sections 3.1.1 and 3.2 of RFC 7230. */
  function Print(verb: nat, target: string, headers: seq<Header>): string
    requires verb < |METHODS|
  {
    METHODS[verb] + " " + (target + " ") + (HTTP11 + CRLF) + PrintHeaders(headers) + CRLF
  }

  predicate SpaceFree(w: string) {
    forall i :: 0 <= i < |w| ==> !IsSpace(w[i]) && w[i] != NUL
  }

  predicate GoodKey(k: string) {
    && |k| < LIMIT
    && (forall i :: 0 <= i < |k| ==> k[i] != ':' && k[i] != '\n' && k[i] != '\r' && k[i] != NUL)
    && (k != [] ==> k[0] != ' ' && k[0] != '\t')
  }

  predicate GoodValue(v: string) {
    && |v| + 2 <= LIMIT
    && (forall i :: 0 <= i < |v| ==> v[i] != '\n' && v[i] != NUL)
    && (v != [] ==> !IsSpace(v[0]))
  }

  lemma CStringWhole(w: string)
    requires NulFree(w)
    ensures CString(w) == w
  {
    assert w[..|w|] == w;
    CStringStops(w, |w|);
  }

  lemma {:induction false} FeedWord(s: Head, w: string)
    requires s.mode.Method? || s.mode.Url? || s.mode.Version?
    requires |s.tok| + |w| <= LIMIT && forall i :: 0 <= i < |w| ==> !IsSpace(w[i])
    ensures FeedAll(s, w) == s.(tok := s.tok + w)
    decreases |w|
  {
    if w == [] {
      assert s.tok + w == s.tok;
    } else {
      FeedWord(s.(tok := s.tok + [w[0]]), w[1..]);
      assert s.tok + [w[0]] + w[1..] == s.tok + w;
    }
  }

  lemma {:induction false} FeedName(s: Head, w: string)
    requires s.mode.Key? && |s.tok| + |w| <= LIMIT
    requires forall i :: 0 <= i < |w| ==> w[i] != ':' && w[i] != '\n' && w[i] != '\r'
    ensures FeedAll(s, w) == s.(tok := s.tok + w)
    decreases |w|
  {
    if w == [] {
      assert s.tok + w == s.tok;
    } else {
      FeedName(s.(tok := s.tok + [w[0]]), w[1..]);
      assert s.tok + [w[0]] + w[1..] == s.tok + w;
    }
  }

  lemma {:induction false} FeedLine(s: Head, w: string)
    requires s.mode.Value? && |s.tok| + |w| <= LIMIT
    requires forall i :: 0 <= i < |w| ==> w[i] != '\n'
    ensures FeedAll(s, w) == s.(tok := s.tok + w)
    decreases |w|
  {
    if w == [] {
      assert s.tok + w == s.tok;
    } else {
      FeedLine(s.(tok := s.tok + [w[0]]), w[1..]);
      assert s.tok + [w[0]] + w[1..] == s.tok + w;
    }
  }

  lemma FeedOne(s: Head, w: string, c: char)
    ensures FeedAll(s, w + [c]) == Feed(FeedAll(s, w), c)
  {
    hide Feed;
    FeedAppend(s, w, [c]);
    var t := FeedAll(s, w);
    assert FeedAll(t, [c]) == FeedAll(Feed(t, c), []);
  }

  lemma FeedTwo(s: Head, w: string, rest: string)
    requires |w| == 2
    ensures FeedAll(s, w + rest) == FeedAll(Feed(Feed(s, w[0]), w[1]), rest)
  {
    hide Feed;
    assert (w + rest)[1..] == [w[1]] + rest;
    assert ([w[1]] + rest)[1..] == rest;
  }

  /** A pending header counts as read. */
  function Settle(s: Head): Head {
    if s.mode.Peek? then HeaderDone(s) else s
  }

  /** At the start of a header line. */
  predicate AtLine(s: Head) {
    (s.mode.Key? && s.tok == [] && s.extra == []) || s.mode.Peek?
  }

  lemma FeedSettled(s: Head, w: string)
    requires AtLine(s) && w != [] && w[0] != ' ' && w[0] != '\t' && w[0] != NUL
    ensures FeedAll(s, w) == FeedAll(Settle(s), w)
  {
    assert !Full(Settle(s));
    assert Feed(s, w[0]) == Feed(Settle(s), w[0]);
  }

  lemma ValueOfLine(v: string)
    requires GoodValue(v)
    ensures var t := " " + v + [NUL]; SkipSpaces(CString(t)) == v
  {
    var t := " " + v + [NUL];
    assert t[..|v| + 1] == " " + v;
    CStringStops(t, |v| + 1);
    assert (" " + v)[1..] == v;
    if v == [] { assert SkipSpaces(v) == v; }
  }

  lemma FeedKeyPart(s: Head, k: string)
    requires s.mode.Key? && s.tok == [] && GoodKey(k)
    ensures FeedAll(s, k + ":") == s.(mode := Value, tok := [], extra := k)
  {
    FeedName(s, k);
    FeedOne(s, k, ':');
    CStringWhole(k);
    assert [] + k == k;
  }

  lemma FeedValuePart(s: Head, v: string)
    requires s.mode.Value? && s.tok == [] && GoodValue(v)
    ensures FeedAll(s, " " + v + CRLF) == s.(mode := Peek, tok := " " + v + [NUL])
  {
    var w := " " + v + "\r";
    FeedLine(s, w);
    FeedOne(s, w, '\n');
    assert [] + w == w;
    hide FeedAll;
    assert w + "\n" == " " + v + CRLF;
    assert w[|w| - 1 := NUL] == " " + v + [NUL];
  }

  lemma FeedHeader(s: Head, h: Header)
    requires AtLine(s) && Settle(s).mode.Key? && GoodKey(h.key) && GoodValue(h.value)
    ensures var r := FeedAll(s, h.key + ": " + h.value + CRLF);
      r.mode.Peek? && HeaderDone(r) == Settle(s).(headers := Settle(s).headers + [h])
  {
    var line := h.key + ": " + h.value + CRLF;
    var s0 := Settle(s);
    FeedSettled(s, line);
    assert line == (h.key + ":") + (" " + h.value + CRLF);
    FeedAppend(s0, h.key + ":", " " + h.value + CRLF);
    FeedKeyPart(s0, h.key);
    var s1 := s0.(mode := Value, tok := [], extra := h.key);
    FeedValuePart(s1, h.value);
    ValueOfLine(h.value);
  }

  lemma {:induction false} FeedHeaders(s: Head, headers: seq<Header>)
    requires AtLine(s) && Settle(s).mode.Key?
    requires forall i :: 0 <= i < |headers| ==> GoodKey(headers[i].key) && GoodValue(headers[i].value)
    ensures var r := FeedAll(s, PrintHeaders(headers));
      AtLine(r) && Settle(r) == Settle(s).(headers := Settle(s).headers + headers)
    decreases |headers|
  {
    hide Feed, FeedAll, GoodKey, GoodValue;
    if headers == [] {
      FeedNothing(s);
      assert Settle(s).headers + [] == Settle(s).headers;
    } else {
      var h := headers[0];
      FeedHeader(s, h);
      var line := h.key + ": " + h.value + CRLF;
      FeedAppend(s, line, PrintHeaders(headers[1..]));
      FeedHeaders(FeedAll(s, line), headers[1..]);
      assert Settle(s).headers + [h] + headers[1..] == Settle(s).headers + headers;
    }
  }

  lemma LineBreak(s: Head)
    requires s.mode.Key? && s.tok == []
    ensures Feed(s, '\r') == s && Feed(s, '\n') == Stop(s, Complete(NextOf(s.verb, s.headers)))
  {
    hide NextOf;
  }

  lemma FeedBlankLine(s: Head)
    requires AtLine(s) && Settle(s).mode.Key?
    ensures FeedAll(s, CRLF) == Stop(Settle(s), Complete(NextOf(s.verb, Settle(s).headers)))
  {
    var s0 := Settle(s);
    hide Feed, FeedAll, NextOf;
    FeedSettled(s, CRLF);
    FeedTwo(s0, CRLF, []);
    assert CRLF + [] == CRLF;
    LineBreak(s0);
    FeedNothing(Feed(s0, '\n'));
  }

  lemma MethodsAreDistinct(verb: nat)
    requires verb < |METHODS|
    ensures MethodIndex(METHODS[verb], 0) == Some(verb) && SpaceFree(METHODS[verb]) && |METHODS[verb]| < 10
  {
    MethodFound(verb, 0);
    MethodIsWord(verb);
    hide *;
  }

  lemma MethodIsWord(verb: nat)
    requires verb < |METHODS|
    ensures SpaceFree(METHODS[verb]) && |METHODS[verb]| < 10
  {
  }

  lemma MethodsDiffer(i: nat, j: nat)
    requires i < j < |METHODS|
    ensures METHODS[i] != METHODS[j]
  {
    assert |METHODS[i]| != |METHODS[j]| || METHODS[i][0] != METHODS[j][0] || METHODS[i][2] != METHODS[j][2];
  }

  lemma {:induction false} MethodFound(verb: nat, from: nat)
    requires from <= verb < |METHODS|
    ensures MethodIndex(METHODS[verb], from) == Some(verb)
    decreases verb - from
  {
    if from == verb {
    } else {
      MethodsDiffer(from, verb);
      hide METHODS;
      MethodFound(verb, from + 1);
    }
  }

  lemma FeedMethod(verb: nat)
    requires verb < |METHODS|
    ensures FeedAll(START, METHODS[verb] + " ") == Head(Url, [], [], verb, false, None, [], [])
  {
    var m := METHODS[verb];
    MethodsAreDistinct(verb);
    CStringWhole(m);
    hide MethodIndex;
    FeedWord(START, m);
    FeedOne(START, m, ' ');
    assert [] + m == m;
  }

  lemma FeedTarget(verb: nat, target: string)
    requires SpaceFree(target) && |target| < LIMIT
    ensures FeedAll(Head(Url, [], [], verb, false, None, [], []), target + " ") ==
            Head(Version, [], [], verb, false, Some(target), [], [])
  {
    CStringWhole(target);
    var s := Head(Url, [], [], verb, false, None, [], []);
    FeedWord(s, target);
    FeedOne(s, target, ' ');
    assert [] + target == target;
  }

  lemma FeedVersion(s: Head, v: string)
    requires s.mode == Version && s.tok == [] && SpaceFree(v) && |v| < LIMIT
    ensures FeedAll(s, v + CRLF) == s.(mode := Key, http11 := s.http11 || v == HTTP11)
  {
    hide FeedAll, Feed, HTTP11;
    FeedWord(s, v);
    FeedAppend(s, v, CRLF);
    assert [] + v == v;
    var s1 := s.(tok := v);
    FeedTwo(s1, CRLF, []);
    assert CRLF + [] == CRLF;
    VersionEnds(s1);
    FeedNothing(s.(mode := Key, http11 := s.http11 || v == HTTP11));
  }

  lemma VersionEnds(s: Head)
    requires s.mode == Version && SpaceFree(s.tok) && |s.tok| < LIMIT
    ensures Feed(Feed(s, '\r'), '\n') == s.(mode := Key, tok := [], http11 := s.http11 || s.tok == HTTP11)
  {
    CStringWhole(s.tok);
    hide Feed, HTTP11, CString, SpaceFree;
    VersionByte(s, '\r');
    BreakByte(VersionDone(s, '\r'));
  }

  lemma VersionByte(s: Head, c: char)
    requires s.mode.Version? && |s.tok| < LIMIT && IsSpace(c)
    ensures Feed(s, c) == VersionDone(s, c)
  {
    hide MethodDone, VersionDone;
  }

  lemma BreakByte(v: Head)
    requires v.mode.SkipNewLine? && v.tok == []
    ensures Feed(v, '\n') == v.(mode := Key)
  {
  }

  lemma Http11IsWord()
    ensures SpaceFree(HTTP11) && |HTTP11| == 8
  {
  }

  lemma FeedRequestLine(verb: nat, target: string)
    requires verb < |METHODS| && SpaceFree(target) && |target| < LIMIT
    ensures FeedAll(START, METHODS[verb] + " " + (target + " ") + (HTTP11 + CRLF)) ==
            Head(Key, [], [], verb, true, Some(target), [], [])
  {
    hide Feed, FeedAll;
    FeedMethod(verb);
    FeedTarget(verb, target);
    Http11IsWord();
    FeedVersion(Head(Version, [], [], verb, false, Some(target), [], []), HTTP11);
    FeedAppend(START, METHODS[verb] + " ", target + " ");
    FeedAppend(START, METHODS[verb] + " " + (target + " "), HTTP11 + CRLF);
  }

  /** Parsing the printed request recovers the method, the target and the headers, duplicates in order. */
  lemma ParsePrinted(verb: nat, target: string, headers: seq<Header>)
    requires verb < |METHODS| && SpaceFree(target) && |target| < LIMIT
    requires forall i :: 0 <= i < |headers| ==> GoodKey(headers[i].key) && GoodValue(headers[i].value)
    ensures FeedAll(START, Print(verb, target, headers)) ==
            Head(Stopped(Complete(NextOf(verb, headers))), [], [], verb, true, Some(target), headers, [])
  {
    hide Feed, FeedAll, GoodKey, GoodValue, NextOf;
    var line := METHODS[verb] + " " + (target + " ") + (HTTP11 + CRLF);
    FeedRequestLine(verb, target);
    FeedAppend(START, line, PrintHeaders(headers));
    FeedAppend(START, line + PrintHeaders(headers), CRLF);
    var s := FeedAll(START, line);
    FeedHeaders(s, headers);
    FeedBlankLine(FeedAll(s, PrintHeaders(headers)));
    assert [] + headers == headers;
    assert Print(verb, target, headers) == line + PrintHeaders(headers) + CRLF;
  }

  /** A body behind the printed head is left to its readers, however the two are cut. */
  lemma ParsePrintedWithBody(verb: nat, target: string, headers: seq<Header>, body: string, chunks: seq<string>)
    requires verb < |METHODS| && SpaceFree(target) && |target| < LIMIT
    requires forall i :: 0 <= i < |headers| ==> GoodKey(headers[i].key) && GoodValue(headers[i].value)
    requires Concat(chunks) == Print(verb, target, headers) + body
    ensures FeedAll(START, Concat(chunks)) == WriteChunks(START, chunks) ==
            Head(Stopped(Complete(NextOf(verb, headers))), [], [], verb, true, Some(target), headers, body)
  {
    hide FeedAll, Print, GoodKey, GoodValue, NextOf;
    ParsePrinted(verb, target, headers);
    FeedAppend(START, Print(verb, target, headers), body);
    var r := FeedAll(START, Print(verb, target, headers));
    RestFollows(r, body);
    assert [] + body == body;
    ChunksDoNotMatter(START, chunks);
  }

  /** The same under any chunking. */
  lemma ParsePrintedInChunks(verb: nat, target: string, headers: seq<Header>, chunks: seq<string>)
    requires verb < |METHODS| && SpaceFree(target) && |target| < LIMIT
    requires forall i :: 0 <= i < |headers| ==> GoodKey(headers[i].key) && GoodValue(headers[i].value)
    requires Concat(chunks) == Print(verb, target, headers)
    ensures WriteChunks(START, chunks) ==
            Head(Stopped(Complete(NextOf(verb, headers))), [], [], verb, true, Some(target), headers, [])
  {
    hide FeedAll, Print, GoodKey, GoodValue, NextOf;
    ParsePrinted(verb, target, headers);
    ChunksDoNotMatter(START, chunks);
  }

  // ------------------------------------------------------------------ where the cut matters

  lemma FeedRest(s: Head, verb: nat, target: string, headers: seq<Header>)
    requires s == Head(Key, [], [], verb, true, Some(target), [], [])
    requires forall i :: 0 <= i < |headers| ==> GoodKey(headers[i].key) && GoodValue(headers[i].value)
    ensures FeedAll(s, PrintHeaders(headers) + CRLF) ==
            Head(Stopped(Complete(NextOf(verb, headers))), [], [], verb, true, Some(target), headers, [])
  {
    hide Feed, FeedAll, GoodKey, GoodValue, NextOf;
    FeedAppend(s, PrintHeaders(headers), CRLF);
    FeedHeaders(s, headers);
    FeedBlankLine(FeedAll(s, PrintHeaders(headers)));
    assert [] + headers == headers;
  }

  lemma FeedVersionWord(s: Head)
    requires s.mode == Version && s.tok == []
    ensures FeedAll(s, HTTP11 + " ") == s.(mode := SkipNewLine, http11 := true)
  {
    Http11IsWord();
    CStringWhole(HTTP11);
    FeedWord(s, HTTP11);
    FeedOne(s, HTTP11, ' ');
    assert [] + HTTP11 == HTTP11;
  }

  /** The request line up to a byte that stands where only a line end may. */
  lemma FeedLateByte(verb: nat, target: string, c: char)
    requires verb < |METHODS| && SpaceFree(target) && |target| < LIMIT && c != '\n'
    ensures FeedAll(START, METHODS[verb] + " " + (target + " ") + (HTTP11 + " ") + [c]) ==
            Head(SkipNewLine, [c], [], verb, true, Some(target), [], [])
  {
    hide FeedAll, MethodIndex, Feed, HTTP11;
    var line := METHODS[verb] + " " + (target + " ");
    FeedMethod(verb);
    FeedTarget(verb, target);
    FeedAppend(START, METHODS[verb] + " ", target + " ");
    FeedAppend(START, line, HTTP11 + " ");
    FeedVersionWord(Head(Version, [], [], verb, false, Some(target), [], []));
    FeedOne(START, line + (HTTP11 + " "), c);
    ByteWaits(Head(SkipNewLine, [], [], verb, true, Some(target), [], []), c);
  }

  lemma ByteWaits(v: Head, c: char)
    requires v.mode.SkipNewLine? && v.tok == [] && c != '\n'
    ensures Feed(v, c) == v.(tok := [c])
  {
  }

  lemma LateByte(v: Head, c: char, rest: string)
    requires v.mode.SkipNewLine? && v.tok == []
    ensures FeedAll(v.(tok := [c]), CRLF + rest).mode == Stopped(InternalError)
    ensures FeedAll(v, CRLF + rest) == FeedAll(v.(mode := Key), rest)
  {
    hide FeedAll;
    FeedTwo(v.(tok := [c]), CRLF, rest);
    FeedTwo(v, CRLF, rest);
    var w := Feed(v.(tok := [c]), '\r');
    FailedStaysFailed(w, rest);
    assert Feed(w, '\n') == w;
    assert Feed(v, '\r') == v.(tok := ['\r']);
  }

  lemma TwoWrites(s: Head, a: string, b: string)
    ensures WriteChunks(s, [a, b]) == WriteChunk(WriteChunk(s, a), b)
  {
    hide WriteChunk;
    assert [a, b][1..] == [b] && [b][1..] == [];
    assert WriteChunks(WriteChunk(s, a), [b]) == WriteChunks(WriteChunk(WriteChunk(s, a), b), []);
  }

  /**
   The first way a cut matters, for every method, target, headers and late byte `c`: one
   write rejects the head, and two writes with the cut behind `c` accept it.
   */
  lemma RejectionDependsOnTheCut(verb: nat, target: string, headers: seq<Header>, c: char)
    requires verb < |METHODS| && SpaceFree(target) && |target| < LIMIT && c != '\n'
    requires forall i :: 0 <= i < |headers| ==> GoodKey(headers[i].key) && GoodValue(headers[i].value)
    ensures var a := METHODS[verb] + " " + (target + " ") + (HTTP11 + " ") + [c];
      var b := CRLF + (PrintHeaders(headers) + CRLF);
      && FeedAll(START, a + b).mode == Stopped(InternalError)
      && WriteChunks(START, [a, b]) ==
         Head(Stopped(Complete(NextOf(verb, headers))), [], [], verb, true, Some(target), headers, [])
  {
    hide Feed, FeedAll, Begin, GoodKey, GoodValue, NextOf, PrintHeaders;
    var a := METHODS[verb] + " " + (target + " ") + (HTTP11 + " ") + [c];
    var rest := PrintHeaders(headers) + CRLF;
    FeedLateByte(verb, target, c);
    FeedAppend(START, a, CRLF + rest);
    var v := Head(SkipNewLine, [], [], verb, true, Some(target), [], []);
    LateByte(v, c, rest);
    BeginIsFeed(START, a);
    BeginIsFeed(v, CRLF + rest);
    FeedRest(v.(mode := Key), verb, target, headers);
    TwoWrites(START, a, CRLF + rest);
  }

  /** `c` ends the token that is being read. */
  predicate Ends(s: Head, c: char) {
    if s.mode.Key? then c == ':' || c == '\n' else IsSpace(c)
  }

  /**
   The second way: a token may fill its buffer only where a write ends.  The next write must
   end it at once; within one write it is an error whatever follows.
   */
  lemma FullTokenMustEnd(t: Head, b: string)
    requires Full(t) && |t.tok| == LIMIT && |b| >= 2
    ensures FeedAll(t, b) == Stop(t, InternalError)
    ensures Begin(t, b) == if Ends(t, b[0]) then FeedAll(Take(t, b[0]), b[1..]) else Stop(Take(t, b[0]), InternalError)
  {
    FailedStaysFailed(Stop(t, InternalError), b[1..]);
    if !Ends(t, b[0]) {
      FailedStaysFailed(Stop(Take(t, b[0]), InternalError), b[1..][1..]);
    }
  }

  lemma StartIsEmpty()
    ensures !Full(START)
  {
  }

  lemma FeedLongTarget(verb: nat, target: string)
    requires verb < |METHODS| && SpaceFree(target) && |target| == LIMIT
    ensures FeedAll(START, METHODS[verb] + " " + target) == Head(Url, target, [], verb, false, None, [], [])
  {
    hide FeedAll, MethodIndex;
    FeedMethod(verb);
    FeedAppend(START, METHODS[verb] + " ", target);
    FeedWord(Head(Url, [], [], verb, false, None, [], []), target);
    assert [] + target == target;
  }

  lemma LongTargetEnds(t: Head, target: string, rest: string)
    requires t.mode.Url? && t.tok == target && SpaceFree(target) && |target| == LIMIT && rest != []
    ensures FeedAll(t, " " + rest) == Stop(t, InternalError)
    ensures Begin(t, " " + rest) == FeedAll(t.(mode := Version, tok := [], target := Some(target)), rest)
  {
    FullTokenMustEnd(t, " " + rest);
    CStringWhole(target);
    assert (" " + rest)[1..] == rest;
  }

  /** A target of 8191 bytes: one write rejects the request, and two with the cut behind the target accept it. */
  lemma LongTokenDependsOnTheCut(verb: nat, target: string, headers: seq<Header>)
    requires verb < |METHODS| && SpaceFree(target) && |target| == LIMIT
    requires forall i :: 0 <= i < |headers| ==> GoodKey(headers[i].key) && GoodValue(headers[i].value)
    ensures var a := METHODS[verb] + " " + target;
      var b := " " + (HTTP11 + CRLF + (PrintHeaders(headers) + CRLF));
      && FeedAll(START, a + b).mode == Stopped(InternalError)
      && WriteChunks(START, [a, b]) ==
         Head(Stopped(Complete(NextOf(verb, headers))), [], [], verb, true, Some(target), headers, [])
  {
    hide Feed, FeedAll, Begin, GoodKey, GoodValue, NextOf, PrintHeaders, CString, Take, Full;
    var a := METHODS[verb] + " " + target;
    var rest := HTTP11 + CRLF + (PrintHeaders(headers) + CRLF);
    var t := Head(Url, target, [], verb, false, None, [], []);
    FeedLongTarget(verb, target);
    FeedAppend(START, a, " " + rest);
    LongTargetEnds(t, target, rest);
    StartIsEmpty();
    BeginIsFeed(START, a);
    var v := Head(Version, [], [], verb, false, Some(target), [], []);
    Http11IsWord();
    FeedVersion(v, HTTP11);
    FeedAppend(v, HTTP11 + CRLF, PrintHeaders(headers) + CRLF);
    FeedRest(v.(mode := Key, http11 := true), verb, target, headers);
    TwoWrites(START, a, " " + rest);
  }
}
