/**
 The buffered response writer of onion/response.c: writes, flushes and headers calling each
 other over a 1500-byte buffer, in front of a transport that may take any part of what it is given.
 */
module Response {
  import opened Wrappers
  import opened CText
  import opened Chunked
  import DictKeys
  import AATree
  import DictOrder
  import DictRuns

  /** sizeof(res->buffer) */
  const SIZE := 1500

  /** The counters are unsigned 32-bit integers. */
  const WORD := 0x1_0000_0000

  function Wrap(x: int): (r: nat)
    ensures r < WORD
  {
    x % WORD
  }

  lemma WrapAdd(x: int, y: int)
    ensures Wrap(Wrap(x) + y) == Wrap(x + y)
  {
  }

  lemma WrapNothing()
    ensures Wrap(0) == 0
  {
  }

  // ------------------------------------------------------------------ the header text

  const SEPARATOR: string := ": "
  const CHUNK_ENCODING: string := "Transfer-Encoding: chunked\r\n"
  const KEEP_ALIVE: string := "Connection: Keep-Alive\r\n"
  const ALLOW_ORIGIN: string := "Access-Control-Allow-Origin: *\r\n"
  const CLOSE: string := "Connection: Close\r\n"
  const UPGRADE: string := "Connection: Upgrade\r\n"
  const VERSION11: string := "HTTP/1.1 "
  const VERSION10: string := "HTTP/1.0 "
  const COOKIE: string := "Set-Cookie: sessionid="
  const COOKIE_END: string := "; httponly\n"
  const CONTENT_LENGTH: string := "Content-Length"

  /** `%d`, `%lu` */
  function Decimal(n: nat): (s: string)
    ensures s != []
  {
    if n < 10 then [(48 + n) as char] else Decimal(n / 10) + [(48 + n % 10) as char]
  }

  /** Everything the header text depends on; `session` is the id when there is something in the session. */
  datatype Settings = Settings(http11: bool, keepAlive: bool, isHead: bool, code: nat, reason: string,
                               lengthSet: bool, upgrade: bool, headers: AATree.Tree, session: Option<string>)

  predicate WillChunk(c: Settings) {
    c.http11 && !c.lengthSet && c.keepAlive
  }

  function HeaderText(v: AATree.Value): string {
    if v.Text? then v.text else []
  }

  function HeaderLines(es: seq<AATree.Entry>): string {
    if es == [] then []
    else
      var e := es[|es| - 1];
      HeaderLines(es[..|es| - 1]) + (e.key + SEPARATOR + HeaderText(e.value) + CRLF)
  }

  function StatusLine(c: Settings): string {
    (if c.http11 then VERSION11 else VERSION10) + Decimal(c.code) + " " + c.reason + CRLF
  }

  function Framing(c: Settings): string {
    if c.http11 then (if WillChunk(c) then CHUNK_ENCODING else [])
    else if c.lengthSet then KEEP_ALIVE
    else []
  }

  function Connection(c: Settings): string {
    (if !c.lengthSet && !WillChunk(c) && !c.upgrade then CLOSE else []) + (if c.upgrade then UPGRADE else [])
  }

  function Cookie(c: Settings): string {
    if c.session.Some? then COOKIE + c.session.value + COOKIE_END else []
  }

  function Head(c: Settings): string {
    StatusLine(c) + Framing(c) + ALLOW_ORIGIN + Connection(c) +
      HeaderLines(AATree.InOrder(c.headers)) + Cookie(c) + CRLF
  }

  /** The comparator of a new dictionary. */
  const ORDER := DictKeys.CaseSensitive

  /** `onion_dict_add(res->headers, key, value, OD_DUP_ALL|OD_REPLACE)`; cells are not followed here. */
  function Field(key: string, value: string): AATree.Entry {
    AATree.Entry(key, 0, AATree.Text(value), 0, AATree.Flags(true, true, true, false))
  }

  /** The headers say that the body is `n` bytes long. */
  predicate Announces(headers: AATree.Tree, n: nat) {
    var f := AATree.Find(ORDER, headers, CONTENT_LENGTH);
    f.Some? && AATree.InOrder(headers)[f.value].value == AATree.Text(Decimal(n))
  }

  lemma FieldSet(headers: AATree.Tree, fields: DictRuns.Contents, key: string, value: string)
    requires DictOrder.Distinct(ORDER, AATree.InOrder(headers))
    requires DictRuns.Represents(ORDER, AATree.InOrder(headers), fields)
    ensures var t := AATree.Add(ORDER, headers, Field(key, value));
      && DictOrder.Distinct(ORDER, AATree.InOrder(t))
      && DictRuns.Represents(ORDER, AATree.InOrder(t), fields[key := Field(key, value)])
  {
    hide DictOrder.Distinct, DictRuns.Represents, AATree.Add, AATree.InOrder, AATree.Find, DictKeys.Canon;
    DictKeys.CanonExact(key);
    DictRuns.AddKeepsDistinct(ORDER, headers, Field(key, value));
    DictRuns.AddRefines(ORDER, headers, Field(key, value), fields);
  }

  lemma FieldIsAnnounced(headers: AATree.Tree, fields: DictRuns.Contents, n: nat)
    requires DictOrder.Distinct(ORDER, AATree.InOrder(headers))
    requires DictRuns.Represents(ORDER, AATree.InOrder(headers), fields)
    requires CONTENT_LENGTH in fields && fields[CONTENT_LENGTH].value == AATree.Text(Decimal(n))
    ensures Announces(headers, n)
  {
    hide DictOrder.Distinct, DictRuns.Represents, AATree.InOrder, AATree.Find, DictKeys.Canon, Decimal, CONTENT_LENGTH;
    DictKeys.CanonExact(CONTENT_LENGTH);
    DictRuns.FindRefines(ORDER, headers, CONTENT_LENGTH, fields);
  }

  const TRANSFER_ENCODING: string := "Transfer-Encoding"

  /** A client takes a header of this name, whatever its case, for a word on where the content ends. */
  predicate FramingName(key: string) {
    var name := DictKeys.Canon(DictKeys.CaseInsensitive, key);
    name == DictKeys.Canon(DictKeys.CaseInsensitive, CONTENT_LENGTH) ||
    name == DictKeys.Canon(DictKeys.CaseInsensitive, TRANSFER_ENCODING)
  }

  /** No header of the handler's says anything about that but the length it has set. */
  ghost predicate Clear(c: Settings) {
    forall e :: e in AATree.InOrder(c.headers) && FramingName(e.key) ==> e.key == CONTENT_LENGTH && c.lengthSet
  }

  lemma ClearWith(before: Settings, after: Settings, key: string, value: string)
    requires Clear(before) && DictOrder.Distinct(ORDER, AATree.InOrder(before.headers))
    requires after.headers == AATree.Add(ORDER, before.headers, Field(key, value))
    requires before.lengthSet ==> after.lengthSet
    requires FramingName(key) ==> key == CONTENT_LENGTH && after.lengthSet
    ensures Clear(after)
  {
    hide AATree.Add, AATree.InOrder, AATree.Find, FramingName, DictOrder.CountLe, DictOrder.Distinct, DictOrder.Sorted;
    DictRuns.DistinctIsSorted(ORDER, AATree.InOrder(before.headers));
    DictOrder.AddInOrder(ORDER, before.headers, Field(key, value));
    forall e | e in AATree.InOrder(after.headers)
      ensures e in AATree.InOrder(before.headers) || e == Field(key, value) {
    }
  }

  // ------------------------------------------------------------------ the transport

  /** The connection: the n-th body write takes at most `cuts(n) + 1` bytes; framing is taken whole. */
  class Transport {
    var wire: string
    const cuts: nat -> nat
    var calls: nat

    constructor (cuts: nat -> nat)
      ensures wire == []
    {
      this.cuts := cuts;
      wire, calls := [], 0;
    }

    method Send(data: string) returns (w: nat)
      requires data != []
      modifies this
      ensures 0 < w <= |data| && wire == old(wire) + data[..w]
    {
      w := if cuts(calls) + 1 < |data| then cuts(calls) + 1 else |data|;
      calls := calls + 1;
      wire := wire + data[..w];
    }

    method SendWhole(data: string)
      modifies this
      ensures wire == old(wire) + data
    {
      wire := wire + data;
    }
  }

  // ------------------------------------------------------------------ the response

  /** A short write goes on where the last one stopped. */
  lemma SentSoFar(wire: string, b: string, at: nat, n: nat, w: nat)
    requires at + n <= |b| && w <= n
    ensures wire + b[..at] + b[at..at + n][..w] == wire + b[..at + w]
    ensures at == 0 ==> wire + b[..at] == wire
  {
    assert b[..at] + b[at..at + n][..w] == b[..at + w];
  }

  datatype Phase = Unsent | Heading | Body

  class Response {
    const net: Transport
    const buffer: array<char>
    var pos: nat
    var headerSent: bool
    var lengthSet: bool
    var skip: bool
    var chunked: bool
    var upgrade: bool
    var sent: nat
    var length: nat
    var code: nat
    var reason: string
    var headers: AATree.Tree
    const http11: bool
    const keepAlive: bool
    const isHead: bool
    var session: Option<string>

    ghost const base: string        // the wire before this response
    ghost var phase: Phase
    ghost var head: string          // the header text written so far
    ghost var content: string       // the content accepted so far
    ghost var chunks: seq<string>   // the chunks sent
    ghost var conf: Settings        // the settings the header text was made from
    ghost var fields: DictRuns.Contents  // the headers as a map
    ghost var declared: Option<nat> // the length set before the headers went out
    ghost var late: bool            // a length was set after that

    ghost function Pending(): string
      requires pos <= buffer.Length
      reads this, buffer
    {
      buffer[..pos]
    }

    ghost function Current(): Settings
      reads this
    {
      Settings(http11, keepAlive, isHead, code, reason, lengthSet, upgrade, headers, session)
    }

    ghost predicate Ok()
      reads this
    {
      buffer.Length == SIZE && pos <= SIZE && sent < WORD
    }

    /** Nothing has been written but what a caller may have put aside. */
    ghost predicate Untouched()
      reads this, buffer, net
    {
      && Ok() && phase == Unsent && !headerSent && !chunked && !skip
      && net.wire == base && head == [] && chunks == [] && Pending() == content
    }

    /** The wire and the buffer hold the header text written so far. */
    ghost predicate InHead()
      reads this, buffer, net
    {
      && Ok() && phase == Heading && headerSent && !chunked && !skip
      && net.wire + Pending() == base + head && chunks == [] && content == []
    }

    /** The header text has gone before the content, framed or not. */
    ghost predicate Sound()
      reads this, buffer, net
    {
      && Ok() && phase == Body && headerSent && head == Head(conf)
      && conf.http11 == http11 && conf.keepAlive == keepAlive && conf.isHead == isHead
      && skip == isHead && chunked == (WillChunk(conf) && !isHead)
      && (forall i :: 0 <= i < |chunks| ==> chunks[i] != [])
      && (if skip then net.wire == base + head
          else if chunked then net.wire == base + head + Frames(chunks) && content == Concat(chunks) + Pending()
          else net.wire + Pending() == base + head + content)
    }

    ghost predicate InBody()
      reads this, buffer, net
    {
      Sound() && (!skip ==> sent == Wrap(|content| - pos))
    }

    ghost predicate Valid()
      reads this, buffer, net
    {
      match phase
      case Unsent => Untouched() && sent == 0
      case Heading => InHead()
      case Body => InBody()
    }

    lemma PhaseIs()
      requires Valid()
      ensures Ok() && (headerSent <==> phase != Unsent) && (skip <==> isHead && phase == Body)
      ensures phase == Unsent ==> Pending() == content && net.wire == base && sent == 0
      ensures phase == Body ==> chunked == (WillChunk(conf) && !isHead)
    {
    }

    /** What the headers announce about the length, and what the flags remember of it. */
    ghost predicate Promise()
      reads this
    {
      && Mapped()
      && (phase == Unsent ==> !late)
      && (declared.Some? && phase == Unsent ==>
            CONTENT_LENGTH in fields && fields[CONTENT_LENGTH].value == AATree.Text(Decimal(declared.value)))
      && (!late ==> (lengthSet <==> declared.Some?) && length == Wrap(if declared.Some? then declared.value else 0))
      && (phase == Body ==>
            (conf.lengthSet <==> declared.Some?) && (declared.Some? ==> Announces(conf.headers, declared.value)))
    }

    constructor (net: Transport, http11: bool, keepAlive: bool, isHead: bool, headers: AATree.Tree,
                 session: Option<string>, ghost fields: DictRuns.Contents)
      requires DictOrder.Distinct(ORDER, AATree.InOrder(headers))
      requires DictRuns.Represents(ORDER, AATree.InOrder(headers), fields)
      ensures Valid() && Promise() && phase == Unsent && content == [] && fresh(buffer)
      ensures this.net == net && base == net.wire
      ensures Current() == Settings(http11, keepAlive, isHead, 200, "OK", false, false, headers, session)
    {
      hide AATree.InOrder, DictOrder.Distinct, DictRuns.Represents, Decimal, CONTENT_LENGTH, Head, Frames, Concat, Wrap;
      this.net := net;
      buffer := new char[SIZE];
      pos, headerSent, lengthSet, skip, chunked, upgrade := 0, false, false, false, false, false;
      sent, length, code, reason := 0, 0, 200, "OK";
      this.headers, this.http11, this.keepAlive, this.isHead, this.session := headers, http11, keepAlive, isHead,
        session;
      base, phase, head, content, chunks := net.wire, Unsent, [], [], [];
      this.fields, declared, late := fields, None, false;
      WrapNothing();
    }

    method Copy(piece: string)
      requires Ok() && pos + |piece| <= SIZE
      modifies this`pos, buffer
      ensures Ok() && pos == old(pos) + |piece| && Pending() == old(Pending()) + piece
    {
      forall i | 0 <= i < |piece| {
        buffer[pos + i] := piece[i];
      }
      pos := pos + |piece|;
    }

    /** The copy into the buffer: the header text or the content has grown. */
    method Put(piece: string)
      requires Valid() && pos + |piece| <= SIZE
      modifies this`pos, this`head, this`content, buffer
      ensures Valid() && pos == old(pos) + |piece|
      ensures phase == Heading ==> head == old(head) + piece && content == old(content)
      ensures phase != Heading ==> head == old(head) && content == old(content) + piece
    {
      hide Frames, Concat, Head, Wrap;
      ghost var w, c, p := net.wire, Concat(chunks), Pending();
      Copy(piece);
      assert w + (p + piece) == (w + p) + piece && c + (p + piece) == (c + p) + piece;
      if phase == Heading {
        head := head + piece;
        assert base + head == base + old(head) + piece;
      } else {
        content := content + piece;
        assert base + head + content == base + head + old(content) + piece;
      }
    }

    /** The loop that hands the buffer to the transport until it has taken all of it. */
    method Drain()
      requires Ok() && pos > 0
      modifies this`pos, net
      ensures net.wire == old(net.wire) + old(Pending()) && pos == 0
    {
      ghost var wire0, total, b := net.wire, pos, buffer[..];
      var at := 0;
      var w := net.Send(buffer[at..at + pos]);
      assert buffer[at..at + pos] == b[at..at + pos];
      SentSoFar(wire0, b, at, pos, w);
      while w != pos
        invariant 0 < w <= pos && at + pos == total <= SIZE && net.wire == wire0 + b[..at + w]
        decreases pos
      {
        at := at + w;
        pos := pos - w;
        w := net.Send(buffer[at..at + pos]);
        assert buffer[at..at + pos] == b[at..at + pos];
        SentSoFar(wire0, b, at, pos, w);
      }
      pos := 0;
    }

    /** A chunk: its size in hexadecimal, the buffer, and a line end. */
    method FlushChunk()
      requires Sound() && chunked && !skip && pos > 0
      modifies this`pos, this`chunks, net
      ensures Sound() && pos == 0
    {
      hide Wrap, Frames, Frame, Concat, Head, Hex;
      ghost var p, w0 := Pending(), net.wire;
      net.SendWhole(Hex(pos) + CRLF);
      Drain();
      net.SendWhole(CRLF);
      FramesGrow(w0, base + head, chunks, p);
      chunks := chunks + [p];
      assert Concat(chunks) + Pending() == Concat(chunks);
    }

    method FlushRaw()
      requires Ok() && headerSent && !chunked && !skip && pos > 0
      modifies this`pos, net
      ensures Ok() && pos == 0 && net.wire + Pending() == old(net.wire + Pending())
    {
      Drain();
      assert net.wire + Pending() == net.wire;
    }

    /** `onion_response_flush` once the headers are under way. */
    method FlushSent()
      requires Valid() && phase != Unsent
      modifies this`pos, this`sent, this`chunks, net
      ensures Valid() && sent == Wrap(old(sent) + old(pos))
      ensures pos == if skip then old(pos) else 0
      ensures skip ==> net.wire == old(net.wire)
      ensures phase == Heading ==> chunks == []
    {
      hide Frames, Frame, Concat, Head, Wrap;
      sent := Wrap(sent + pos);
      if phase == Body && !skip { WrapAdd(|content| - pos, pos); }
      if pos == 0 || skip {
        return;
      }
      if chunked {
        FlushChunk();
      } else {
        FlushRaw();
      }
    }

    /** Content written before the headers is set aside while they are sent. */
    method FlushUnsent()
      requires Untouched() && pos > 0
      modifies this`pos, this`headerSent, this`skip, this`chunked, this`sent
      modifies this`phase, this`head, this`content, this`chunks, this`conf, buffer, net
      ensures Valid() && content == old(content) && phase == Body && conf == old(Current())
      ensures skip <==> pos == 0
      decreases 1, 1
    {
      hide InHead, Sound, Wrap;
      var tmp := buffer[..pos];
      ghost var all := content;
      pos, content := 0, [];
      WriteHeaders();
      PhaseIs();
      assert [] + tmp == tmp;
      var r := Write(tmp);
      PhaseIs();
      if skip { Unread(all); }
    }

    /** What a HEAD response does not send is only a matter of record. */
    ghost method Unread(all: string)
      requires InBody() && skip
      modifies this`content
      ensures InBody() && content == all
    {
      content := all;
    }

    /** `onion_response_flush` */
    method Flush()
      requires Valid()
      modifies this`pos, this`headerSent, this`skip, this`chunked, this`sent
      modifies this`phase, this`head, this`content, this`chunks, this`conf, buffer, net
      ensures Valid() && content == old(content)
      ensures old(phase) != Unsent ==>
        && phase == old(phase) && head == old(head) && conf == old(conf)
        && sent == Wrap(old(sent) + old(pos)) && pos == if skip then old(pos) else 0
      ensures old(phase) == Unsent && old(pos) == 0 ==> phase == Unsent && pos == 0
      ensures old(phase) == Unsent && old(pos) > 0 ==> phase == Body && conf == old(Current()) && (!skip ==> pos > 0)
      ensures skip && !old(skip) ==> pos == 0
      decreases if phase == Unsent then 1 else 0, 2
    {
      hide InHead, Sound, Wrap;
      PhaseIs();
      if headerSent {
        FlushSent();
        return;
      }
      WrapNothing();
      sent := Wrap(sent + pos);
      if pos == 0 {
        return;
      }
      FlushUnsent();
    }

    /** A write while the headers are being written. */
    method WriteHead(data: string)
      requires Valid() && phase == Heading
      modifies this`pos, this`headerSent, this`skip, this`chunked, this`sent
      modifies this`phase, this`head, this`content, this`chunks, this`conf, buffer, net
      ensures Valid() && phase == Heading && conf == old(conf) && head == old(head) + data
      decreases 0, 6
    {
      hide Valid;
      assert !skip by { PhaseIs(); }
      var r := Write(data);
    }

    /** The status line and what it says about framing. */
    method WriteStatus() returns (chunk: bool)
      requires Valid() && phase == Heading && conf == Current()
      modifies this`pos, this`headerSent, this`skip, this`chunked, this`sent
      modifies this`phase, this`head, this`content, this`chunks, this`conf, buffer, net
      ensures Valid() && phase == Heading && conf == old(conf) && chunk == WillChunk(conf)
      ensures head == old(head) + (StatusLine(conf) + Framing(conf))
      decreases 0, 7
    {
      hide Valid, Decimal, VERSION11, VERSION10, CHUNK_ENCODING, KEEP_ALIVE;
      ghost var h := head;
      chunk := false;
      if http11 {
        WriteHead(VERSION11 + Decimal(code) + " " + reason + CRLF);
        if !lengthSet && keepAlive {
          WriteHead(CHUNK_ENCODING);
          chunk := true;
        }
      } else {
        WriteHead(VERSION10 + Decimal(code) + " " + reason + CRLF);
        if lengthSet {
          WriteHead(KEEP_ALIVE);
        }
      }
      assert head == h + (StatusLine(conf) + Framing(conf));
    }

    method WriteConnection(chunk: bool)
      requires Valid() && phase == Heading && conf == Current() && chunk == WillChunk(conf)
      modifies this`pos, this`headerSent, this`skip, this`chunked, this`sent
      modifies this`phase, this`head, this`content, this`chunks, this`conf, buffer, net
      ensures Valid() && phase == Heading && conf == old(conf)
      ensures head == old(head) + (ALLOW_ORIGIN + Connection(conf))
      decreases 0, 7
    {
      hide Valid;
      ghost var h := head;
      WriteHead(ALLOW_ORIGIN);
      if !lengthSet && !chunk && !upgrade {
        WriteHead(CLOSE);
      }
      if upgrade {
        WriteHead(UPGRADE);
      }
      assert head == h + (ALLOW_ORIGIN + Connection(conf));
    }

    /** `write_header` */
    method WriteLine(e: AATree.Entry)
      requires Valid() && phase == Heading
      modifies this`pos, this`headerSent, this`skip, this`chunked, this`sent
      modifies this`phase, this`head, this`content, this`chunks, this`conf, buffer, net
      ensures Valid() && phase == Heading && conf == old(conf)
      ensures head == old(head) + (e.key + SEPARATOR + HeaderText(e.value) + CRLF)
      decreases 0, 7
    {
      hide Valid, SEPARATOR, CRLF, HeaderText;
      ghost var h := head;
      WriteHead(e.key);
      WriteHead(SEPARATOR);
      WriteHead(HeaderText(e.value));
      WriteHead(CRLF);
      assert head == h + (e.key + SEPARATOR + HeaderText(e.value) + CRLF);
    }

    /** `onion_dict_preorder(res->headers, write_header, res)`, which goes through the entries in order. */
    method WriteLines()
      requires Valid() && phase == Heading
      modifies this`pos, this`headerSent, this`skip, this`chunked, this`sent
      modifies this`phase, this`head, this`content, this`chunks, this`conf, buffer, net
      ensures Valid() && phase == Heading && conf == old(conf)
      ensures head == old(head) + HeaderLines(AATree.InOrder(headers))
      decreases 0, 8
    {
      hide Valid, SEPARATOR, CRLF, HeaderText;
      var es := AATree.InOrder(headers);
      ghost var h := head;
      assert h + HeaderLines(es[..0]) == h;
      for i := 0 to |es|
        invariant Valid() && phase == Heading && conf == old(conf)
        invariant head == h + HeaderLines(es[..i])
      {
        WriteLine(es[i]);
        assert es[..i + 1][..i] == es[..i];
        assert head == h + (HeaderLines(es[..i]) + (es[i].key + SEPARATOR + HeaderText(es[i].value) + CRLF));
      }
      assert es[..|es|] == es;
    }

    /** The flags that let the header text pass through the ordinary write. */
    method Open()
      requires Untouched() && pos == 0 && content == []
      modifies this`headerSent, this`phase, this`conf
      ensures Valid() && phase == Heading && head == [] && conf == Current()
    {
      headerSent, phase, conf := true, Heading, Current();
      assert net.wire + Pending() == base + head;
    }

    /** `onion_response_write_headers` */
    method WriteHeaders()
      requires Untouched() && pos == 0 && content == []
      modifies this`pos, this`headerSent, this`skip, this`chunked, this`sent
      modifies this`phase, this`head, this`content, this`chunks, this`conf, buffer, net
      ensures Valid() && phase == Body && content == [] && conf == old(Current()) && chunks == []
      ensures skip ==> pos == 0
      decreases if phase == Unsent then 1 else 0, 0
    {
      hide Valid, COOKIE, COOKIE_END, CRLF, ALLOW_ORIGIN, Wrap, StatusLine, Framing, Connection, HeaderLines;
      Open();
      var chunk := WriteStatus();
      WriteConnection(chunk);
      WriteLines();
      if session.Some? {
        WriteHead(COOKIE + session.value + COOKIE_END);
      }
      WriteHead(CRLF);
      HeadIs(conf, head);
      PhaseIs();
      CountFromHere();
      Close(chunk);
    }

    method CountFromHere()
      requires Valid() && phase == Heading
      modifies this`sent
      ensures Valid() && sent == Wrap(-(pos as int))
    {
      sent := Wrap(-(pos as int));
    }

    /** The end of `onion_response_write_headers`: what is buffered of the headers is not counted as content. */
    method Close(chunk: bool)
      requires Valid() && phase == Heading && sent == Wrap(-(pos as int)) && head == Head(conf)
      requires chunk == WillChunk(conf)
      requires conf.http11 == http11 && conf.keepAlive == keepAlive && conf.isHead == isHead
      modifies this`pos, this`skip, this`chunked, this`sent, this`phase, this`chunks, net
      ensures Valid() && phase == Body && content == [] && chunks == []
      ensures skip ==> pos == 0
    {
      hide Wrap, Frames, Concat, Head;
      WrapAdd(-(pos as int), pos);
      WrapNothing();
      if isHead {
        FlushSent();
        skip := true;
        phase := Body;
        return;
      }
      if chunk {
        FlushSent();
        chunked := true;
        NoFrames();
      }
      phase := Body;
    }

    /** The loop of `onion_response_write`: whole buffers are flushed while the rest does not fit. */
    method FillBuffers(data: string) returns (done: nat)
      requires Valid() && !skip && (phase == Unsent && isHead ==> pos + |data| <= 2 * SIZE)
      modifies this`pos, this`headerSent, this`skip, this`chunked, this`sent
      modifies this`phase, this`head, this`content, this`chunks, this`conf, buffer, net
      ensures Valid() && done <= |data| && pos + (|data| - done) <= SIZE && (data != [] ==> done < |data|)
      ensures old(phase) == Heading ==> phase == Heading && head == old(head) + data[..done]
      ensures old(phase) != Heading ==> phase != Heading && content == old(content) + data[..done]
      ensures old(phase) == Unsent && phase == Body ==> conf == old(Current())
      ensures old(phase) != Unsent ==> phase == old(phase) && conf == old(conf)
      ensures old(phase) == Body ==> head == old(head)
      decreases if phase == Unsent then 1 else 0, 4
    {
      hide Valid;
      PhaseIs();
      done := 0;
      ghost var h, c := head, content;
      assert h + data[..0] == h && c + data[..0] == c;
      while pos + (|data| - done) > SIZE
        invariant Valid() && Ok() && done <= |data| && (data != [] ==> done < |data|)
        invariant (headerSent <==> phase != Unsent)
        invariant phase == Unsent ==> old(phase) == Unsent && (isHead ==> pos + (|data| - done) <= 2 * SIZE)
        invariant old(phase) == Heading ==> phase == Heading && head == h + data[..done]
        invariant old(phase) != Heading ==> phase != Heading && content == c + data[..done]
        invariant old(phase) == Unsent && phase == Body ==> conf == old(Current())
        invariant old(phase) != Unsent ==> phase == old(phase) && conf == old(conf)
        invariant old(phase) == Body ==> head == h
        invariant skip ==> pos + (|data| - done) <= SIZE
        decreases |data| - done, if phase == Unsent then 1 else 0, pos
      {
        ghost var from := done;
        done := Turn(data, done);
        PhaseIs();
        Longer(h, data, from, done - from);
        Longer(c, data, from, done - from);
      }
    }

    /** One turn of that loop: the buffer is filled and flushed. */
    method Turn(data: string, done: nat) returns (more: nat)
      requires Valid() && done <= |data| && pos + (|data| - done) > SIZE
      modifies this`pos, this`headerSent, this`skip, this`chunked, this`sent
      modifies this`phase, this`head, this`content, this`chunks, this`conf, buffer, net
      ensures Valid() && done <= more < |data| && more - done == SIZE - old(pos)
      ensures old(phase) == Heading ==> head == old(head) + data[done..more] && content == old(content)
      ensures old(phase) != Heading ==> content == old(content) + data[done..more]
      ensures old(phase) == Unsent ==> phase == Body && conf == old(Current())
      ensures old(phase) != Unsent ==> phase == old(phase) && conf == old(conf) && (!skip ==> pos == 0)
      ensures old(phase) == Body ==> head == old(head)
      ensures skip && !old(skip) ==> pos == 0
      ensures isHead && old(phase) != Heading ==>
        HeadLoop(pos, |data| - more, phase == Unsent) ==
        HeadStep(HeadLoop(old(pos), |data| - done, old(phase) == Unsent))
      decreases if phase == Unsent then 1 else 0, 3
    {
      hide Valid;
      PhaseIs();
      var wb := SIZE - pos;
      Put(data[done..done + wb]);
      Flush();
      PhaseIs();
      more := done + wb;
    }

    /** `onion_response_write` */
    method Write(data: string) returns (r: int)
      requires Valid() && (phase == Unsent && isHead ==> pos + |data| <= 2 * SIZE)
      modifies this`pos, this`headerSent, this`skip, this`chunked, this`sent
      modifies this`phase, this`head, this`content, this`chunks, this`conf, buffer, net
      ensures Valid()
      ensures old(skip) ==> r == -2 && net.wire == old(net.wire) && content == old(content) && pos == old(pos)
      ensures !old(skip) ==> r == |data| && (data != [] ==> pos > 0)
      ensures old(phase) == Heading ==> head == old(head) + data
      ensures old(phase) != Heading && !old(skip) ==> content == old(content) + data
      ensures old(phase) == Unsent ==> phase != Heading && (phase == Body ==> conf == old(Current()))
      ensures old(phase) == Unsent && data == [] ==> if old(pos) == 0 then phase == Unsent else phase == Body
      ensures old(phase) != Unsent ==> phase == old(phase) && conf == old(conf)
      ensures old(phase) == Body ==> head == old(head)
      decreases if phase == Unsent then 1 else 0, 5
    {
      hide Valid;
      PhaseIs();
      if skip {
        return -2;
      }
      if |data| == 0 {
        Flush();
        assert old(head) + data == old(head) && old(content) + data == old(content);
        return 0;
      }
      var done := FillBuffers(data);
      Longer(old(head), data, done, |data| - done);
      Longer(old(content), data, done, |data| - done);
      assert data[done..] == data[done..|data|] && data[..|data|] == data;
      Put(data[done..]);
      r := |data|;
    }

    /** The headers that are sent, or will be, are clear about where the content ends. */
    ghost predicate Plain()
      reads this
    {
      Clear(if phase == Unsent then Current() else conf)
    }

    ghost predicate Mapped()
      reads this
    {
      && DictOrder.Distinct(ORDER, AATree.InOrder(headers))
      && DictRuns.Represents(ORDER, AATree.InOrder(headers), fields)
    }

    method StoreField(key: string, value: string)
      requires Valid() && Mapped()
      modifies this`headers, this`fields
      ensures Valid() && Mapped()
      ensures headers == AATree.Add(ORDER, old(headers), Field(key, value))
      ensures fields == old(fields)[key := Field(key, value)]
    {
      hide AATree.Add, AATree.InOrder, DictOrder.Distinct, DictRuns.Represents, Head, Frames, Concat, Wrap;
      FieldSet(headers, fields, key, value);
      headers := AATree.Add(ORDER, headers, Field(key, value));
      fields := fields[key := Field(key, value)];
    }

    /** `onion_response_set_header` */
    method SetHeader(key: string, value: string)
      requires Valid() && phase != Heading && Promise() && key != CONTENT_LENGTH
      modifies this`headers, this`fields
      ensures Valid() && Promise()
      ensures headers == AATree.Add(ORDER, old(headers), Field(key, value))
      ensures old(Plain()) && !FramingName(key) ==> Plain()
    {
      ghost var before := Current();
      hide Clear, FramingName;
      hide Valid, AATree.Add, AATree.InOrder, DictOrder.Distinct, DictRuns.Represents, Announces;
      hide Decimal, CONTENT_LENGTH, Wrap;
      StoreField(key, value);
      if Clear(before) && !FramingName(key) { ClearWith(before, Current(), key, value); }
    }

    /** `onion_response_set_code` */
    method SetCode(code: nat)
      requires Valid() && phase != Heading && Promise()
      modifies this`code
      ensures Valid() && Promise() && this.code == code && (old(Plain()) ==> Plain())
    {
      hide Head, Frames, Concat, Wrap, AATree.InOrder, DictOrder.Distinct, DictRuns.Represents, Announces, Decimal;
      this.code := code;
    }

    /** `onion_response_set_length`; the field it is kept in is 32 bits wide. */
    method SetLength(len: nat)
      requires Valid() && phase != Heading && Promise()
      modifies this`headers, this`fields, this`length, this`lengthSet, this`declared, this`late
      ensures Valid() && Promise()
      ensures phase == Unsent ==> declared == Some(len) && length == Wrap(len)
      ensures phase == Body && len != sent ==> length == old(length)
      ensures phase == Body ==> declared == old(declared) && (late <==> old(late) || len == sent)
      ensures old(Plain()) ==> Plain()
    {
      hide Clear, FramingName, Valid, AATree.Add, AATree.InOrder, DictOrder.Distinct, DictRuns.Represents;
      hide Announces, Decimal, CONTENT_LENGTH, Wrap;
      ghost var before := Current();
      PhaseIs();
      if len != sent && headerSent {
        return;
      }
      StoreField(CONTENT_LENGTH, Decimal(len));
      Record(len);
      if Clear(before) { ClearWith(before, Current(), CONTENT_LENGTH, Decimal(len)); }
    }

    method Record(len: nat)
      requires Valid() && phase != Heading && Mapped() && (phase == Unsent ==> !late)
      requires CONTENT_LENGTH in fields && fields[CONTENT_LENGTH].value == AATree.Text(Decimal(len))
      requires phase == Body ==>
        (conf.lengthSet <==> declared.Some?) && (declared.Some? ==> Announces(conf.headers, declared.value))
      modifies this`length, this`lengthSet, this`declared, this`late
      ensures Valid() && Promise() && length == Wrap(len)
      ensures phase == Unsent ==> declared == Some(len)
      ensures lengthSet
      ensures phase == Body ==> declared == old(declared) && late
    {
      hide AATree.InOrder, DictOrder.Distinct, DictRuns.Represents, Announces, Decimal, CONTENT_LENGTH;
      hide Head, Frames, Concat, Wrap;
      length := Wrap(len);
      lengthSet := true;
      if phase == Body {
        late := true;
      } else {
        declared := Some(len);
      }
    }

    /** Sending the headers fixes what they announce. */
    lemma PromiseSent(before: Settings)
      requires phase == Body && conf == before && before.headers == headers && before.lengthSet == lengthSet
      requires DictOrder.Distinct(ORDER, AATree.InOrder(headers))
      requires DictRuns.Represents(ORDER, AATree.InOrder(headers), fields)
      requires declared.Some? ==>
        CONTENT_LENGTH in fields && fields[CONTENT_LENGTH].value == AATree.Text(Decimal(declared.value))
      requires !late && (lengthSet <==> declared.Some?)
      requires length == Wrap(if declared.Some? then declared.value else 0)
      ensures Promise()
    {
      hide AATree.InOrder, DictOrder.Distinct, DictRuns.Represents, Announces, Decimal, CONTENT_LENGTH;
      if declared.Some? {
        FieldIsAnnounced(headers, fields, declared.value);
      }
    }

    /** The whole response is on the wire, headers unframed, content framed if it must be. */
    ghost predicate Delivered()
      reads this, net
    {
      && phase == Body && head == Head(conf)
      && (forall i :: 0 <= i < |chunks| ==> chunks[i] != [])
      && (if skip then net.wire == base + head
          else if chunked then net.wire == base + head + (Frames(chunks) + LAST) && Concat(chunks) == content
          else net.wire == base + head + content)
    }

    /** What the client is told about where the content ends. */
    ghost predicate Delimited()
      reads this
    {
      skip || chunked ||
      (declared.Some? && Announces(conf.headers, declared.value) && Wrap(declared.value) == Wrap(|content|))
    }

    /** A flush keeps what is promised. */
    method FlushKept()
      requires Valid() && phase != Heading && Promise()
      modifies this`pos, this`headerSent, this`skip, this`chunked, this`sent
      modifies this`phase, this`head, this`content, this`chunks, this`conf, buffer, net
      ensures Valid() && Promise() && content == old(content)
      ensures old(phase) == Body ==> phase == Body && conf == old(conf)
      ensures old(phase) == Body ==> skip == old(skip) && chunked == old(chunked) && (!skip ==> pos == 0)
      ensures old(phase) == Unsent ==> !late
      ensures old(phase) == Unsent && content == [] ==> phase == Unsent && pos == 0 && net.wire == base && sent == 0
      ensures old(phase) == Unsent && content != [] ==> phase == Body && (!skip ==> pos > 0)
      ensures phase == Body ==> (skip <==> isHead)
      ensures old(Plain()) ==> Plain()
    {
      hide Valid, Clear, AATree.InOrder, DictOrder.Distinct, DictRuns.Represents, Announces, Decimal, Wrap;
      hide CONTENT_LENGTH;
      PhaseIs();
      ghost var before := Current();
      Flush();
      PhaseIs();
      if old(phase) == Unsent && phase == Body {
        PromiseSent(before);
      }
    }

    /** A buffered response that fits states its length; what `onion_handler_handle` and `onion_response_free` share. */
    method Settle()
      requires Valid() && phase != Heading && Promise()
      modifies this, buffer, net
      ensures Valid() && Promise() && content == old(content)
      ensures old(phase) == Body ==> phase == Body && conf == old(conf)
      ensures old(phase) == Body ==> declared == old(declared) && late == old(late)
      ensures old(phase) == Body ==> skip == old(skip) && chunked == old(chunked) && length == old(length)
      ensures old(phase) == Body && !skip ==> pos == 0
      ensures phase == Body ==> (skip <==> isHead)
      ensures old(phase) == Unsent && content == [] ==>
        phase == Unsent && pos == 0 && net.wire == base && sent == 0 && length == 0
      ensures old(phase) == Unsent && content != [] ==> phase == Body && !late && (!skip ==> pos > 0)
      ensures old(Plain()) ==> Plain()
    {
      hide Valid, Promise, Plain, Wrap;
      PhaseIs();
      if !headerSent && pos < SIZE {
        SetLength(pos);
      }
      WrapNothing();
      FlushKept();
    }

    /** `onion_response_free`: the last flush, the last chunk, and whether the connection may be kept. */
    method Free() returns (keep: bool)
      requires Valid() && phase != Heading && Promise()
      modifies this, buffer, net
      ensures content == old(content) && (phase == Body ==> (skip <==> isHead))
      ensures keep <==> keepAlive && (skip || chunked || length == sent)
      ensures old(Plain()) ==> Plain()
      ensures old(phase) == Body ==>
        && Delivered() && late == old(late) && conf == old(conf)
        && (!skip ==> sent == Wrap(|content|))
        && (keep && http11 && !late ==> Delimited())
      ensures old(phase) == Unsent && content == [] ==> net.wire == base && keep == keepAlive
      ensures old(phase) == Unsent && content != [] && !isHead ==>
        && phase == Body && Ok() && Pending() != []
        && (if chunked then net.wire == base + head + (Frames(chunks) + LAST) && content == Concat(chunks) + Pending()
            else net.wire + Pending() == base + head + content)
    {
      hide Clear, FramingName;
      hide AATree.InOrder, DictOrder.Distinct, DictRuns.Represents, Announces, Decimal, Wrap;
      hide Frames, Concat, Head, CONTENT_LENGTH;
      Settle();
      if chunked {
        net.SendWhole(LAST);
      }
      keep := keepAlive && (skip || length == sent || chunked);
    }
  }

  // ------------------------------------------------------------------ HEAD

  /**
   The loop of `onion_response_write` on a HEAD response, as `Response.Turn` is proved to take
   it: once the headers are sent, a flush empties nothing.
   */
  datatype HeadLoop = HeadLoop(pos: nat, left: int, unsent: bool)

  function HeadStep(s: HeadLoop): HeadLoop {
    if s.pos + s.left <= SIZE then s
    else HeadLoop(if s.unsent then 0 else SIZE, s.left - (SIZE - s.pos), false)
  }

  function HeadSteps(s: HeadLoop, n: nat): HeadLoop
    decreases n
  {
    if n == 0 then s else HeadSteps(HeadStep(s), n - 1)
  }

  ghost predicate HeadEnds(s: HeadLoop) {
    exists n: nat :: var t := HeadSteps(s, n); t.pos + t.left <= SIZE
  }

  lemma {:induction false} HeadStuck(s: HeadLoop, n: nat)
    requires s.pos == SIZE && s.left > 0 && !s.unsent
    ensures HeadSteps(s, n) == s
    decreases n
  {
    if n == 0 {
    } else {
      HeadStuck(s, n - 1);
    }
  }

  /** A first write to a HEAD response ends exactly when what it brings the buffer to fits it twice. */
  lemma HeadWriteEnds(pos: nat, length: nat)
    requires pos <= SIZE
    ensures HeadEnds(HeadLoop(pos, length, true)) <==> pos + length <= 2 * SIZE
  {
    var s := HeadLoop(pos, length, true);
    assert HeadSteps(s, 0) == s && HeadSteps(s, 1) == HeadSteps(HeadStep(s), 0) == HeadStep(s);
    if pos + length <= 2 * SIZE {
      assert pos + length <= SIZE || HeadStep(s).pos + HeadStep(s).left <= SIZE;
    } else {
      var u := HeadStep(HeadStep(s));
      forall n: nat ensures HeadSteps(s, n).pos + HeadSteps(s, n).left > SIZE {
        if n >= 2 {
          assert HeadSteps(s, n) == HeadSteps(u, n - 2);
          HeadStuck(u, n - 2);
        }
      }
    }
  }

  // ------------------------------------------------------------------ whole responses

  datatype Call =
    | WriteCall(data: string) | FlushCall | LengthCall(len: nat) | HeaderCall(key: string, value: string)
    | CodeCall(code: nat) | HeadersCall

  /** Everything a handler wrote. */
  function Written(calls: seq<Call>): string {
    if calls == [] then []
    else
      var c := calls[|calls| - 1];
      Written(calls[..|calls| - 1]) + if c.WriteCall? then c.data else []
  }

  /** Something has been written, or the headers have been asked for. */
  predicate Begun(calls: seq<Call>) {
    calls != [] &&
    var c := calls[|calls| - 1];
    Begun(calls[..|calls| - 1]) || c.HeadersCall? || (c.WriteCall? && c.data != [])
  }

  /** What a handler must respect: the headers are asked for before anything else is sent. */
  ghost predicate Proper(calls: seq<Call>) {
    && (forall i :: 0 <= i < |calls| && calls[i].HeaderCall? ==> calls[i].key != CONTENT_LENGTH)
    && (forall i :: 0 <= i < |calls| && calls[i].HeadersCall? ==> !Begun(calls[..i]))
  }

  /** No length is set after that. */
  ghost predicate LengthsFirst(calls: seq<Call>) {
    forall i :: 0 <= i < |calls| && calls[i].LengthCall? ==> !Begun(calls[..i])
  }

  /** No header that is set says anything about where the content ends. */
  ghost predicate HonestHeaders(calls: seq<Call>) {
    forall i :: 0 <= i < |calls| && calls[i].HeaderCall? ==> !FramingName(calls[i].key)
  }

  /**
   The calls after which the headers are sent: they are asked for, or what is written is flushed or
   outgrows the buffer.
   */
  predicate Opened(calls: seq<Call>) {
    calls != [] &&
    var before, c := calls[..|calls| - 1], calls[|calls| - 1];
    || Opened(before) || c.HeadersCall? || |Written(calls)| > SIZE
    || (Written(before) != [] && (c.FlushCall? || (c.WriteCall? && c.data == [])))
  }

  /** The writes of a handler to a HEAD response that end: the first to send the headers fits the buffer twice. */
  ghost predicate HeadWritesEnd(calls: seq<Call>) {
    forall i :: 0 <= i < |calls| && calls[i].WriteCall? && !Opened(calls[..i]) ==> |Written(calls[..i + 1])| <= 2 * SIZE
  }

  /** A write, a flush or the headers. */
  method Send(res: Response, c: Call)
    requires res.Valid() && res.phase != Heading && res.Promise()
    requires c.WriteCall? || c.FlushCall? || c.HeadersCall?
    requires c.HeadersCall? ==> res.phase == Unsent && res.content == []
    requires c.WriteCall? && res.isHead && res.phase == Unsent ==> |res.content + c.data| <= 2 * SIZE
    modifies res, res.buffer, res.net
    ensures res.Valid() && res.phase != Heading && res.Promise()
    ensures !old(res.skip) ==> res.content == old(res.content) + if c.WriteCall? then c.data else []
    ensures old(res.phase) == Unsent && res.content == [] && !c.HeadersCall? ==> res.phase == Unsent
    ensures old(res.phase) == Body || c.HeadersCall? ==> res.phase == Body
    ensures old(res.content) != [] && (c.FlushCall? || (c.WriteCall? && c.data == [])) ==> res.phase == Body
    ensures res.late == old(res.late) && (old(res.Plain()) ==> res.Plain())
  {
    hide Response.Valid, AATree.InOrder, DictOrder.Distinct, DictRuns.Represents, Announces;
    hide Wrap, CONTENT_LENGTH, Decimal;
    hide Clear;
    ghost var before := res.Current();
    res.PhaseIs();
    assert old(res.content) + [] == old(res.content);
    assert res.phase == Unsent ==> |res.Pending()| == res.pos == |res.content|;
    if c.WriteCall? {
      var r := res.Write(c.data);
    } else if c.FlushCall? {
      res.Flush();
    } else {
      NothingBuffered(res);
      res.WriteHeaders();
    }
    if old(res.phase) == Unsent && res.phase == Body {
      res.PromiseSent(before);
    }
  }

  /** Any call: what becomes of the content, of the headers, and of what they say. */
  method Do(res: Response, c: Call)
    requires res.Valid() && res.phase != Heading && res.Promise()
    requires c.HeaderCall? ==> c.key != CONTENT_LENGTH
    requires c.HeadersCall? ==> res.phase == Unsent && res.content == []
    requires c.WriteCall? && res.isHead && res.phase == Unsent ==> |res.content + c.data| <= 2 * SIZE
    modifies res, res.buffer, res.net
    ensures res.Valid() && res.phase != Heading && res.Promise()
    ensures !old(res.skip) ==> res.content == old(res.content) + if c.WriteCall? then c.data else []
    ensures old(res.phase) == Unsent && res.content == [] && !c.HeadersCall? ==> res.phase == Unsent
    ensures old(res.phase) == Body || c.HeadersCall? ==> res.phase == Body
    ensures old(res.content) != [] && (c.FlushCall? || (c.WriteCall? && c.data == [])) ==> res.phase == Body
    ensures res.late ==> old(res.late) || (c.LengthCall? && old(res.phase) == Body)
    ensures old(res.Plain()) && (c.HeaderCall? ==> !FramingName(c.key)) ==> res.Plain()
  {
    hide *;
    assert old(res.content) + [] == old(res.content);
    match c {
      case WriteCall(data) => Send(res, c);
      case FlushCall => Send(res, c);
      case HeadersCall => Send(res, c);
      case CodeCall(code) => res.SetCode(code);
      case LengthCall(len) =>
        res.SetLength(len);
        NotLate(res);
      case HeaderCall(key, value) =>
        res.SetHeader(key, value);
    }
  }

  lemma NothingBuffered(res: Response)
    requires res.Valid() && res.phase == Unsent && res.content == []
    ensures res.Untouched() && res.pos == 0
  {
  }

  lemma NotLate(res: Response)
    requires res.Promise()
    ensures res.phase == Unsent ==> !res.late
  {
  }

  /** One more call. */
  lemma CallsGrow(calls: seq<Call>, i: nat)
    requires i < |calls|
    ensures var c, before, after := calls[i], calls[..i], calls[..i + 1];
      && Written(after) == Written(before) + (if c.WriteCall? then c.data else [])
      && (Begun(after) <==> Begun(before) || c.HeadersCall? || (c.WriteCall? && c.data != []))
      && Opened(after) ==
           (Opened(before) || c.HeadersCall? || |Written(after)| > SIZE
            || (Written(before) != [] && (c.FlushCall? || (c.WriteCall? && c.data == []))))
  {
    assert calls[..i + 1][..i] == calls[..i];
  }

  /**
   A handler's calls, the headers among them or not, the flush behind it and the end of the
   response: the wire gets the header text and then everything written, framed in chunks if
   the headers say so, and the connection is kept only if the client can tell where the content
   ends; no header says otherwise unless the handler set one that does.
   */
  method Serve(res: Response, calls: seq<Call>) returns (keep: bool)
    requires res.Valid() && res.Promise() && res.phase == Unsent && res.content == [] && !res.isHead
    requires Proper(calls)
    modifies res, res.buffer, res.net
    ensures res.content == Written(calls)
    ensures !Begun(calls) ==> res.net.wire == res.base && keep == res.keepAlive
    ensures Begun(calls) ==>
      && res.Delivered()
      && (keep && res.http11 && LengthsFirst(calls) ==> res.Delimited())
      && (old(res.Plain()) && HonestHeaders(calls) ==> Clear(res.conf))
      && (res.chunked ==> Dechunk(res.net.wire[|res.base + res.head|..]) == Decoded(Written(calls), []))
  {
    NotLate(res);
    hide Response.Valid, Response.Promise, Response.Delimited, Frames, Concat, Head, Dechunk, CONTENT_LENGTH;
    hide Clear, FramingName, Written, Begun, Opened;
    NothingDone();
    assert calls[..0] == [];
    for i := 0 to |calls|
      invariant res.Valid() && res.Promise() && res.phase != Heading
      invariant res.content == Written(calls[..i])
      invariant if Begun(calls[..i]) then res.phase == Body || res.content != []
        else res.phase == Unsent && res.content == []
      invariant LengthsFirst(calls) ==> !res.late
      invariant old(res.Plain()) && HonestHeaders(calls) ==> res.Plain()
    {
      NotHead(res);
      Do(res, calls[i]);
      CallsGrow(calls, i);
    }
    assert calls[..|calls|] == calls;
    res.Settle();
    keep := res.Free();
    if res.phase == Body && res.chunked && res.Delivered() {
      ChunksReadBack(res.net.wire, res.base + res.head, res.chunks);
    }
  }

  lemma NothingDone()
    ensures Written([]) == [] && !Begun([]) && !Opened([])
  {
  }

  lemma NotHead(res: Response)
    requires res.Valid()
    ensures res.skip <==> res.isHead && res.phase == Body
    ensures res.phase == Unsent ==> |res.content| <= SIZE
  {
    res.PhaseIs();
  }

  /**
   The same of a HEAD response: exactly the header text goes out, whatever is written, and the
   connection may be kept.
   */
  method ServeHead(res: Response, calls: seq<Call>) returns (keep: bool)
    requires res.Valid() && res.Promise() && res.phase == Unsent && res.content == [] && res.isHead
    requires Proper(calls) && HeadWritesEnd(calls)
    modifies res, res.buffer, res.net
    ensures res.net.wire == if Begun(calls) then res.base + Head(res.conf) else res.base
    ensures keep == res.keepAlive
    ensures Begun(calls) && old(res.Plain()) && HonestHeaders(calls) ==> Clear(res.conf)
  {
    hide Response.Valid, Response.Promise, Frames, Concat, Head, CONTENT_LENGTH;
    hide Clear, FramingName, Written, Begun, Opened;
    NothingDone();
    assert calls[..0] == [];
    for i := 0 to |calls|
      invariant res.Valid() && res.Promise() && res.phase != Heading
      invariant res.phase == Unsent ==> res.content == Written(calls[..i]) && !Opened(calls[..i])
      invariant res.phase == Unsent && res.content == [] ==> !Begun(calls[..i])
      invariant Begun(calls[..i]) || (res.phase == Unsent && res.content == [])
      invariant old(res.Plain()) && HonestHeaders(calls) ==> res.Plain()
    {
      NotHead(res);
      CallsGrow(calls, i);
      Do(res, calls[i]);
      NotHead(res);
    }
    assert calls[..|calls|] == calls;
    res.Settle();
    keep := res.Free();
  }

  lemma ChunksReadBack(wire: string, before: string, chunks: seq<string>)
    requires wire == before + (Frames(chunks) + LAST) && forall i :: 0 <= i < |chunks| ==> chunks[i] != []
    ensures Dechunk(wire[|before|..]) == Decoded(Concat(chunks), [])
  {
    hide Frames, Dechunk, Concat;
    DechunkInverts(chunks, []);
    assert wire[|before|..] == Frames(chunks) + LAST + [];
  }

  lemma Longer(h: string, data: string, a: nat, n: nat)
    requires a + n <= |data|
    ensures h + data[..a] + data[a..a + n] == h + data[..a + n]
  {
    assert data[..a] + data[a..a + n] == data[..a + n];
  }

  lemma HeadIs(c: Settings, h: string)
    requires h == [] + (StatusLine(c) + Framing(c)) + (ALLOW_ORIGIN + Connection(c)) +
            HeaderLines(AATree.InOrder(c.headers))
                  + Cookie(c) + CRLF
    ensures h == Head(c)
  {
    hide StatusLine, Framing, Connection, HeaderLines, Cookie, ALLOW_ORIGIN, CRLF;
  }

  lemma NoFrames()
    ensures Frames([]) == [] && Concat([]) == []
  {
  }

  lemma FramesGrow(w: string, before: string, chunks: seq<string>, p: string)
    requires w == before + Frames(chunks)
    ensures w + (Hex(|p|) + CRLF) + p + CRLF == before + Frames(chunks + [p])
    ensures Concat(chunks + [p]) == Concat(chunks) + p
  {
    hide Hex, Concat;
    ConcatLast(chunks, p);
    assert (chunks + [p])[..|chunks|] == chunks;
    assert w + (Hex(|p|) + CRLF) + p + CRLF == before + (Frames(chunks) + Frame(p));
  }
}
