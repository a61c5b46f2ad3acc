/**
 `onion_request_write` and the head-parsing functions it dispatches to, statement by statement,
 proved to run the byte machine of RequestParser.dfy.
 */
module RequestReader {
  import opened Wrappers
  import opened CText
  import opened RequestParser

  /** onion_buffer */
  class Buffer {
    const data: string
    var pos: nat

    constructor (d: string)
      ensures data == d && pos == 0
    {
      data, pos := d, 0;
    }
  }

  datatype Token = Str | StrNewLine | NewLine | KeyTok | Line | Error(status: Status)

  /** A call that finds `s` and the bytes `w` ends where `s'` fed `w'` does. */
  ghost predicate Same(s: Head, w: string, s': Head, w': string) {
    Forget(Begin(s, w)) == Forget(FeedAll(s', w'))
  }

  function StatusOf(s: Head): Status {
    if s.mode.Stopped? then s.mode.status else NeedMore
  }

  ghost predicate Defined(s: Head, w: string) {
    !Lost(Begin(s, w))
  }

  /** Reading turned `s` with `w` to come into `s'` with `w'` to come, and answered `r`. */
  ghost predicate Steps(s: Head, w: string, r: Status, s': Head, w': string) {
    && Same(s, w, s', w')
    && r == StatusOf(s') && (r == NeedMore <==> !s'.mode.Stopped?)
    && (r == NeedMore && w' != [] ==> !Full(s'))
  }

  lemma {:induction false} CStringCut(a: string, n: nat)
    requires n < |a| && a[n] == NUL
    ensures CString(a) == CString(a[..n])
  {
    if n == 0 {
    } else {
      assert a[..n][1..] == a[1..][..n - 1];
      CStringCut(a[1..], n - 1);
    }
  }

  lemma FeedSplit(s: Head, data: string, p: nat, q: nat)
    requires p <= q <= |data|
    ensures FeedAll(s, data[p..]) == FeedAll(FeedAll(s, data[p..q]), data[q..])
  {
    assert data[p..] == data[p..q] + data[q..];
    FeedAppend(s, data[p..q], data[q..]);
  }

  lemma BeginSplit(s: Head, data: string, p: nat, q: nat)
    requires p < q <= |data|
    ensures Begin(s, data[p..]) == FeedAll(Begin(s, data[p..q]), data[q..])
  {
    hide Enter;
    assert data[p..][1..] == data[p..q][1..] + data[q..];
    FeedAppend(Enter(s, data[p]), data[p..q][1..], data[q..]);
  }

  lemma FeedByte(s: Head, data: string, p: nat)
    requires p < |data|
    ensures FeedAll(s, data[p..]) == FeedAll(Feed(s, data[p]), data[p + 1..])
  {
    hide Feed;
    assert data[p..][1..] == data[p + 1..];
  }

  class Request {
    var parser: Mode
    const str: array<char>
    var pos: nat
    var extra: string
    var verb: nat
    var http11: bool
    var target: Option<string>
    var headers: seq<Header>

    ghost predicate Valid()
      reads this, str
    {
      && InBounds()
      && (parser.SkipNewLine? || parser.Stopped? ==> pos == 0)
      && (parser.Peek? ==> CString(str[..]) == CString(str[..pos]))
      && !parser.Undefined? && !parser.Endless?
      && (pos > LIMIT ==> Full(Abs()))
    }

    predicate InBounds()
      reads this
    {
      str.Length == LIMIT + 1 && pos <= str.Length
    }

    /** The state as the byte machine sees it. */
    ghost function Abs(): Head
      requires pos <= str.Length
      reads this, str
    {
      Head(parser, str[..pos], extra, verb, http11, target, headers, [])
    }

    constructor ()
      ensures Valid() && Abs() == START && fresh(str)
    {
      parser, pos, extra, verb, http11, target, headers := Method, 0, [], 0, false, None, [];
      str := new char[LIMIT + 1];
    }

    /** `token->str[token->pos++]=c` */
    method Store(c: char)
      requires InBounds() && pos < str.Length
      modifies this`pos, str
      ensures InBounds() && pos == old(pos) + 1 && str[..pos] == old(str[..pos]) + [c]
    {
      str[pos] := c;
      pos := pos + 1;
    }

    /** The gathering loop of `token_read_STRING`: `c` is the space it stopped at. */
    method GatherWord(buf: Buffer) returns (r: Token, c: char, ghost w: string)
      requires InBounds() && buf.pos < |buf.data| && pos <= LIMIT
      modifies this`pos, str, buf`pos
      ensures InBounds() && old(buf.pos) < buf.pos <= |buf.data|
      ensures r == Str || r == Error(NeedMore) || r == Error(InternalError)
      ensures str[..pos] == old(str[..pos]) + w && forall i :: 0 <= i < |w| ==> !IsSpace(w[i])
      ensures buf.data[old(buf.pos)..buf.pos] == if r == Str then w + [c] else w
      ensures w != [] ==> pos <= LIMIT || |w| == 1
      ensures r == Str ==> c == buf.data[buf.pos - 1] && IsSpace(c) && (w != [] ==> pos < LIMIT)
      ensures r == Error(NeedMore) ==> buf.pos == |buf.data|
      ensures r == Error(InternalError) ==> buf.pos < |buf.data| && pos >= LIMIT && w != []
    {
      w := [];
      ghost var p0, t0 := buf.pos, str[..pos];
      c := buf.data[buf.pos];
      buf.pos := buf.pos + 1;
      while !IsSpace(c)
        invariant InBounds() && pos <= LIMIT && (w != [] ==> pos < LIMIT) && p0 < buf.pos <= |buf.data|
        invariant c == buf.data[buf.pos - 1] && buf.data[p0..buf.pos] == w + [c] && str[..pos] == t0 + w
        invariant forall i :: 0 <= i < |w| ==> !IsSpace(w[i])
        decreases |buf.data| - buf.pos
      {
        hide IsSpace;
        Store(c);
        w := w + [c];
        if buf.pos >= |buf.data| {
          return Error(NeedMore), c, w;
        }
        if pos >= LIMIT {
          return Error(InternalError), c, w;
        }
        c := buf.data[buf.pos];
        buf.pos := buf.pos + 1;
      }
      r := Str;
    }

    /** `token_read_STRING`, as the byte machine sees it in any of the three states that use it. */
    method ReadString(buf: Buffer) returns (r: Token, ghost tok: string)
      requires InBounds() && buf.pos <= |buf.data| && (parser.Method? || parser.Url? || parser.Version?)
      requires buf.pos < |buf.data| ==> pos <= LIMIT
      modifies this`pos, str, buf`pos
      ensures InBounds() && old(buf.pos) <= buf.pos <= |buf.data|
      ensures old(buf.pos) < |buf.data| ==> old(buf.pos) < buf.pos
      ensures r == Error(NeedMore) ==> buf.pos == |buf.data| && Abs() == Begin(old(Abs()), buf.data[old(buf.pos)..])
      ensures r.Error? && r != Error(NeedMore) ==>
        r == Error(InternalError) && Begin(old(Abs()), buf.data[old(buf.pos)..]) == Stop(old(Abs()), InternalError)
      ensures !r.Error? ==>
        && old(buf.pos) < buf.pos && pos == 0 && |tok| <= LIMIT && CString(str[..]) == CString(tok)
        && var c := buf.data[buf.pos - 1];
        && Begin(old(Abs()), buf.data[old(buf.pos)..buf.pos]) == Take(old(Abs()).(tok := tok), c)
        && IsSpace(c) && r == if c == '\n' then StrNewLine else Str
    {
      hide FeedAll, Feed, CString, Stop, IsSpace, Begin, Take;
      ghost var s, p0, t0 := Abs(), buf.pos, str[..pos];
      tok := [];
      if buf.pos >= |buf.data| {
        assert buf.data[p0..] == [];
        BeginNothing(s);
        return Error(NeedMore), tok;
      }
      var c;
      ghost var w;
      r, c, w := GatherWord(buf);
      tok := t0 + w;
      if r == Error(NeedMore) {
        assert buf.data[p0..] == w;
        BeginWord(s, w);
        return r, tok;
      }
      if r == Error(InternalError) {
        WordOverLimit(s, buf.data, p0, buf.pos, w);
        return r, tok;
      }
      WordEnds(s, w, c);
      r := if c == '\n' then StrNewLine else Str;
      str[pos] := NUL;
      CStringCut(str[..], pos);
      assert str[..][..pos] == tok;
      pos := 0;
    }

    /** The gathering loop of `token_read_until`: `c` is the colon or line feed it stopped at. */
    method GatherKey(buf: Buffer) returns (r: Token, c: char)
      requires InBounds() && buf.pos < |buf.data| && pos <= LIMIT && parser.Key?
      modifies this`pos, str, buf`pos
      ensures InBounds() && old(buf.pos) < buf.pos <= |buf.data|
      ensures r == Str || r == Error(NeedMore) || r == Error(InternalError)
      ensures r == Str ==>
        && pos <= LIMIT && c == buf.data[buf.pos - 1] && (c == ':' || c == '\n')
        && (pos < LIMIT || buf.pos - 1 == old(buf.pos))
        && Begin(old(Abs()), buf.data[old(buf.pos)..buf.pos - 1]) == Abs()
      ensures r == Error(NeedMore) ==>
        buf.pos == |buf.data| && Abs() == Begin(old(Abs()), buf.data[old(buf.pos)..buf.pos])
      ensures r == Error(InternalError) ==>
        Begin(old(Abs()), buf.data[old(buf.pos)..]) == Stop(old(Abs()), InternalError)
    {
      hide FeedAll, Feed, CString, FeedKey, Stop, Begin, Take, Full;
      ghost var s, p0 := Abs(), buf.pos;
      BeginNothing(s);
      c := buf.data[buf.pos];
      buf.pos := buf.pos + 1;
      ghost var tok := str[..pos];
      assert buf.data[p0..p0] == [];
      while c != ':' && c != '\n'
        invariant InBounds() && pos <= LIMIT && (pos < LIMIT || buf.pos - 1 == p0)
        invariant p0 < buf.pos <= |buf.data| && c == buf.data[buf.pos - 1]
        invariant str[..pos] == tok && Begin(s, buf.data[p0..buf.pos - 1]) == s.(tok := tok)
        decreases |buf.data| - buf.pos
      {
        GatherByte(s, buf.data, p0, buf.pos - 1, tok);
        if c != '\r' {
          Store(c);
          tok := tok + [c];
        }
        if buf.pos >= |buf.data| {
          return Error(NeedMore), c;
        }
        if pos >= LIMIT {
          OverLimit(s, buf.data, p0, buf.pos, tok);
          return Error(InternalError), c;
        }
        c := buf.data[buf.pos];
        buf.pos := buf.pos + 1;
      }
      r := Str;
    }

    /** `token_read_until` a colon: gathers bytes, ignoring CRs, up to the colon or the line feed. */
    method ReadUntilColon(buf: Buffer) returns (r: Token, ghost tok: string)
      requires InBounds() && buf.pos <= |buf.data| && (buf.pos < |buf.data| ==> pos <= LIMIT) && parser.Key?
      modifies this`pos, str, buf`pos
      ensures InBounds() && old(buf.pos) <= buf.pos <= |buf.data|
      ensures old(buf.pos) < |buf.data| ==> old(buf.pos) < buf.pos
      ensures r == Error(NeedMore) ==> buf.pos == |buf.data| && Abs() == Begin(old(Abs()), buf.data[old(buf.pos)..])
      ensures r.Error? && r != Error(NeedMore) ==>
        r == Error(InternalError) && Begin(old(Abs()), buf.data[old(buf.pos)..]) == Stop(old(Abs()), InternalError)
      ensures !r.Error? ==>
        && old(buf.pos) < buf.pos && pos == 0 && |tok| <= LIMIT && CString(str[..]) == CString(tok)
        && var s, c := old(Abs()), buf.data[buf.pos - 1];
        && Begin(s, buf.data[old(buf.pos)..buf.pos]) == FeedKey(s.(tok := tok), c)
        && (c == ':' || c == '\n')
        && r == if c == ':' then Str else if tok == [] then NewLine else StrNewLine
    {
      hide FeedAll, Feed, CString, FeedKey, Stop, Begin;
      ghost var s, p0 := Abs(), buf.pos;
      tok := [];
      if buf.pos >= |buf.data| {
        assert buf.data[p0..] == [];
        BeginNothing(s);
        return Error(NeedMore), tok;
      }
      var c;
      r, c := GatherKey(buf);
      if r.Error? {
        assert buf.pos == |buf.data| ==> buf.data[p0..buf.pos] == buf.data[p0..];
        return r, tok;
      }
      tok := str[..pos];
      GatherByte(s, buf.data, p0, buf.pos - 1, tok);
      str[pos] := NUL;
      CStringCut(str[..], pos);
      assert str[..][..pos] == tok;
      if c != ':' {
        r := if pos == 0 then NewLine else StrNewLine;
      }
      pos := 0;
    }

    /** `token_read_KEY` */
    method ReadKey(buf: Buffer) returns (r: Token)
      requires InBounds() && buf.pos <= |buf.data| && (buf.pos < |buf.data| ==> pos <= LIMIT) && parser.Key?
      modifies this`pos, str, buf`pos
      ensures InBounds() && old(buf.pos) <= buf.pos <= |buf.data|
      ensures old(buf.pos) < |buf.data| ==> old(buf.pos) < buf.pos
      ensures var s, d := old(Abs()), buf.data[old(buf.pos)..];
        match r
        case Error(NeedMore) => buf.pos == |buf.data| && Abs() == Begin(s, d)
        case Error(e) => e == InternalError && Begin(s, d) == Stop(s, e)
        case NewLine => pos == 0 && old(buf.pos) < buf.pos &&
          Begin(s, buf.data[old(buf.pos)..buf.pos]) == Stop(s, Complete(NextOf(verb, headers)))
        case KeyTok => pos == 0 && old(buf.pos) < buf.pos &&
          Begin(s, buf.data[old(buf.pos)..buf.pos]) == s.(mode := Value, tok := [], extra := CString(str[..]))
        case _ => false
    {
      hide FeedAll, Feed, CString, NextOf, Begin;
      ghost var s, p0 := Abs(), buf.pos;
      ghost var tok;
      r, tok := ReadUntilColon(buf);
      if r == Str {
        return KeyTok;
      }
      if r == StrNewLine {
        BeginSplit(s, buf.data, p0, buf.pos);
        FailedStaysFailed(Stop(s, InternalError), buf.data[buf.pos..]);
        return Error(InternalError);
      }
    }

    /** The gathering loop of `token_read_LINE`: bytes past the buffer's size are dropped. */
    lemma InValue()
      requires InBounds()
      ensures Abs().mode == parser
    {
    }

    /** The rest of a line that is too long is dropped. */
    method StoreIfRoom(c: char)
      requires InBounds() && pos <= LIMIT
      modifies this`pos, str
      ensures InBounds() && pos <= LIMIT
      ensures var t := old(Abs().tok); Abs() == old(Abs()).(tok := if |t| < LIMIT then t + [c] else t)
    {
      if pos < LIMIT {
        Store(c);
      }
    }

    method GatherLine(buf: Buffer) returns (r: Token)
      requires InBounds() && pos <= LIMIT && buf.pos < |buf.data| && parser.Value?
      modifies this`pos, str, buf`pos
      ensures InBounds() && pos <= LIMIT && old(buf.pos) < buf.pos <= |buf.data|
      ensures r == Line || r == Error(NeedMore)
      ensures r == Error(NeedMore) ==> buf.pos == |buf.data| && Abs() == FeedAll(old(Abs()), buf.data[old(buf.pos)..])
      ensures r == Line ==>
        buf.data[buf.pos - 1] == '\n' && Abs() == FeedAll(old(Abs()), buf.data[old(buf.pos)..buf.pos - 1])
    {
      hide FeedAll, Feed, Abs;
      ghost var s, p0 := Abs(), buf.pos;
      FeedNothing(s);
      assert buf.data[p0..p0] == [];
      var c := buf.data[buf.pos];
      buf.pos := buf.pos + 1;
      assert Abs().mode == parser by { InValue(); }
      while c != '\n'
        invariant InBounds() && pos <= LIMIT && p0 < buf.pos <= |buf.data| && c == buf.data[buf.pos - 1]
        invariant FeedAll(s, buf.data[p0..buf.pos - 1]) == Abs() == s.(tok := Abs().tok)
        decreases |buf.data| - buf.pos
      {
        LineByte(s, buf.data, p0, buf.pos - 1, Abs().tok);
        StoreIfRoom(c);
        if buf.pos >= |buf.data| {
          assert buf.data[p0..buf.pos] == buf.data[p0..];
          return Error(NeedMore);
        }
        c := buf.data[buf.pos];
        buf.pos := buf.pos + 1;
      }
      r := Line;
    }

    /** The line's CR, or the byte after it, becomes the terminator; `pos` keeps the line's length. */
    method EndLine()
      requires InBounds() && 0 < pos <= LIMIT
      modifies str
      ensures CString(str[..]) == CString(str[..pos])
      ensures str[..pos] == old(if str[pos - 1] == '\r' then str[..pos][pos - 1 := NUL] else str[..pos])
    {
      hide CString;
      if str[pos - 1] == '\r' {
        str[pos - 1] := NUL;
        CStringCut(str[..], pos - 1);
        CStringCut(str[..pos], pos - 1);
        assert str[..][..pos - 1] == str[..pos][..pos - 1];
      } else {
        str[pos] := NUL;
        CStringCut(str[..], pos);
        assert str[..][..pos] == str[..pos];
      }
    }

    /** `token_read_LINE` */
    method ReadLine(buf: Buffer) returns (r: Token)
      requires InBounds() && pos <= LIMIT && buf.pos <= |buf.data| && parser.Value?
      requires Defined(Abs(), buf.data[buf.pos..])
      modifies this`pos, str, buf`pos
      ensures InBounds() && pos <= LIMIT && old(buf.pos) <= buf.pos <= |buf.data|
      ensures old(buf.pos) < |buf.data| ==> old(buf.pos) < buf.pos
      ensures r == Line || r == Error(NeedMore)
      ensures r == Error(NeedMore) ==> buf.pos == |buf.data| && Abs() == FeedAll(old(Abs()), buf.data[old(buf.pos)..])
      ensures r == Line ==>
        && old(buf.pos) < buf.pos && CString(str[..]) == CString(str[..pos])
        && FeedAll(old(Abs()), buf.data[old(buf.pos)..buf.pos]) == Abs().(mode := Peek)
    {
      hide FeedAll, Feed, CString, Defined;
      ghost var s, p0 := Abs(), buf.pos;
      if buf.pos >= |buf.data| {
        assert buf.data[p0..] == [];
        FeedNothing(s);
        return Error(NeedMore);
      }
      r := GatherLine(buf);
      if r == Line {
        LineEnd(s, buf.data, p0, buf.pos - 1, str[..pos]);
        EndLine();
      }
    }

    /** `token_read_NEW_LINE`; a lone first byte is forgotten at the end of the data. */
    method ReadNewLine(buf: Buffer) returns (r: Token)
      requires InBounds() && buf.pos <= |buf.data| && parser.SkipNewLine? && pos == 0
      modifies this`pos, str, buf`pos
      ensures InBounds() && pos == 0 && old(buf.pos) <= buf.pos <= |buf.data|
      ensures old(buf.pos) < |buf.data| ==> old(buf.pos) < buf.pos
      ensures r == NewLine || r == Error(NeedMore) || r == Error(InternalError)
      ensures r != Error(NeedMore) ==> old(buf.pos) < buf.pos
      ensures r == NewLine ==> FeedAll(old(Abs()), buf.data[old(buf.pos)..buf.pos]) == old(Abs()).(mode := Key)
      ensures r == Error(NeedMore) ==>
        buf.pos == |buf.data| && Forget(FeedAll(old(Abs()), buf.data[old(buf.pos)..])) == old(Abs())
      ensures r == Error(InternalError) ==>
        FeedAll(old(Abs()), buf.data[old(buf.pos)..buf.pos]) == Stop(old(Abs()), InternalError)
    {
      hide FeedAll, Feed, Stop;
      ghost var s, p0 := Abs(), buf.pos;
      while pos < 2 && buf.pos < |buf.data|
        invariant InBounds() && pos <= 2 && buf.pos == p0 + pos <= |buf.data|
        invariant forall i :: 0 <= i < pos ==> str[i] == buf.data[p0 + i]
        invariant 0 < pos ==> str[0] != '\n'
        decreases 2 - pos
      {
        str[pos] := buf.data[buf.pos];
        pos, buf.pos := pos + 1, buf.pos + 1;
        if pos == 1 && str[0] == '\n' {
          FeedBreak(s, buf.data[p0..buf.pos]);
          pos := 0;
          return NewLine;
        }
      }
      FeedBreak(s, buf.data[p0..buf.pos]);
      r := Error(NeedMore);
      if pos == 2 {
        r := if str[0] == '\r' && str[1] == '\n' then NewLine else Error(InternalError);
      } else {
        assert buf.data[p0..] == buf.data[p0..buf.pos];
      }
      pos := 0;
    }

    // ---------------------------------------------------------------- the states

    /** The answer closes the connection: nothing is parsed after it. */
    method Finish(status: Status)
      requires InBounds()
      modifies this`parser, this`pos
      ensures Valid() && parser == Stopped(status) && pos == 0
    {
      parser, pos := Stopped(status), 0;
    }

    /** `parse_headers_GET` */
    method ParseMethod(buf: Buffer) returns (r: Status)
      requires Valid() && buf.pos <= |buf.data| && parser.Method? && Defined(Abs(), buf.data[buf.pos..])
      requires buf.pos < |buf.data| ==> pos <= LIMIT
      modifies this, str, buf`pos
      ensures Valid() && old(buf.pos) <= buf.pos <= |buf.data|
      ensures Steps(old(Abs()), buf.data[old(buf.pos)..], r, Abs(), buf.data[buf.pos..])
      ensures old(buf.pos) < |buf.data| && r == NeedMore ==> old(buf.pos) < buf.pos
      decreases |buf.data| - buf.pos, 8
    {
      hide FeedAll, Feed, CString, Defined, Steps, Begin, Take;
      ghost var s, p0 := Abs(), buf.pos;
      var res;
      ghost var tok;
      res, tok := ReadString(buf);
      if res.Error? {
        r := res.status;
        if r != NeedMore { Finish(r); }
        Halted(s, buf.data, p0, buf.pos, r, Abs());
        return;
      }
      MethodRead(s, tok, buf.data[buf.pos - 1]);
      var i := 0;
      while i < |METHODS| && METHODS[i] != CString(str[..])
        invariant i <= |METHODS| && MethodIndex(CString(tok), 0) == MethodIndex(CString(tok), i)
      {
        i := i + 1;
      }
      if i == |METHODS| {
        Finish(NotImplemented);
        Reached(s, buf.data, p0, buf.pos, NotImplemented, Abs());
        return NotImplemented;
      }
      verb := i;
      parser := Url;
      ghost var s1, p1 := Abs(), buf.pos;
      Onward(s, buf.data, p0, p1, s1);
      r := ParseUrl(buf);
      Chained(s, buf.data, p0, p1, s1, r, Abs(), buf.pos);
    }

    /** `parse_headers_URL` */
    method ParseUrl(buf: Buffer) returns (r: Status)
      requires Valid() && buf.pos <= |buf.data| && parser.Url? && Defined(Abs(), buf.data[buf.pos..])
      requires buf.pos < |buf.data| ==> pos <= LIMIT
      modifies this, str, buf`pos
      ensures Valid() && old(buf.pos) <= buf.pos <= |buf.data|
      ensures Steps(old(Abs()), buf.data[old(buf.pos)..], r, Abs(), buf.data[buf.pos..])
      ensures old(buf.pos) < |buf.data| && r == NeedMore ==> old(buf.pos) < buf.pos
      decreases |buf.data| - buf.pos, 7
    {
      hide FeedAll, CString, Defined, Steps, Begin;
      ghost var s, p0 := Abs(), buf.pos;
      var res;
      ghost var tok;
      res, tok := ReadString(buf);
      if res.Error? {
        r := res.status;
        if r != NeedMore { Finish(r); }
        Halted(s, buf.data, p0, buf.pos, r, Abs());
        return;
      }
      target := Some(CString(str[..]));
      parser := if res == StrNewLine then Key else Version;
      ghost var s1, p1 := Abs(), buf.pos;
      assert Take(s.(tok := tok), buf.data[p1 - 1]) == s1;
      Onward(s, buf.data, p0, p1, s1);
      if res == StrNewLine {
        r := ParseKey(buf);
      } else {
        r := ParseVersion(buf);
      }
      Chained(s, buf.data, p0, p1, s1, r, Abs(), buf.pos);
    }

    /** `parse_headers_VERSION` */
    method ParseVersion(buf: Buffer) returns (r: Status)
      requires Valid() && buf.pos <= |buf.data| && parser.Version? && Defined(Abs(), buf.data[buf.pos..])
      requires buf.pos < |buf.data| ==> pos <= LIMIT
      modifies this, str, buf`pos
      ensures Valid() && old(buf.pos) <= buf.pos <= |buf.data|
      ensures Steps(old(Abs()), buf.data[old(buf.pos)..], r, Abs(), buf.data[buf.pos..])
      ensures old(buf.pos) < |buf.data| && r == NeedMore ==> old(buf.pos) < buf.pos
      decreases |buf.data| - buf.pos, 6
    {
      hide FeedAll, Feed, CString, Defined, Steps, Begin, Take;
      ghost var s, p0 := Abs(), buf.pos;
      var res;
      ghost var tok;
      res, tok := ReadString(buf);
      if res.Error? {
        r := res.status;
        if r != NeedMore { Finish(r); }
        Halted(s, buf.data, p0, buf.pos, r, Abs());
        return;
      }
      if CString(str[..]) == HTTP11 {
        http11 := true;
      }
      parser := if res == Str then SkipNewLine else Key;
      ghost var s1, p1 := Abs(), buf.pos;
      VersionRead(s, tok, buf.data[p1 - 1]);
      Onward(s, buf.data, p0, p1, s1);
      if res == Str {
        r := ParseSkipNewLine(buf);
      } else {
        r := ParseKey(buf);
      }
      Chained(s, buf.data, p0, p1, s1, r, Abs(), buf.pos);
    }

    /** `parse_headers_KEY_skip_NL` */
    method ParseSkipNewLine(buf: Buffer) returns (r: Status)
      requires Valid() && buf.pos <= |buf.data| && parser.SkipNewLine? && Defined(Abs(), buf.data[buf.pos..])
      modifies this, str, buf`pos
      ensures Valid() && old(buf.pos) <= buf.pos <= |buf.data|
      ensures Steps(old(Abs()), buf.data[old(buf.pos)..], r, Abs(), buf.data[buf.pos..])
      ensures old(buf.pos) < |buf.data| && r == NeedMore ==> old(buf.pos) < buf.pos
      decreases |buf.data| - buf.pos, 5
    {
      hide FeedAll, Feed, CString, Defined, Steps, Begin, Take;
      ghost var s, p0 := Abs(), buf.pos;
      var res := ReadNewLine(buf);
      NotFull(s);
      BeginIsFeed(s, buf.data[p0..]);
      BeginIsFeed(s, buf.data[p0..buf.pos]);
      if res.Error? {
        r := res.status;
        if r == NeedMore {
          Paused(s, buf.data, p0, Abs());
        } else {
          Finish(r);
          Reached(s, buf.data, p0, buf.pos, r, Abs());
        }
        return;
      }
      parser := Key;
      ghost var s1, p1 := Abs(), buf.pos;
      Onward(s, buf.data, p0, p1, s1);
      r := ParseKey(buf);
      Chained(s, buf.data, p0, p1, s1, r, Abs(), buf.pos);
    }

    /** `parse_headers_KEY` */
    method ParseKey(buf: Buffer) returns (r: Status)
      requires Valid() && buf.pos <= |buf.data| && parser.Key? && Defined(Abs(), buf.data[buf.pos..])
      requires buf.pos < |buf.data| ==> pos <= LIMIT
      modifies this, str, buf`pos
      ensures Valid() && old(buf.pos) <= buf.pos <= |buf.data|
      ensures Steps(old(Abs()), buf.data[old(buf.pos)..], r, Abs(), buf.data[buf.pos..])
      ensures old(buf.pos) < |buf.data| && r == NeedMore ==> old(buf.pos) < buf.pos
      decreases |buf.data| - buf.pos, 4
    {
      hide FeedAll, Feed, CString, Defined, Steps, NextOf, Begin, Take;
      ghost var s, p0 := Abs(), buf.pos;
      var res := ReadKey(buf);
      if res.Error? {
        r := res.status;
        if r != NeedMore { Finish(r); }
        Halted(s, buf.data, p0, buf.pos, r, Abs());
        return;
      }
      if res == NewLine {
        r := Complete(NextOf(verb, headers));
        Finish(r);
        Reached(s, buf.data, p0, buf.pos, r, Abs());
        return;
      }
      extra := CString(str[..]);
      parser := Value;
      ghost var s1, p1 := Abs(), buf.pos;
      Onward(s, buf.data, p0, p1, s1);
      r := ParseValue(buf);
      Chained(s, buf.data, p0, p1, s1, r, Abs(), buf.pos);
    }

    /** `parse_headers_VALUE` */
    method ParseValue(buf: Buffer) returns (r: Status)
      requires Valid() && buf.pos <= |buf.data| && parser.Value? && Defined(Abs(), buf.data[buf.pos..])
      modifies this, str, buf`pos
      ensures Valid() && old(buf.pos) <= buf.pos <= |buf.data|
      ensures Steps(old(Abs()), buf.data[old(buf.pos)..], r, Abs(), buf.data[buf.pos..])
      ensures old(buf.pos) < |buf.data| && r == NeedMore ==> old(buf.pos) < buf.pos
      decreases |buf.data| - buf.pos, 3
    {
      hide FeedAll, Feed, CString, Defined, Steps, Begin, Take;
      ghost var s, p0 := Abs(), buf.pos;
      var res := ReadLine(buf);
      NotFull(s);
      BeginIsFeed(s, buf.data[p0..]);
      BeginIsFeed(s, buf.data[p0..buf.pos]);
      if res.Error? {
        r := res.status;
        Halted(s, buf.data, p0, buf.pos, r, Abs());
        return;
      }
      parser := Peek;
      ghost var s1, p1 := Abs(), buf.pos;
      Onward(s, buf.data, p0, p1, s1);
      NotAtNul(s1, buf.data, p1);
      r := ParsePeek(buf);
      Chained(s, buf.data, p0, p1, s1, r, Abs(), buf.pos);
    }

    /** The next byte is a NUL, which `token_peek_next_char` answers at the end of the data, too. */
    ghost predicate AtNul(buf: Buffer)
      reads buf
    {
      buf.pos < |buf.data| && buf.data[buf.pos] == NUL
    }

    /**
     `parse_headers_VALUE_multiline_if_space`.  At a NUL it asks for more data and takes
     nothing, so that the loop of `Write` would call it for ever.
     */
    method ParsePeek(buf: Buffer) returns (r: Status)
      requires Valid() && buf.pos <= |buf.data| && parser.Peek?
      requires Defined(Abs(), buf.data[buf.pos..]) || AtNul(buf)
      modifies this, str, buf`pos
      ensures Valid() && old(buf.pos) <= buf.pos <= |buf.data|
      ensures old(AtNul(buf)) ==> r == NeedMore && Abs() == old(Abs()) && buf.pos == old(buf.pos)
      ensures !old(AtNul(buf)) ==> Steps(old(Abs()), buf.data[old(buf.pos)..], r, Abs(), buf.data[buf.pos..])
      ensures !old(AtNul(buf)) && old(buf.pos) < |buf.data| && r == NeedMore ==> old(buf.pos) < buf.pos || parser.Key?
      decreases |buf.data| - buf.pos, 2
    {
      hide FeedAll, CString, Defined, Steps, SkipSpaces, Begin;
      ghost var s, p0 := Abs(), buf.pos;
      var peek := if buf.pos >= |buf.data| then NUL else buf.data[buf.pos];
      if peek == NUL {
        if buf.pos == |buf.data| { PeekedNothing(s, buf.data, p0); }
        return NeedMore;
      }
      if peek == ' ' || peek == '\t' {
        parser := SkipWhitespace;
        PeekedSpace(s, buf.data, p0);
        r := ParseSkipWhitespace(buf);
        Moved(s, buf.data, p0, s.(mode := SkipWhitespace), p0, r, Abs(), buf.pos);
        return;
      }
      pos := 0;
      headers := headers + [Header(extra, SkipSpaces(CString(str[..])))];
      extra := [];
      parser := Key;
      PeekedKey(s, buf.data, p0, Abs());
      r := NeedMore;
    }

    /** `parse_headers_VALUE_skip_leading_whitespace` */
    method ParseSkipWhitespace(buf: Buffer) returns (r: Status)
      requires Valid() && buf.pos <= |buf.data| && parser.SkipWhitespace? && Defined(Abs(), buf.data[buf.pos..])
      modifies this, str, buf`pos
      ensures Valid() && old(buf.pos) <= buf.pos <= |buf.data|
      ensures Steps(old(Abs()), buf.data[old(buf.pos)..], r, Abs(), buf.data[buf.pos..])
      ensures old(buf.pos) < |buf.data| && r == NeedMore ==> old(buf.pos) < buf.pos
      decreases |buf.data| - buf.pos, 1
    {
      hide FeedAll, CString, Defined, Steps, Begin;
      ghost var s, p0 := Abs(), buf.pos;
      while buf.pos < |buf.data|
        invariant Valid() && Abs() == s && p0 <= buf.pos <= |buf.data|
        invariant FeedAll(s, buf.data[p0..]) == FeedAll(s, buf.data[buf.pos..])
        decreases |buf.data| - buf.pos
      {
        var peek := buf.data[buf.pos];
        FeedByte(s, buf.data, buf.pos);
        buf.pos := buf.pos + 1;
        if peek != '\t' && peek != ' ' {
          if peek == '\n' {
            Resumed(s, buf.data, p0, buf.pos);
            return NeedMore;
          }
          Foldable(s, buf.data, p0, buf.pos - 1);
          str[pos] := ' ';
          str[pos + 1] := peek;
          pos := pos + 2;
          parser := Value;
          ghost var s1, p1 := Abs(), buf.pos;
          assert s1.tok == s.tok + [' ', peek];
          assert Feed(s, peek) == s1;
          r := ParseValue(buf);
          Moved(s, buf.data, p0, s1, p1, r, Abs(), buf.pos);
          return;
        }
      }
      Resumed(s, buf.data, p0, buf.pos);
      r := NeedMore;
    }

    /** One call through `req->parser`. */
    method Parse(buf: Buffer) returns (r: Status)
      requires Valid() && buf.pos < |buf.data| && !parser.Stopped? && Defined(Abs(), buf.data[buf.pos..])
      modifies this, str, buf`pos
      ensures Valid() && old(buf.pos) <= buf.pos <= |buf.data|
      ensures Steps(old(Abs()), buf.data[old(buf.pos)..], r, Abs(), buf.data[buf.pos..])
      ensures r == NeedMore ==> old(buf.pos) < buf.pos || (old(parser).Peek? && parser.Key?)
    {
      hide FeedAll, CString, Defined, Steps, Begin;
      RoomLeft(Abs(), buf.data[buf.pos..]);
      match parser
      case Method => r := ParseMethod(buf);
      case Url => r := ParseUrl(buf);
      case Version => r := ParseVersion(buf);
      case SkipNewLine => r := ParseSkipNewLine(buf);
      case Key => r := ParseKey(buf);
      case Value => r := ParseValue(buf);
      case Peek =>
        NotAtNul(Abs(), buf.data, buf.pos);
        r := ParsePeek(buf);
      case SkipWhitespace => r := ParseSkipWhitespace(buf);
    }

    /**
     `onion_request_write`: one chunk takes the request where the byte machine goes.  The head
     may end at `end`, before the chunk does; what follows is for the body's parser.
     */
    method Write(data: string) returns (r: Status, end: nat)
      requires Valid() && CanWrite(Abs(), data) && (data != [] ==> !parser.Stopped?)
      modifies this, str
      ensures Valid() && end <= |data| && (parser.Stopped? || end == |data|)
      ensures WriteChunk(old(Abs()), data) == if Accepted(Abs()) then Abs().(rest := data[end..]) else Abs()
      ensures data != [] ==> r == StatusOf(Abs())
    {
      hide FeedAll, CString, Steps, Full, Begin;
      ghost var s := Abs();
      var buf := new Buffer(data);
      assert data[0..] == data;
      while buf.pos < |data|
        invariant Valid() && buf.pos <= |data|
        invariant buf.pos < |data| ==> !parser.Stopped?
        invariant Forget(Begin(s, data)) == Forget(Begin(Abs(), data[buf.pos..]))
        invariant Defined(Abs(), data[buf.pos..])
        invariant buf.pos > 0 ==> !parser.Stopped?
        decreases |data| - buf.pos, if parser.Peek? then 1 else 0
      {
        ghost var s1, p1 := Abs(), buf.pos;
        r := Parse(buf);
        Stepped(s, data, s1, p1, r, Abs(), buf.pos);
        if r != NeedMore {
          return r, buf.pos;
        }
      }
      assert data[buf.pos..] == [];
      BeginNothing(Abs());
      r, end := NeedMore, |data|;
    }
  }

  // ------------------------------------------------------------------ when a write ends

  lemma NotAtNul(s: Head, data: string, p: nat)
    requires p <= |data| && s.mode.Peek? && Defined(s, data[p..])
    ensures p < |data| ==> data[p] != NUL
  {
    hide Begin;
    BeginIsFeed(s, data[p..]);
    if p < |data| && data[p] == NUL {
      FeedByte(s, data, p);
      LostStays(Feed(s, data[p]), data[p + 1..]);
    }
  }

  lemma NulHangs(u: Head, c: char)
    ensures Feed(u, c).mode.Endless? <==> u.mode.Endless? || (u.mode.Peek? && c == NUL)
    ensures Enter(u, c).mode.Endless? <==> u.mode.Endless? || (u.mode.Peek? && c == NUL)
  {
    hide FeedValue, FeedKey, MethodDone, VersionDone, HeaderDone;
    KeyMoves(u, c);
    KeyMoves(HeaderDone(u), c);
    LineMoves(u, c);
  }

  lemma KeyMoves(s: Head, c: char)
    ensures FeedKey(s, c).mode.Endless? ==> s.mode.Endless?
    ensures HeaderDone(s).mode == Key && !MethodDone(s).mode.Endless? && !VersionDone(s, c).mode.Endless?
  {
    hide NextOf, MethodIndex;
  }

  lemma LineMoves(s: Head, c: char)
    ensures FeedValue(s, c).mode.Endless? ==> s.mode.Endless?
  {
  }

  /**
   Exactly when a write does not come back: it meets a NUL where a header line may begin.
   `ParsePeek` then leaves everything as it was, and the loop of `Write` has bytes left.
   */
  lemma {:induction false} HangsExactly(s: Head, w: string)
    requires !s.mode.Endless?
    ensures Begin(s, w).mode.Endless? <==> exists p :: 0 <= p < |w| && Begin(s, w[..p]).mode.Peek? && w[p] == NUL
    decreases |w|
  {
    hide Begin, Feed, Enter;
    if w == [] {
      BeginNothing(s);
    } else {
      var v, c := w[..|w| - 1], w[|w| - 1];
      assert w == v + [c];
      HangsExactly(s, v);
      BeginOne(s, v, c);
      BeginNothing(s);
      NulHangs(Begin(s, v), c);
      assert forall p :: 0 <= p < |v| ==> w[..p] == v[..p] && w[p] == v[p];
      assert w[..|v|] == v;
    }
  }

  lemma BeginNothing(s: Head)
    ensures Begin(s, []) == s
  {
  }

  lemma NotFull(s: Head)
    ensures s.mode.Value? || s.mode.Peek? || s.mode.SkipWhitespace? || s.mode.SkipNewLine? ==> !Full(s)
  {
  }

  lemma RoomLeft(s: Head, w: string)
    requires Defined(s, w) && w != []
    ensures Full(s) ==> |s.tok| <= LIMIT
  {
    hide Take;
    if Full(s) && |s.tok| > LIMIT {
      LostStays(Enter(s, w[0]), w[1..]);
    }
  }

  /** A word read at the start of a call, where its first byte is not checked. */
  lemma BeginWord(s: Head, w: string)
    requires s.mode.Method? || s.mode.Url? || s.mode.Version?
    requires |s.tok| <= LIMIT && forall i :: 0 <= i < |w| ==> !IsSpace(w[i])
    requires |s.tok + w| <= LIMIT || |w| == 1
    ensures Begin(s, w) == s.(tok := s.tok + w)
  {
    hide MethodDone, VersionDone, IsSpace;
    if w == [] {
      assert s.tok + w == s.tok;
    } else {
      var s1 := s.(tok := s.tok + [w[0]]);
      assert Enter(s, w[0]) == s1;
      assert s.tok + [w[0]] + w[1..] == s.tok + w;
      if |w| == 1 {
        FeedNothing(s1);
        assert w[1..] == [];
      } else {
        FeedWord(s1, w[1..]);
      }
    }
  }

  lemma WordEnds(s: Head, w: string, c: char)
    requires s.mode.Method? || s.mode.Url? || s.mode.Version?
    requires |s.tok| <= LIMIT && forall i :: 0 <= i < |w| ==> !IsSpace(w[i])
    requires w != [] ==> |s.tok + w| < LIMIT
    ensures Begin(s, w + [c]) == Take(s.(tok := s.tok + w), c)
  {
    hide Take, IsSpace;
    if w == [] {
      assert s.tok + w == s.tok && [] + [c] == [c];
      FeedNothing(Take(s, c));
    } else {
      BeginWord(s, w);
      assert (w + [c])[1..] == w[1..] + [c];
      FeedOne(Enter(s, w[0]), w[1..], c);
    }
  }

  lemma GatherByte(s: Head, data: string, p: nat, q: nat, t: string)
    requires p <= q < |data| && s.mode.Key? && (|t| < LIMIT || (q == p && |t| <= LIMIT))
    requires Begin(s, data[p..q]) == s.(tok := t)
    ensures Begin(s, data[p..q + 1]) == FeedKey(s.(tok := t), data[q])
    ensures data[q] != ':' && data[q] != '\n' ==>
      Begin(s, data[p..q + 1]) == s.(tok := if data[q] == '\r' then t else t + [data[q]])
  {
    assert data[p..q + 1] == data[p..q] + [data[q]];
    BeginOne(s, data[p..q], data[q]);
    if p == q {
      assert data[p..q] == [];
    } else {
      assert Feed(s.(tok := t), data[q]) == FeedKey(s.(tok := t), data[q]);
    }
  }

  lemma BeginOne(s: Head, w: string, c: char)
    ensures Begin(s, w + [c]) == if w == [] then Enter(s, c) else Feed(Begin(s, w), c)
  {
    hide Enter, Feed;
    if w == [] {
      FeedNothing(Enter(s, c));
      assert ([] + [c])[1..] == [];
    } else {
      assert (w + [c])[1..] == w[1..] + [c];
      FeedOne(Enter(s, w[0]), w[1..], c);
    }
  }

  lemma WordOverLimit(s: Head, data: string, p: nat, q: nat, w: string)
    requires p < q < |data| && data[p..q] == w && (s.mode.Method? || s.mode.Url? || s.mode.Version?)
    requires |s.tok| <= LIMIT && forall i :: 0 <= i < |w| ==> !IsSpace(w[i])
    requires |s.tok + w| == LIMIT || (|w| == 1 && |s.tok + w| >= LIMIT)
    ensures Begin(s, data[p..]) == Stop(s, InternalError)
  {
    hide Take, IsSpace;
    BeginWord(s, w);
    BeginSplit(s, data, p, q);
    FailedStaysFailed(Stop(s, InternalError), data[q..][1..]);
  }

  lemma OverLimit(s: Head, data: string, p: nat, q: nat, t: string)
    requires p < q < |data| && s.mode.Key? && |t| >= LIMIT
    requires Begin(s, data[p..q]) == s.(tok := t)
    ensures Begin(s, data[p..]) == Stop(s, InternalError)
  {
    hide Take;
    BeginSplit(s, data, p, q);
    FailedStaysFailed(Stop(s, InternalError), data[q..][1..]);
  }

  lemma MethodRead(s: Head, tok: string, c: char)
    requires s.mode.Method? && IsSpace(c)
    ensures Take(s.(tok := tok), c) == MethodDone(s.(tok := tok))
  {
    hide MethodDone;
  }

  lemma VersionRead(s: Head, tok: string, c: char)
    requires s.mode.Version? && IsSpace(c)
    ensures Take(s.(tok := tok), c) == VersionDone(s.(tok := tok), c)
  {
    hide MethodDone, VersionDone;
  }

  lemma LineByte(s: Head, data: string, p: nat, q: nat, t: string)
    requires p <= q < |data| && s.mode.Value? && data[q] != '\n'
    requires FeedAll(s, data[p..q]) == s.(tok := t)
    ensures FeedAll(s, data[p..q + 1]) == s.(tok := if |t| < LIMIT then t + [data[q]] else t)
  {
    hide FeedAll, FeedKey, NextOf, MethodIndex;
    FeedOne(s, data[p..q], data[q]);
    assert data[p..q + 1] == data[p..q] + [data[q]];
  }

  lemma LineEnd(s: Head, data: string, p: nat, q: nat, t: string)
    requires p <= q < |data| && s.mode.Value? && data[q] == '\n'
    requires FeedAll(s, data[p..q]) == s.(tok := t) && Defined(s, data[p..])
    ensures FeedAll(s, data[p..q + 1]) == FeedValue(s.(tok := t), '\n') && t != []
  {
    hide FeedAll, FeedKey, NextOf, MethodIndex, Stop;
    FeedOne(s, data[p..q], data[q]);
    assert data[p..q + 1] == data[p..q] + [data[q]];
    FeedSplit(s, data, p, q + 1);
    BeginIsFeed(s, data[p..]);
    if t == [] {
      LostStays(FeedAll(s, data[p..q + 1]), data[q + 1..]);
    }
  }

  lemma FeedBreak(s: Head, w: string)
    requires s.mode.SkipNewLine? && s.tok == [] && |w| <= 2
    ensures |w| == 0 ==> FeedAll(s, w) == s
    ensures |w| == 1 ==> FeedAll(s, w) == if w[0] == '\n' then s.(mode := Key) else s.(tok := [w[0]])
    ensures |w| == 2 && w[0] != '\n' ==>
      FeedAll(s, w) == if w[0] == '\r' && w[1] == '\n' then s.(mode := Key) else Stop(s, InternalError)
  {
    if |w| == 2 {
      FeedOne(s, [w[0]], w[1]);
      assert w == [w[0]] + [w[1]];
      FeedOne(s, [], w[0]);
      assert [w[0]] == [] + [w[0]];
    } else if |w| == 1 {
      FeedOne(s, [], w[0]);
      assert w == [] + [w[0]];
    }
  }

  lemma Moved(s: Head, data: string, p: nat, s1: Head, p1: nat, r: Status, s2: Head, p2: nat)
    requires p <= |data| && p1 <= |data| && p2 <= |data|
    requires Begin(s, data[p..]) == Begin(s1, data[p1..]) && Steps(s1, data[p1..], r, s2, data[p2..])
    ensures Steps(s, data[p..], r, s2, data[p2..])
  {
  }

  lemma Onward(s: Head, data: string, p: nat, p1: nat, s1: Head)
    requires p < p1 <= |data| && Begin(s, data[p..p1]) == s1 && !Full(s1) && Defined(s, data[p..])
    ensures Defined(s1, data[p1..]) && Begin(s, data[p..]) == Begin(s1, data[p1..])
  {
    hide Begin;
    BeginSplit(s, data, p, p1);
    BeginIsFeed(s1, data[p1..]);
  }

  lemma Chained(s: Head, data: string, p: nat, p1: nat, s1: Head, r: Status, s2: Head, p2: nat)
    requires p < p1 <= |data| && p2 <= |data| && !Full(s1)
    requires Begin(s, data[p..p1]) == s1 && Steps(s1, data[p1..], r, s2, data[p2..])
    ensures Steps(s, data[p..], r, s2, data[p2..])
  {
    hide Begin;
    BeginSplit(s, data, p, p1);
    BeginIsFeed(s1, data[p1..]);
    Moved(s, data, p, s1, p1, r, s2, p2);
  }

  lemma Reached(s: Head, data: string, p: nat, p1: nat, r: Status, s1: Head)
    requires p < p1 <= |data| && Begin(s, data[p..p1]) == s1 && s1.mode == Stopped(r) && r != NeedMore
    ensures Steps(s, data[p..], r, s1, data[p1..])
  {
    hide Begin;
    BeginSplit(s, data, p, p1);
  }

  /** A reader that could not finish its token ran out of bytes or failed. */
  lemma Halted(s: Head, data: string, p: nat, p1: nat, r: Status, s1: Head)
    requires p <= p1 <= |data|
    requires r == NeedMore ==> p1 == |data| && s1 == Begin(s, data[p..]) && !s1.mode.Stopped?
    requires r != NeedMore ==>
      s1 == Begin(s, data[p..]) == Stop(s, r) && !r.Complete?
    ensures Steps(s, data[p..], r, s1, data[p1..])
  {
    hide Begin;
    if r == NeedMore {
      FeedNothing(s1);
      assert data[p1..] == [];
    } else {
      FailedStaysFailed(s1, data[p1..]);
    }
  }

  lemma Paused(s: Head, data: string, p: nat, s1: Head)
    requires p <= |data| && s1.mode.SkipNewLine? && s1.tok == [] && Forget(Begin(s, data[p..])) == s1
    ensures Steps(s, data[p..], NeedMore, s1, data[|data|..])
  {
    hide Begin;
    FeedNothing(s1);
    assert data[|data|..] == [];
  }

  lemma Resumed(s: Head, data: string, p: nat, p1: nat)
    requires p <= |data| && p1 <= |data| && s.mode.SkipWhitespace?
    requires FeedAll(s, data[p..]) == FeedAll(s, data[p1..])
    ensures Steps(s, data[p..], NeedMore, s, data[p1..])
  {
    hide Begin;
    BeginIsFeed(s, data[p..]);
  }

  lemma Foldable(s: Head, data: string, p: nat, q: nat)
    requires p <= |data| && q < |data| && s.mode.SkipWhitespace? && data[q] != ' ' && data[q] != '\t' && data[q] != '\n'
    requires FeedAll(s, data[p..]) == FeedAll(Feed(s, data[q]), data[q + 1..]) && Defined(s, data[p..])
    ensures |s.tok| + 2 <= LIMIT && Defined(Feed(s, data[q]), data[q + 1..])
    ensures Begin(s, data[p..]) == Begin(Feed(s, data[q]), data[q + 1..])
  {
    hide Begin;
    BeginIsFeed(s, data[p..]);
    if |s.tok| + 2 > LIMIT {
      LostStays(Feed(s, data[q]), data[q + 1..]);
    }
    BeginIsFeed(Feed(s, data[q]), data[q + 1..]);
  }

  lemma PeekedNothing(s: Head, data: string, p: nat)
    requires p <= |data| && s.mode.Peek? && Defined(s, data[p..]) && (p < |data| ==> data[p] == NUL)
    ensures p == |data| && Steps(s, data[p..], NeedMore, s, data[p..])
  {
    hide Begin;
    BeginIsFeed(s, data[p..]);
    if p < |data| {
      FeedByte(s, data, p);
      LostStays(Feed(s, data[p]), data[p + 1..]);
    }
  }

  lemma PeekedSpace(s: Head, data: string, p: nat)
    requires p < |data| && s.mode.Peek? && Defined(s, data[p..]) && (data[p] == ' ' || data[p] == '\t')
    ensures var s1 := s.(mode := SkipWhitespace);
      Defined(s1, data[p..]) && Begin(s, data[p..]) == Begin(s1, data[p..])
  {
    assert Enter(s, data[p]) == Enter(s.(mode := SkipWhitespace), data[p]);
  }

  lemma PeekedKey(s: Head, data: string, p: nat, s1: Head)
    requires p < |data| && s.mode.Peek? && data[p] != NUL && data[p] != ' ' && data[p] != '\t' && s1 == HeaderDone(s)
    ensures Steps(s, data[p..], NeedMore, s1, data[p..])
  {
    hide Begin;
    BeginIsFeed(s, data[p..]);
    FeedByte(s, data, p);
    FeedByte(s1, data, p);
    assert !Full(s1);
    assert Feed(s1, data[p]) == FeedKey(s1, data[p]);
  }

  lemma Stepped(s: Head, data: string, s1: Head, p1: nat, r: Status, s2: Head, p2: nat)
    requires p1 <= |data| && p2 <= |data| && Defined(s1, data[p1..])
    requires Forget(Begin(s, data)) == Forget(Begin(s1, data[p1..]))
    requires Steps(s1, data[p1..], r, s2, data[p2..]) && (s2.mode.SkipNewLine? ==> s2.tok == [])
    ensures Forget(Begin(s, data)) == Forget(Begin(s2, data[p2..]))
    ensures Defined(s2, data[p2..]) && r == StatusOf(s2) && (r == NeedMore <==> !s2.mode.Stopped?)
    ensures r != NeedMore ==> WriteChunk(s, data) == if r.Complete? then s2.(rest := s2.rest + data[p2..]) else s2
  {
    hide Begin;
    if data[p2..] == [] {
      FeedNothing(s2);
    }
    BeginIsFeed(s2, data[p2..]);
    if r != NeedMore {
      if r.Complete? {
        RestFollows(s2, data[p2..]);
      } else {
        FailedStaysFailed(s2, data[p2..]);
      }
    }
  }

  /** Where the reader of the head stands when the byte machine has come to `s`. */
  function HeadOf(s: Head): Head {
    s.(rest := [])
  }

  lemma RestGrows(s: Head, chunk: string)
    requires Accepted(s)
    ensures WriteChunk(s, chunk) == s.(rest := s.rest + chunk)
  {
    BeginIsFeed(s, chunk);
    RestFollows(s, chunk);
  }

  /** Any sequence of writes, each of which is defined, takes a new request where the byte machine goes. */
  method Deliver(chunks: seq<string>) returns (req: Request)
    requires forall i :: 0 <= i < |chunks| ==> CanWrite(WriteChunks(START, chunks[..i]), chunks[i])
    ensures fresh(req) && req.Valid() && req.Abs() == HeadOf(WriteChunks(START, chunks))
  {
    hide FeedAll, CanWrite, WriteChunk;
    req := new Request();
    for i := 0 to |chunks|
      invariant fresh(req) && fresh(req.str) && req.Valid() && req.Abs() == HeadOf(WriteChunks(START, chunks[..i]))
      invariant !Accepted(req.Abs()) ==> req.Abs() == WriteChunks(START, chunks[..i])
    {
      ghost var s := WriteChunks(START, chunks[..i]);
      WriteOneMore(START, chunks[..i], chunks[i]);
      assert chunks[..i + 1] == chunks[..i] + [chunks[i]];
      if req.parser.Stopped? {
        StoppedWrites(s, chunks[i]);
      } else {
        var r, end := req.Write(chunks[i]);
      }
    }
    assert chunks[..|chunks|] == chunks;
  }

  /** Behind the head the parser of the head has nothing to do. */
  lemma StoppedWrites(s: Head, chunk: string)
    requires s.mode.Stopped? && CanWrite(s, chunk)
    ensures WriteChunk(s, chunk) == if Accepted(s) then s.(rest := s.rest + chunk) else s
  {
    hide FeedAll;
    if Accepted(s) {
      RestGrows(s, chunk);
    } else {
      BeginIsFeed(s, []);
      FeedNothing(s);
    }
  }

  /** A head that one write accepts comes out the same through any sequence of writes. */
  method Receive(chunks: seq<string>) returns (req: Request)
    requires Accepted(FeedAll(START, Concat(chunks)))
    ensures fresh(req) && req.Valid() && req.Abs() == HeadOf(FeedAll(START, Concat(chunks)))
  {
    ChunksDoNotMatter(START, chunks);
    req := Deliver(chunks);
  }
}
