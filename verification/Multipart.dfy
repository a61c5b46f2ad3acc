/**
 The multipart file reader of onion/request_parser.c: it copies a part's bytes to a file until
 the boundary, keeping only how much of the boundary has matched so far.
 */
module Multipart {
  import opened CText

  /** sizeof(tmp) */
  const TMP := 1024

  datatype Answer = NeedMore | NextPart | TooMuch

  /**
   Between two bytes: `pos` bytes of the boundary have matched, the first `start` of them for
   free; `out` is what the file holds, `total` is multipart->file_total_size.
   Once the boundary is found, `rest` gathers the bytes that follow it.
   */
  datatype Scan =
    | Reading(pos: nat, start: nat, out: string, total: nat)
    | Found(out: string, total: nat, rest: string)
    | TooBig

  /** What stands before a boundary token in the body; the CR is optional. */
  const BREAK := ['\r', '\n', '-', '-']

  function Boundary(tok: string): (b: string)
    ensures |b| == |tok| + 4 && b[0] == '\r' && b[1] == '\n'
  {
    BREAK + tok
  }

  /** The delimiter that must be met: the boundary without its CR. */
  function Delimiter(tok: string): (p: string)
    ensures |p| == |tok| + 3 && p[0] == '\n'
    ensures forall i :: 0 <= i < |p| ==> p[i] == Boundary(tok)[i + 1]
  {
    Boundary(tok)[1..]
  }

  ghost predicate TokenOk(tok: string) {
    forall i :: 0 <= i < |tok| ==> tok[i] != '\r' && tok[i] != '\n'
  }

  // ------------------------------------------------------------------ one byte at a time

  /** A byte seen with no match pending; a bare line feed stands for the CR and itself. */
  function Begin(b: string, max: nat, s: Scan, c: char): Scan
    requires s.Reading? && s.pos == 0 && |b| > 2
  {
    if c == '\n' then s.(pos := 2, start := 1, total := s.total + 1)
    else if c == b[0] then s.(pos := 1, start := 0, total := s.total + 1)
    else if s.total > max then TooBig
    else s.(start := 0, out := s.out + [c], total := s.total + 1)
  }

  /** The bytes wrongly taken for the boundary go to the file; nothing is looked at twice. */
  function Flushed(b: string, s: Scan): Scan
    requires s.Reading? && s.start <= s.pos < |b|
  {
    Reading(0, 0, s.out + b[s.start..s.pos], s.total + s.pos)
  }

  function Feed(b: string, max: nat, s: Scan, c: char): Scan
    requires |b| > 2 && (s.Reading? ==> s.start <= s.pos < |b|)
  {
    match s
    case TooBig => s
    case Found(out, total, rest) => Found(out, total, rest + [c])
    case Reading(pos, start, out, total) =>
      if pos == 0 then Begin(b, max, s, c)
      else if c == b[pos] then
        if pos + 1 == |b| then Found(out, total, []) else s.(pos := pos + 1, total := total + 1)
      else if total > max then TooBig
      else Begin(b, max, Flushed(b, s), c)
  }

  ghost predicate Ok(b: string, s: Scan) {
    |b| > 2 && (s.Reading? ==> s.start <= s.pos < |b|)
  }

  function FeedAll(b: string, max: nat, s: Scan, w: string): (r: Scan)
    requires Ok(b, s)
    ensures Ok(b, r)
    decreases |w|
  {
    if w == [] then s else FeedAll(b, max, Feed(b, max, s, w[0]), w[1..])
  }

  lemma {:induction false} FeedAppend(b: string, max: nat, s: Scan, v: string, w: string)
    requires Ok(b, s)
    ensures FeedAll(b, max, s, v + w) == FeedAll(b, max, FeedAll(b, max, s, v), w)
    decreases |v|
  {
    if v == [] {
      assert v + w == w;
    } else {
      assert (v + w)[1..] == v[1..] + w;
      assert Ok(b, Feed(b, max, s, v[0]));
      hide Feed;
      FeedAppend(b, max, Feed(b, max, s, v[0]), v[1..], w);
    }
  }

  // ------------------------------------------------------------------ where the boundary is

  predicate At(p: string, w: string, i: nat) {
    i + |p| <= |w| && w[i..i + |p|] == p
  }

  /** `i` is the first place where `p` occurs. */
  ghost predicate First(p: string, w: string, i: nat) {
    At(p, w, i) && forall k :: 0 <= k < i ==> !At(p, w, k)
  }

  ghost predicate Nowhere(p: string, w: string) {
    forall k :: 0 <= k <= |w| ==> !At(p, w, k)
  }

  /** The bytes before the delimiter at `i` and the CR before it, if there is one. */
  function Before(w: string, i: nat): string
    requires i <= |w|
  {
    if i > 0 && w[i - 1] == '\r' then w[..i - 1] else w[..i]
  }

  /** `w` ends with the first `j` bytes of `p`. */
  ghost predicate Ends(p: string, w: string, j: nat) {
    j <= |p| && j <= |w| && w[|w| - j..] == p[..j]
  }

  ghost predicate EndsWithCr(w: string) {
    w != [] && w[|w| - 1] == '\r'
  }

  /** What the reader's few counters say about all the bytes it has seen. */
  ghost predicate Tracks(tok: string, s: Scan, w: string)
    requires s.Reading? && Ok(Boundary(tok), s)
  {
    && (s.pos < 2 ==> s.start == 0) && s.start <= 1
    && s.out + Boundary(tok)[s.start..s.pos] == w
    && (EndsWithCr(w) <==> s.pos == 1)
    && (s.start == 1 ==> !EndsWithCr(s.out))
    && (forall j :: 1 <= j <= |tok| + 3 && Ends(Delimiter(tok), w, j) ==> j == s.pos - 1)
  }

  lemma {:induction false} EndsStep(p: string, w: string, c: char, j: nat)
    requires 1 <= j && Ends(p, w + [c], j)
    ensures p[j - 1] == c && Ends(p, w, j - 1)
  {
    var v := w + [c];
    assert v[|v| - j..][j - 1] == c;
    assert v[|v| - j..][..j - 1] == w[|w| - (j - 1)..];
    assert p[..j][..j - 1] == p[..j - 1];
  }

  lemma TokenBytes(tok: string, i: nat)
    requires TokenOk(tok) && 2 <= i < |tok| + 4
    ensures Boundary(tok)[i] != '\r' && Boundary(tok)[i] != '\n'
  {
  }

  /** With no match pending, one byte keeps the books straight. */
  lemma TracksBegin(tok: string, max: nat, s: Scan, w: string, c: char)
    requires TokenOk(tok) && s.Reading? && Ok(Boundary(tok), s) && s.pos == 0 && Tracks(tok, s, w)
    requires Begin(Boundary(tok), max, s, c).Reading?
    ensures var r := Begin(Boundary(tok), max, s, c); Ok(Boundary(tok), r) && Tracks(tok, r, w + [c])
  {
    var b, p, r := Boundary(tok), Delimiter(tok), Begin(Boundary(tok), max, s, c);
    assert s.out == w;
    assert r.out + b[r.start..r.pos] == w + [c];
    forall j | 1 <= j <= |p| && Ends(p, w + [c], j) ensures j == r.pos - 1 {
      EndsStep(p, w, c, j);
    }
  }

  /** A failed match leaves every byte in the file, and no shorter match behind. */
  lemma TracksFlush(tok: string, s: Scan, w: string, c: char)
    requires TokenOk(tok) && s.Reading? && Ok(Boundary(tok), s) && s.pos > 0 && Tracks(tok, s, w)
    requires c != Boundary(tok)[s.pos]
    ensures var r := Flushed(Boundary(tok), s); r.Reading? && r.pos == r.start == 0 && r.out == w
    ensures forall j :: 1 <= j <= |tok| + 3 && Ends(Delimiter(tok), w + [c], j) ==> j == 1 && c == '\n'
  {
    var p := Delimiter(tok);
    forall j | 1 <= j <= |p| && Ends(p, w + [c], j) ensures j == 1 && c == '\n' {
      EndsStep(p, w, c, j);
    }
  }

  lemma TracksMatch(tok: string, s: Scan, w: string, c: char)
    requires TokenOk(tok) && s.Reading? && Ok(Boundary(tok), s) && s.pos > 0 && Tracks(tok, s, w)
    requires c == Boundary(tok)[s.pos] && s.pos + 1 < |tok| + 4
    ensures Tracks(tok, s.(pos := s.pos + 1, total := s.total + 1), w + [c])
  {
    var b, p, r := Boundary(tok), Delimiter(tok), s.(pos := s.pos + 1, total := s.total + 1);
    assert r.out + b[r.start..r.pos] == w + [c] by {
      assert b[s.start..s.pos + 1] == b[s.start..s.pos] + [c];
    }
    if s.pos >= 2 { TokenBytes(tok, s.pos); }
    forall j | 1 <= j <= |p| && Ends(p, w + [c], j) ensures j == r.pos - 1 {
      EndsStep(p, w, c, j);
      hide Ends;
    }
  }

  lemma TracksMismatch(tok: string, max: nat, s: Scan, w: string, c: char)
    requires TokenOk(tok) && s.Reading? && Ok(Boundary(tok), s) && s.pos > 0 && Tracks(tok, s, w)
    requires c != Boundary(tok)[s.pos] && Begin(Boundary(tok), max, Flushed(Boundary(tok), s), c).Reading?
    ensures var r := Begin(Boundary(tok), max, Flushed(Boundary(tok), s), c);
      Ok(Boundary(tok), r) && Tracks(tok, r, w + [c])
  {
    var b := Boundary(tok);
    TracksFlush(tok, s, w, c);
    hide Flushed, Ends;
    var f := Flushed(b, s);
    var r := Begin(b, max, f, c);
    assert r.out + b[r.start..r.pos] == w + [c];
  }

  lemma TracksFeed(tok: string, max: nat, s: Scan, w: string, c: char)
    requires TokenOk(tok) && s.Reading? && Ok(Boundary(tok), s) && Tracks(tok, s, w)
    requires Feed(Boundary(tok), max, s, c).Reading?
    ensures var r := Feed(Boundary(tok), max, s, c); Ok(Boundary(tok), r) && Tracks(tok, r, w + [c])
  {
    hide Tracks, Begin, Flushed;
    if s.pos == 0 {
      TracksBegin(tok, max, s, w, c);
    } else if c == Boundary(tok)[s.pos] {
      TracksMatch(tok, s, w, c);
    } else {
      TracksMismatch(tok, max, s, w, c);
    }
  }

  lemma NowhereGrows(p: string, w: string, c: char)
    requires p != [] && Nowhere(p, w) && !Ends(p, w + [c], |p|)
    ensures Nowhere(p, w + [c])
  {
    var v := w + [c];
    forall k | 0 <= k <= |v| ensures !At(p, v, k) {
      if k + |p| <= |w| {
        assert v[k..k + |p|] == w[k..k + |p|];
        assert !At(p, w, k);
      } else if k + |p| == |v| {
        assert v[|v| - |p|..] == v[k..k + |p|] && p == p[..|p|];
      }
    }
  }

  /** A delimiter that ends at the last byte is the first one if the other bytes held none. */
  lemma FirstAtTheEnd(p: string, w: string, c: char)
    requires p != [] && Nowhere(p, w) && |p| <= |w| + 1 && (w + [c])[|w| + 1 - |p|..] == p
    ensures First(p, w + [c], |w| + 1 - |p|)
  {
    var v, i := w + [c], |w| + 1 - |p|;
    assert v[i..i + |p|] == v[i..];
    forall k | 0 <= k < i ensures !At(p, v, k) {
      assert v[k..k + |p|] == w[k..k + |p|];
      assert !At(p, w, k);
    }
  }

  /** The whole boundary, or all of it but the CR, ends `v`. */
  lemma WholeMatch(tok: string, out: string, start: nat, v: string)
    requires start <= 1 && v == out + Boundary(tok)[start..] && (start == 1 ==> !EndsWithCr(out))
    ensures |v| >= |tok| + 3 && v[|v| - |tok| - 3..] == Delimiter(tok) && Before(v, |v| - |tok| - 3) == out
  {
    var b, i := Boundary(tok), |v| - |tok| - 3;
    assert v[i..] == b[1..];
    if start == 0 {
      assert v[i - 1] == b[0] && v[..i - 1] == out;
    } else {
      assert v[..i] == out;
      if i > 0 { assert v[i - 1] == out[i - 1]; }
    }
  }

  lemma LastByte(b: string, max: nat, s: Scan, c: char)
    requires Ok(b, s) && s.Reading? && Feed(b, max, s, c).Found?
    ensures s.pos + 1 == |b| && c == b[s.pos] && Feed(b, max, s, c) == Found(s.out, s.total, [])
  {
  }

  /** The byte that completes the boundary. */
  lemma Completes(tok: string, max: nat, s: Scan, w: string, c: char)
    requires TokenOk(tok) && s.Reading? && Ok(Boundary(tok), s) && Tracks(tok, s, w) && Nowhere(Delimiter(tok), w)
    requires Feed(Boundary(tok), max, s, c).Found?
    ensures var v, i := w + [c], |w| - |tok| - 2;
      && i >= 0 && First(Delimiter(tok), v, i)
      && Feed(Boundary(tok), max, s, c) == Found(Before(v, i), s.total, [])
  {
    var b, v := Boundary(tok), w + [c];
    hide Feed, First, Nowhere, Ends, EndsWithCr, Before, At;
    LastByte(b, max, s, c);
    assert b[s.start..] == b[s.start..s.pos] + [b[s.pos]];
    assert s.out + (b[s.start..s.pos] + [c]) == s.out + b[s.start..s.pos] + [c];
    WholeMatch(tok, s.out, s.start, v);
    FirstAtTheEnd(Delimiter(tok), w, c);
  }

  /**
   The reader after any bytes at all: either no delimiter has passed and every byte is in the
   file or pending, or the file holds what stood before the first delimiter.
   */
  ghost predicate Correct(tok: string, w: string, r: Scan) {
    match r
    case TooBig => true
    case Reading(_, _, _, _) => Nowhere(Delimiter(tok), w) && Ok(Boundary(tok), r) && Tracks(tok, r, w)
    case Found(out, _, rest) =>
      exists i: nat :: First(Delimiter(tok), w, i) && out == Before(w, i) && rest == w[i + |tok| + 3..]
  }

  lemma FoundStays(tok: string, w: string, r: Scan, c: char)
    requires r.Found? && Correct(tok, w, r)
    ensures Correct(tok, w + [c], Found(r.out, r.total, r.rest + [c]))
  {
    var p, v := Delimiter(tok), w + [c];
    var i: nat :| First(p, w, i) && r.out == Before(w, i) && r.rest == w[i + |tok| + 3..];
    assert v[i..i + |p|] == w[i..i + |p|];
    forall k | 0 <= k < i ensures !At(p, v, k) {
      assert v[k..k + |p|] == w[k..k + |p|];
      assert !At(p, w, k);
    }
    assert First(p, v, i);
    assert v[..i] == w[..i];
    assert Before(v, i) == Before(w, i) by {
      if i > 0 { assert v[i - 1] == w[i - 1] && v[..i - 1] == w[..i - 1]; }
    }
    assert v[i + |tok| + 3..] == r.rest + [c];
  }

  lemma CorrectStep(tok: string, max: nat, w: string, s: Scan, c: char)
    requires TokenOk(tok) && Ok(Boundary(tok), s) && Correct(tok, w, s)
    ensures Correct(tok, w + [c], Feed(Boundary(tok), max, s, c))
  {
    var r := Feed(Boundary(tok), max, s, c);
    if s.Found? {
      FoundStays(tok, w, s, c);
    } else if s.Reading? && r.Reading? {
      TracksFeed(tok, max, s, w, c);
      assert r.pos - 1 < |tok| + 3;
      NowhereGrows(Delimiter(tok), w, c);
    } else if s.Reading? && r.Found? {
      Completes(tok, max, s, w, c);
    }
  }

  /** The file is what precedes the first "[CR]LF--token", whatever precedes it looks like. */
  lemma {:induction false} FileIsWhatPrecedesTheBoundary(tok: string, max: nat, total: nat, w: string)
    requires TokenOk(tok)
    ensures Correct(tok, w, FeedAll(Boundary(tok), max, Reading(0, 0, [], total), w))
    decreases |w|
  {
    hide Feed, Correct;
    var b, s0 := Boundary(tok), Reading(0, 0, [], total);
    if w == [] {
      NothingYet(tok, total);
    } else {
      var v, c := w[..|w| - 1], w[|w| - 1];
      assert w == v + [c];
      FileIsWhatPrecedesTheBoundary(tok, max, total, v);
      var s := FeedAll(b, max, s0, v);
      FeedAppend(b, max, s0, v, [c]);
      FeedOne(b, max, s, c);
      CorrectStep(tok, max, v, s, c);
    }
  }

  lemma FeedOne(b: string, max: nat, s: Scan, c: char)
    requires Ok(b, s)
    ensures Ok(b, Feed(b, max, s, c)) && FeedAll(b, max, s, [c]) == Feed(b, max, s, c)
  {
    assert [c][1..] == [];
    assert FeedAll(b, max, Feed(b, max, s, c), []) == Feed(b, max, s, c);
  }

  lemma NothingYet(tok: string, total: nat)
    ensures Correct(tok, [], Reading(0, 0, [], total))
  {
    var p := Delimiter(tok);
    assert forall k :: 0 <= k <= |""| ==> !At(p, [], k);
  }

  // ------------------------------------------------------------------ the size limit

  /** What the limit has to leave room for: the count so far and the match that may yet fail. */
  function Need(s: Scan): nat {
    match s
    case Reading(pos, _, _, total) => total + pos
    case Found(_, _, _) => 0
    case TooBig => 0
  }

  lemma NeedStep(b: string, max: nat, s: Scan, c: char)
    requires Ok(b, s) && !s.TooBig? && Need(s) <= max
    ensures var r := Feed(b, max, s, c); !r.TooBig? && Need(r) <= Need(s) + 3
  {
  }

  /** Bytes that looked like a boundary are counted twice or three times, so a third of the limit always fits. */
  lemma {:induction false} SmallFilesFit(b: string, max: nat, s: Scan, w: string)
    requires Ok(b, s) && !s.TooBig? && Need(s) + 3 * |w| <= max
    ensures !FeedAll(b, max, s, w).TooBig?
    decreases |w|
  {
    if w == [] {
    } else {
      NeedStep(b, max, s, w[0]);
      assert Ok(b, Feed(b, max, s, w[0]));
      hide Feed, Need;
      SmallFilesFit(b, max, Feed(b, max, s, w[0]), w[1..]);
    }
  }

  ghost predicate WithinLimit(max: nat, total: nat, s: Scan) {
    match s
    case TooBig => true
    case Reading(pos, start, out, t) => total + |out| + (pos - start) <= t && (out != [] ==> total + |out| <= max + 1)
    case Found(out, t, _) => out != [] ==> total + |out| <= max + 1
  }

  lemma LimitAtBegin(b: string, max: nat, total: nat, s: Scan, c: char)
    requires Ok(b, s) && s.Reading? && s.pos == 0 && WithinLimit(max, total, s)
    ensures WithinLimit(max, total, Begin(b, max, s, c))
  {
  }

  lemma LimitAtFlush(b: string, max: nat, total: nat, s: Scan)
    requires Ok(b, s) && s.Reading? && WithinLimit(max, total, s) && s.total <= max
    ensures WithinLimit(max, total, Flushed(b, s))
  {
  }

  lemma LimitStep(b: string, max: nat, total: nat, s: Scan, c: char)
    requires Ok(b, s) && WithinLimit(max, total, s)
    ensures WithinLimit(max, total, Feed(b, max, s, c))
  {
    hide Begin, Flushed;
    if s.Reading? && s.pos == 0 {
      LimitAtBegin(b, max, total, s, c);
    } else if s.Reading? && c != b[s.pos] && s.total <= max {
      LimitAtFlush(b, max, total, s);
      FlushedIs(b, s);
      LimitAtBegin(b, max, total, Flushed(b, s), c);
    }
  }

  lemma FlushedIs(b: string, s: Scan)
    requires Ok(b, s) && s.Reading?
    ensures Flushed(b, s).Reading? && Flushed(b, s).pos == Flushed(b, s).start == 0
  {
  }

  /** No file outgrows the limit by more than a byte. */
  lemma {:induction false} TheLimitHolds(b: string, max: nat, total: nat, s: Scan, w: string)
    requires Ok(b, s) && WithinLimit(max, total, s)
    ensures WithinLimit(max, total, FeedAll(b, max, s, w))
    decreases |w|
  {
    if w == [] {
    } else {
      LimitStep(b, max, total, s, w[0]);
      assert Ok(b, Feed(b, max, s, w[0]));
      hide Feed, WithinLimit;
      TheLimitHolds(b, max, total, Feed(b, max, s, w[0]), w[1..]);
    }
  }

  /**
   The byte `c` is refused: it is none of the boundary, and the count, a failed match added to
   it, is over the limit.
   */
  predicate Over(b: string, max: nat, s: Scan, c: char)
    requires Ok(b, s)
  {
    s.Reading? &&
    if s.pos > 0 && c == b[s.pos] then false
    else if s.pos > 0 && s.total > max then true
    else c != '\n' && c != b[0] && s.total + s.pos > max
  }

  /** The reader under a limit too high to matter. */
  function Unlimited(b: string, s: Scan, w: string): (r: Scan)
    requires Ok(b, s)
    ensures Ok(b, r)
  {
    FeedAll(b, Need(s) + 3 * |w|, s, w)
  }

  ghost predicate Refused(b: string, max: nat, s: Scan, w: string)
    requires Ok(b, s)
  {
    exists k :: 0 <= k < |w| && Over(b, max, Unlimited(b, s, w[..k]), w[k])
  }

  lemma {:induction false} LimitsAgree(b: string, max: nat, more: nat, s: Scan, w: string)
    requires Ok(b, s) && !FeedAll(b, max, s, w).TooBig? && !FeedAll(b, more, s, w).TooBig?
    ensures FeedAll(b, max, s, w) == FeedAll(b, more, s, w)
    decreases |w|
  {
    if w == [] {
    } else {
      if Feed(b, max, s, w[0]).TooBig? { BigStays(b, max, w[1..]); }
      if Feed(b, more, s, w[0]).TooBig? { BigStays(b, more, w[1..]); }
      assert Ok(b, Feed(b, max, s, w[0]));
      LimitsAgree(b, max, more, Feed(b, max, s, w[0]), w[1..]);
    }
  }

  lemma OverIsRefused(b: string, max: nat, s: Scan, c: char)
    requires Ok(b, s) && !s.TooBig?
    ensures Feed(b, max, s, c).TooBig? <==> Over(b, max, s, c)
  {
  }

  /**
   A part is refused exactly when, at a byte that goes to the file, what has been counted is over
   the limit: every byte read, and once more each match of the boundary that failed.
   */
  lemma {:induction false} RefusedExactly(b: string, max: nat, s: Scan, w: string)
    requires Ok(b, s) && !s.TooBig?
    ensures FeedAll(b, max, s, w).TooBig? <==> Refused(b, max, s, w)
    decreases |w|
  {
    hide Feed, Over, Need;
    if w == [] {
    } else {
      var v, c := w[..|w| - 1], w[|w| - 1];
      assert w == v + [c];
      RefusedExactly(b, max, s, v);
      RefusedBefore(b, max, s, v, c);
      FeedAppend(b, max, s, v, [c]);
      FeedOne(b, max, FeedAll(b, max, s, v), c);
      if FeedAll(b, max, s, v).TooBig? {
        BigStays(b, max, [c]);
      } else {
        SmallFilesFit(b, Need(s) + 3 * |v|, s, v);
        LimitsAgree(b, max, Need(s) + 3 * |v|, s, v);
        OverIsRefused(b, max, FeedAll(b, max, s, v), c);
      }
    }
  }

  lemma RefusedBefore(b: string, max: nat, s: Scan, v: string, c: char)
    requires Ok(b, s)
    ensures Refused(b, max, s, v + [c]) <==> Refused(b, max, s, v) || Over(b, max, Unlimited(b, s, v), c)
  {
    hide Unlimited, Over;
    var w := v + [c];
    assert w[..|v|] == v && forall k :: 0 <= k < |v| ==> w[..k] == v[..k] && w[k] == v[k];
    if Refused(b, max, s, v) {
      var k :| 0 <= k < |v| && Over(b, max, Unlimited(b, s, v[..k]), v[k]);
      assert Over(b, max, Unlimited(b, s, w[..k]), w[k]);
    }
    if Over(b, max, Unlimited(b, s, v), c) {
      assert Over(b, max, Unlimited(b, s, w[..|v|]), w[|v|]);
    }
  }

  /**
   What stands behind the delimiter is not counted: a third of the limit for what precedes it,
   itself included, is enough.
   */
  lemma SmallPartsFit(tok: string, max: nat, total: nat, w: string, i: nat)
    requires TokenOk(tok) && First(Delimiter(tok), w, i) && total + 3 * (i + |tok| + 3) <= max
    ensures !Refused(Boundary(tok), max, Reading(0, 0, [], total), w)
  {
    hide Feed, Correct, Refused, Boundary;
    var b, s0, e := Boundary(tok), Reading(0, 0, [], total), i + |tok| + 3;
    var v := w[..e];
    assert w == v + w[e..];
    SmallFilesFit(b, max, s0, v);
    FileIsWhatPrecedesTheBoundary(tok, max, total, v);
    DelimiterEnds(tok, w, i);
    OneFirst(tok, v, i, FeedAll(b, max, s0, v));
    FeedAppend(b, max, s0, v, w[e..]);
    RestFollows(b, max, FeedAll(b, max, s0, v), w[e..]);
    RefusedExactly(b, max, s0, w);
  }

  lemma DelimiterEnds(tok: string, w: string, i: nat)
    requires First(Delimiter(tok), w, i)
    ensures First(Delimiter(tok), w[..i + |tok| + 3], i)
  {
    var p, v := Delimiter(tok), w[..i + |tok| + 3];
    assert v[i..i + |p|] == w[i..i + |p|];
    forall k | 0 <= k < i ensures !At(p, v, k) {
      assert k + |p| <= |v| ==> v[k..k + |p|] == w[k..k + |p|];
      assert !At(p, w, k);
    }
  }

  // ------------------------------------------------------------------ the code

  /** onion_multipart_buffer, as far as a file part uses it; `file` is what has been written to `fd`. */
  class FileReader {
    const tok: string
    const max: nat
    const boundary: string
    var pos: nat
    var startpos: nat
    var fileTotal: nat
    var file: string

    ghost predicate Valid()
      reads this
    {
      boundary == Boundary(tok) && Ok(boundary, Abs())
    }

    ghost function Abs(): Scan
      reads this
    {
      Reading(pos, startpos, file, fileTotal)
    }

    constructor (tok: string, max: nat, total: nat)
      ensures Valid() && this.tok == tok && this.max == max && Abs() == Reading(0, 0, [], total)
    {
      this.tok, this.max, boundary := tok, max, Boundary(tok);
      pos, startpos, fileTotal, file := 0, 0, total, [];
    }

    /** The state with the bytes still in `tmp` counted as written. */
    ghost function Ahead(tmp: string): Scan
      reads this
    {
      Reading(pos, startpos, file + tmp, fileTotal)
    }

    /** `parse_POST_multipart_file` on data[at..]. */
    method Read(data: string, at: nat) returns (r: Answer, end: nat)
      requires Valid() && at <= |data|
      modifies this
      ensures at <= end <= |data|
      ensures match FeedAll(boundary, max, old(Abs()), data[at..])
        case TooBig => r == TooMuch
        case Reading(p, s, out, t) => r == NeedMore && end == |data| && Valid() && Abs() == Reading(p, s, out, t)
        case Found(out, t, rest) =>
          r == NextPart && rest == data[end..] && Valid() && Abs() == Reading(0, 0, out, t)
    {
      hide Feed, FeedAll, Begin, Boundary;
      var tmp := new char[TMP];
      var n := 0;
      end := at;
      ghost var s0 := Abs();
      assert file + tmp[..0] == file;
      while end < |data|
        invariant at <= end <= |data| && n < TMP == tmp.Length && Valid()
        invariant FeedAll(boundary, max, s0, data[at..]) == FeedAll(boundary, max, Ahead(tmp[..n]), data[end..])
        decreases |data| - end, pos
      {
        var c := data[end];
        ghost var s := Ahead(tmp[..n]);
        Unfold(boundary, max, s, data, end);
        FeedIs(boundary, max, s, c);
        if pos == 0 {
          if c == '\n' {
            startpos, pos := 1, 1;
          } else {
            startpos := 0;
          }
        }
        if c == boundary[pos] {
          pos := pos + 1;
          if pos == |boundary| {
            startpos, pos := 0, 0;
            end := end + 1;
            RestFollows(boundary, max, Found(s.out, s.total, []), data[end..]);
            assert [] + data[end..] == data[end..];
            file := file + tmp[..n];
            return NextPart, end;
          }
        } else {
          if fileTotal > max {
            BigStays(boundary, max, data[end + 1..]);
            return TooMuch, end;
          }
          if pos != 0 {
            fileTotal := fileTotal + pos;
            file := file + tmp[..n] + boundary[startpos..pos];
            n := 0;
            startpos, pos := 0, 0;
            assert file + tmp[..0] == file;
            assert Ahead(tmp[..0]) == Flushed(boundary, s);
            Unfold(boundary, max, Ahead(tmp[..0]), data, end);
            continue;
          }
          tmp[n] := c;
          n := n + 1;
          assert file + tmp[..n] == s.out + [c];
          if n == tmp.Length {
            file := file + tmp[..n];
            n := 0;
            assert file + tmp[..0] == file;
          }
        }
        fileTotal := fileTotal + 1;
        end := end + 1;
      }
      assert data[end..] == [];
      NothingLeft(boundary, max, Ahead(tmp[..n]));
      file := file + tmp[..n];
      r := NeedMore;
    }
  }

  lemma Unfold(b: string, max: nat, s: Scan, data: string, i: nat)
    requires Ok(b, s) && i < |data|
    ensures Ok(b, Feed(b, max, s, data[i]))
    ensures FeedAll(b, max, s, data[i..]) == FeedAll(b, max, Feed(b, max, s, data[i]), data[i + 1..])
  {
    assert data[i..][1..] == data[i + 1..];
  }

  lemma NothingLeft(b: string, max: nat, s: Scan)
    requires Ok(b, s)
    ensures FeedAll(b, max, s, []) == s
  {
  }

  lemma {:induction false} RestFollows(b: string, max: nat, s: Scan, w: string)
    requires |b| > 2 && s.Found?
    ensures FeedAll(b, max, s, w) == Found(s.out, s.total, s.rest + w)
    decreases |w|
  {
    if w == [] {
      assert s.rest + w == s.rest;
    } else {
      RestFollows(b, max, s.(rest := s.rest + [w[0]]), w[1..]);
      assert s.rest + [w[0]] + w[1..] == s.rest + w;
    }
  }

  lemma {:induction false} BigStays(b: string, max: nat, w: string)
    requires |b| > 2
    ensures FeedAll(b, max, TooBig, w) == TooBig
    decreases |w|
  {
    if w == [] {
    } else {
      BigStays(b, max, w[1..]);
    }
  }

  /** One byte, case by case, as the code below takes them. */
  lemma FeedIs(b: string, max: nat, s: Scan, c: char)
    requires Ok(b, s) && s.Reading? && b[0] == '\r' && b[1] == '\n'
    ensures Feed(b, max, s, c) ==
      var pos, start := if s.pos > 0 then s.pos else if c == '\n' then 1 else 0,
                        if s.pos > 0 then s.start else if c == '\n' then 1 else 0;
      if c == b[pos] then
        if pos + 1 == |b| then Found(s.out, s.total, []) else Reading(pos + 1, start, s.out, s.total + 1)
      else if s.total > max then TooBig
      else if s.pos > 0 then Feed(b, max, Flushed(b, s), c)
      else Reading(0, start, s.out + [c], s.total + 1)
  {
  }

  /**
   A file part, however its bytes are cut into chunks: it is refused, exactly when it is too
   big, or the file holds what stood before the first delimiter and the reader stops right behind it.
   */
  method ReadFile(tok: string, max: nat, total: nat, chunks: seq<string>, ghost i: nat)
    returns (refused: bool, f: FileReader, k: nat, end: nat)
    requires TokenOk(tok) && First(Delimiter(tok), Concat(chunks), i)
    ensures refused <==> Refused(Boundary(tok), max, Reading(0, 0, [], total), Concat(chunks))
    ensures !refused ==>
      && f.file == Before(Concat(chunks), i)
      && k < |chunks| && end <= |chunks[k]|
      && chunks[k][end..] + Concat(chunks[k + 1..]) == Concat(chunks)[i + |tok| + 3..]
  {
    hide Feed, FeedAll, Correct, First, Boundary, Before, Refused;
    f := new FileReader(tok, max, total);
    ghost var w := Concat(chunks);
    ghost var b, s0 := f.boundary, f.Abs();
    FileIsWhatPrecedesTheBoundary(tok, max, total, w);
    RefusedExactly(b, max, s0, w);
    if !FeedAll(b, max, s0, w).TooBig? {
      OneFirst(tok, w, i, FeedAll(b, max, s0, w));
    }
    refused, k, end := false, 0, 0;
    assert chunks[0..] == chunks;
    while k < |chunks|
      invariant k <= |chunks| && f.Valid() && f.boundary == b && f.max == max
      invariant FeedAll(b, max, s0, w) == FeedAll(b, max, f.Abs(), Concat(chunks[k..]))
    {
      ghost var s, later := f.Abs(), Concat(chunks[k + 1..]);
      assert chunks[k..][1..] == chunks[k + 1..];
      FeedAppend(b, max, s, chunks[k], later);
      assert chunks[k][0..] == chunks[k];
      var r;
      r, end := f.Read(chunks[k], 0);
      if r == NextPart {
        RestFollows(b, max, FeedAll(b, max, s, chunks[k]), later);
        return;
      }
      if r == TooMuch {
        BigStays(b, max, later);
        refused := true;
        return;
      }
      k := k + 1;
    }
    NothingLeft(b, max, f.Abs());
    assert false;
  }

  lemma OneFirst(tok: string, w: string, i: nat, r: Scan)
    requires First(Delimiter(tok), w, i) && Correct(tok, w, r) && !r.TooBig?
    ensures r.Found? && r.out == Before(w, i) && r.rest == w[i + |tok| + 3..]
  {
    if r.Found? {
      var k: nat :| First(Delimiter(tok), w, k) && r.out == Before(w, k) && r.rest == w[k + |tok| + 3..];
      assert At(Delimiter(tok), w, k) && At(Delimiter(tok), w, i);
    }
  }
}
