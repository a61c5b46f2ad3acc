/** The query splitter of onion/request_parser.c, which cuts and unquotes the text where it stands. */
module Query {
  import opened Wrappers
  import opened CText
  import opened Quote

  datatype Pair = Pair(key: string, value: string)

  /** The first place of `c`, or the end. */
  function Index(s: string, c: char): (i: nat)
    ensures i <= |s| && (i < |s| ==> s[i] == c) && forall k :: 0 <= k < i ==> s[k] != c
  {
    if s == [] || s[0] == c then 0 else 1 + Index(s[1..], c)
  }

  /** What the dictionary is given for a quoted part: the C string it unquotes to. */
  function Decoded(s: string): string
    requires WellFormed(s)
  {
    CString(Unquote(s))
  }

  predicate PieceOk(s: string) {
    var j := Index(s, '=');
    WellFormed(s[..j]) && (j < |s| ==> WellFormed(s[j + 1..]))
  }

  function PieceOf(s: string): Pair
    requires PieceOk(s)
  {
    var j := Index(s, '=');
    Pair(Decoded(s[..j]), if j < |s| then Decoded(s[j + 1..]) else [])
  }

  /** Every part between separators can be unquoted. */
  predicate QueryOk(s: string)
    decreases |s|
  {
    var i := Index(s, '&');
    PieceOk(s[..i]) && (i < |s| ==> QueryOk(s[i + 1..]))
  }

  /** The pairs a query stands for; nothing is added for an empty end. */
  function Pairs(s: string): seq<Pair>
    requires QueryOk(s)
    decreases |s|
  {
    var i := Index(s, '&');
    if i < |s| then [PieceOf(s[..i])] + Pairs(s[i + 1..])
    else if s == [] then []
    else [PieceOf(s[..i])]
  }

  // ------------------------------------------------------------------ round trip

  function Printed(pairs: seq<Pair>): string {
    if pairs == [] then []
    else if |pairs| == 1 then Quoted(pairs[0].key) + "=" + Quoted(pairs[0].value)
    else Quoted(pairs[0].key) + "=" + Quoted(pairs[0].value) + "&" + Printed(pairs[1..])
  }

  lemma IndexIs(s: string, c: char, i: nat)
    requires i <= |s| && (i < |s| ==> s[i] == c) && forall k :: 0 <= k < i ==> s[k] != c
    ensures Index(s, c) == i
  {
  }

  lemma DecodedQuoted(s: string)
    requires Bytes(s)
    ensures WellFormed(Quoted(s)) && Decoded(Quoted(s)) == s
  {
    UnquoteQuoted(s);
    CStringStops(s, |s|);
    assert s[..|s|] == s;
  }

  lemma PieceBack(p: Pair, t: string)
    requires Bytes(p.key) && Bytes(p.value)
    requires t == Quoted(p.key) + "=" + Quoted(p.value)
    ensures PieceOk(t) && PieceOf(t) == p && Index(t, '&') == |t|
  {
    hide Quoted, WellFormed, Unquote, CString, IsAlnum, Bytes;
    var k, v := Quoted(p.key), Quoted(p.value);
    Plain(p.key);
    Plain(p.value);
    IndexIs(t, '=', |k|);
    IndexIs(t, '&', |t|);
    assert t[..|k|] == k && t[|k| + 1..] == v;
    DecodedQuoted(p.key);
    DecodedQuoted(p.value);
  }

  lemma Plain(s: string)
    ensures forall i :: 0 <= i < |Quoted(s)| ==>
      Quoted(s)[i] != '=' && Quoted(s)[i] != '&' && Quoted(s)[i] != '?' && !IsSpace(Quoted(s)[i]) && Quoted(s)[i] != NUL
  {
    QuotedIsPlain(s);
  }

  lemma PairsJoin(t: string, rest: string)
    requires Index(t, '&') == |t| && PieceOk(t) && QueryOk(rest)
    ensures QueryOk(t + "&" + rest) && Pairs(t + "&" + rest) == [PieceOf(t)] + Pairs(rest)
  {
    hide PieceOk, PieceOf;
    var s := t + "&" + rest;
    IndexIs(s, '&', |t|);
    assert s[..|t|] == t && s[|t| + 1..] == rest;
  }

  lemma PairsOne(t: string)
    requires Index(t, '&') == |t| && PieceOk(t) && t != []
    ensures QueryOk(t) && Pairs(t) == [PieceOf(t)]
  {
    hide PieceOk, PieceOf;
    assert t[..|t|] == t;
  }

  /** Splitting and unquoting gives back the printed pairs, all of them and in order. */
  lemma {:induction false} PairsOfPrinted(pairs: seq<Pair>)
    requires forall i :: 0 <= i < |pairs| ==> Bytes(pairs[i].key) && Bytes(pairs[i].value)
    ensures QueryOk(Printed(pairs)) && Pairs(Printed(pairs)) == pairs
    decreases |pairs|
  {
    hide Quoted, PieceOk, PieceOf, Bytes, QueryOk, Pairs, Index;
    if pairs == [] {
      EmptyQuery();
    } else {
      var t := Quoted(pairs[0].key) + "=" + Quoted(pairs[0].value);
      PieceBack(pairs[0], t);
      if |pairs| == 1 {
        PairsOne(t);
      } else {
        PairsOfPrinted(pairs[1..]);
        PairsJoin(t, Printed(pairs[1..]));
      }
    }
  }

  lemma EmptyQuery()
    ensures QueryOk([]) && Pairs([]) == []
  {
    assert WellFormed([]);
  }

  // ------------------------------------------------------------------ in place

  /** What the dictionary is given: where the C strings start; no value means the constant "". */
  datatype Field = Field(key: nat, value: Option<nat>)

  /** The C string `x` stands at `off`, its end included below `limit`. */
  ghost predicate Holds(a: seq<char>, off: nat, x: string, limit: nat) {
    off + |x| < limit <= |a| && a[off..off + |x|] == x && a[off + |x|] == NUL
  }

  ghost predicate FieldHolds(a: seq<char>, f: Field, p: Pair, limit: nat) {
    && Holds(a, f.key, p.key, limit)
    && (match f.value
        case None => p.value == []
        case Some(v) => Holds(a, v, p.value, limit))
  }

  ghost predicate AllHold(a: seq<char>, fields: seq<Field>, pairs: seq<Pair>, limit: nat) {
    |fields| == |pairs| && forall i :: 0 <= i < |fields| ==> FieldHolds(a, fields[i], pairs[i], limit)
  }

  /** Writing at or after `limit` changes no field below it. */
  lemma HoldsStays(a: seq<char>, b: seq<char>, off: nat, x: string, limit: nat, limit': nat)
    requires Holds(a, off, x, limit) && limit <= limit' <= |b|
    requires forall i :: 0 <= i < limit ==> a[i] == b[i]
    ensures Holds(b, off, x, limit')
  {
    assert b[off..off + |x|] == a[off..off + |x|];
  }

  lemma AllStay(a: seq<char>, b: seq<char>, fields: seq<Field>, pairs: seq<Pair>, limit: nat, limit': nat)
    requires AllHold(a, fields, pairs, limit) && limit <= limit' <= |b|
    requires limit <= |a| && forall i :: 0 <= i < limit ==> a[i] == b[i]
    ensures AllHold(b, fields, pairs, limit')
  {
    hide Holds;
    forall i | 0 <= i < |fields| ensures FieldHolds(b, fields[i], pairs[i], limit') {
      assert FieldHolds(a, fields[i], pairs[i], limit);
      HoldsStays(a, b, fields[i].key, pairs[i].key, limit, limit');
      if fields[i].value.Some? {
        HoldsStays(a, b, fields[i].value.value, pairs[i].value, limit, limit');
      }
    }
  }

  method DecodeAt(a: array<char>, at: nat, ghost part: string)
    requires at + |part| < a.Length && a[at..at + |part|] == part && a[at + |part|] == NUL
    requires NulFree(part) && WellFormed(part)
    modifies a
    ensures Holds(a[..], at, Decoded(part), at + |part| + 1)
    ensures forall i :: 0 <= i < at || at + |part| < i < a.Length ==> a[i] == old(a[i])
  {
    hide WellFormed, Unquote, CString;
    UnquoteInPlace(a, at, |part|);
    CutAtNul(a[..], at, Unquote(part), at + |part| + 1);
  }

  /** The bytes `u` and the NUL behind them hold the C string that `u` starts with. */
  lemma CutAtNul(a: seq<char>, at: nat, u: string, limit: nat)
    requires at + |u| < limit <= |a| && a[at..at + |u|] == u && a[at + |u|] == NUL
    ensures Holds(a, at, CString(u), limit)
  {
    hide CString, NulFree, Holds;
    CStringEnds(u);
    HoldsPart(a, at, u, |CString(u)|, limit);
  }

  lemma HoldsPart(a: seq<char>, at: nat, u: string, n: nat, limit: nat)
    requires at + |u| < limit <= |a| && a[at..at + |u|] == u && a[at + |u|] == NUL
    requires n <= |u| && (n < |u| ==> u[n] == NUL)
    ensures Holds(a, at, u[..n], limit)
  {
    SlicePart(a, at, u, n);
  }

  lemma SlicePart(a: seq<char>, at: nat, u: string, n: nat)
    requires at + |u| <= |a| && a[at..at + |u|] == u && n <= |u|
    ensures a[at..at + n] == u[..n] && (n < |u| ==> a[at + n] == u[n])
  {
    assert a[at..at + |u|][..n] == a[at..at + n];
    if n < |u| { assert a[at..at + |u|][n] == a[at + n]; }
  }

  lemma SliceGrows(a: seq<char>, i: nat, j: nat)
    requires i <= j < |a|
    ensures a[i..j + 1] == a[i..j] + [a[j]]
  {
  }

  lemma SliceSame(a: seq<char>, b: seq<char>, i: nat, j: nat)
    requires i <= j <= |a| && j <= |b| && forall k :: i <= k < j ==> a[k] == b[k]
    ensures a[i..j] == b[i..j]
  {
  }

  /** The piece being read: its key, and its value once the equals sign has become a NUL. */
  ghost predicate Open(a: seq<char>, piece: string, key: nat, value: Option<nat>) {
    && key + |piece| <= |a|
    && (match value
        case None => Index(piece, '=') == |piece| && a[key..key + |piece|] == piece
        case Some(v) =>
          var j := Index(piece, '=');
          && v == key + j + 1 <= key + |piece| && a[key + j] == NUL
          && a[key..key + j] == piece[..j] && a[v..key + |piece|] == piece[j + 1..])
  }

  /** The end of a piece: its parts are unquoted where they stand. */
  method EndPiece(a: array<char>, key: nat, value: Option<nat>, ghost piece: string) returns (f: Field)
    requires key + |piece| < a.Length && a[key + |piece|] == NUL && Open(a[..], piece, key, value)
    requires NulFree(piece) && PieceOk(piece)
    modifies a
    ensures FieldHolds(a[..], f, PieceOf(piece), key + |piece| + 1)
    ensures forall i :: 0 <= i < key || key + |piece| < i < a.Length ==> a[i] == old(a[i])
  {
    hide WellFormed, Unquote, CString, Decoded;
    ghost var j := Index(piece, '=');
    ghost var limit := key + |piece| + 1;
    if value.Some? {
      assert a[key..key + j] == piece[..j] && a[value.value..key + |piece|] == piece[j + 1..];
    } else {
      assert piece[..j] == piece && a[key..key + j] == piece;
    }
    DecodeAt(a, key, piece[..j]);
    ghost var b := a[..];
    if value.Some? {
      assert a[value.value..key + |piece|] == piece[j + 1..];
      DecodeAt(a, value.value, piece[j + 1..]);
      HoldsStays(b, a[..], key, Decoded(piece[..j]), key + j + 1, limit);
    } else {
      HoldsStays(b, a[..], key, Decoded(piece[..j]), key + j + 1, limit);
    }
    f := Field(key, value);
  }

  lemma PieceEnds(orig: seq<char>, key: nat, p: nat, end: nat)
    requires key <= p < end <= |orig| && QueryOk(orig[key..end]) && orig[p] == '&'
    requires forall i :: key <= i < p ==> orig[i] != '&'
    ensures PieceOk(orig[key..p]) && QueryOk(orig[p + 1..end])
    ensures Pairs(orig[key..end]) == [PieceOf(orig[key..p])] + Pairs(orig[p + 1..end])
  {
    hide PieceOk, PieceOf;
    var s := orig[key..end];
    IndexIs(s, '&', p - key);
    assert s[..p - key] == orig[key..p] && s[p - key + 1..] == orig[p + 1..end];
  }

  lemma LastPiece(s: string)
    requires QueryOk(s) && forall i :: 0 <= i < |s| ==> s[i] != '&'
    ensures PieceOk(s) && Pairs(s) == if s == [] then [] else [PieceOf(s)]
  {
    hide PieceOk, PieceOf;
    IndexIs(s, '&', |s|);
    assert s[..|s|] == s;
  }

  /** One more character of a key. */
  lemma KeyGrows(a: seq<char>, b: seq<char>, orig: seq<char>, key: nat, p: nat)
    requires key <= p < |orig| == |a| == |b| && Open(a, orig[key..p], key, None)
    requires forall i :: 0 <= i < p ==> b[i] == a[i]
    ensures orig[p] == '=' && b[p] == NUL ==> Open(b, orig[key..p + 1], key, Some(p + 1))
    ensures orig[p] != '=' && b[p] == orig[p] ==> Open(b, orig[key..p + 1], key, None)
  {
    var s, t := orig[key..p], orig[key..p + 1];
    SliceGrows(orig, key, p);
    assert t[..|s|] == s;
    IndexIs(t, '=', if orig[p] == '=' then |s| else |t|);
    hide Index;
    SliceSame(a, b, key, p);
    SliceGrows(b, key, p);
  }

  /** One more character of a value. */
  lemma ValueGrows(a: seq<char>, b: seq<char>, orig: seq<char>, key: nat, v: nat, p: nat)
    requires key <= p < |orig| == |a| == |b| && Open(a, orig[key..p], key, Some(v)) && b[p] == orig[p]
    requires forall i :: 0 <= i < p ==> b[i] == a[i]
    ensures Open(b, orig[key..p + 1], key, Some(v))
  {
    var s, t := orig[key..p], orig[key..p + 1];
    SliceGrows(orig, key, p);
    var j := Index(s, '=');
    IndexIs(t, '=', j);
    hide Index;
    SliceSame(a, b, key, key + j);
    SliceSame(a, b, v, p);
    SliceGrows(b, v, p);
    assert t[..j] == s[..j] && t[j + 1..] == s[j + 1..] + [orig[p]];
  }

  /** Up to `key` the text has become fields; from `key` to `p` it is an open piece; from `p` on it is untouched. */
  ghost predicate Splitting(a: seq<char>, orig: seq<char>, at: nat, end: nat, key: nat, p: nat, value: Option<nat>,
                            fields: seq<Field>, done: seq<Pair>) {
    && at <= key <= p <= end < |a| == |orig| && orig[end] == NUL && NulFree(orig[at..end])
    && (forall i :: 0 <= i < at || p <= i < |a| ==> a[i] == orig[i])
    && (forall i :: key <= i < p ==> orig[i] != '&')
    && Open(a, orig[key..p], key, value)
    && QueryOk(orig[at..end]) && QueryOk(orig[key..end])
    && done + Pairs(orig[key..end]) == Pairs(orig[at..end])
    && AllHold(a, fields, done, key)
  }

  /** At a separator: the piece becomes a field. */
  method TakePiece(a: array<char>, ghost orig: seq<char>, ghost at: nat, ghost end: nat, key: nat, p: nat,
                   value: Option<nat>, fields: seq<Field>, ghost done: seq<Pair>)
    returns (more: seq<Field>, ghost all: seq<Pair>)
    requires Splitting(a[..], orig, at, end, key, p, value, fields, done) && p < end && orig[p] == '&'
    modifies a
    ensures Splitting(a[..], orig, at, end, p + 1, p + 1, None, more, all)
  {
    hide QueryOk, Pairs, PieceOk, PieceOf, Open, FieldHolds, Index;
    ghost var before, piece := a[..], orig[key..p];
    PieceEnds(orig, key, p, end);
    PartNulFree(orig, at, end, key, p);
    a[p] := NUL;
    StillOpen(before, a[..], piece, key, value, p);
    var f := EndPiece(a, key, value, piece);
    AllStay(before, a[..], fields, done, key, p + 1);
    more, all := fields + [f], done + [PieceOf(piece)];
    assert done + ([PieceOf(piece)] + Pairs(orig[p + 1..end])) == all + Pairs(orig[p + 1..end]);
    OpenNothing(a[..], p + 1);
    assert orig[p + 1..p + 1] == [];
  }

  lemma PartNulFree(orig: seq<char>, at: nat, end: nat, key: nat, p: nat)
    requires at <= key <= p <= end <= |orig| && NulFree(orig[at..end])
    ensures NulFree(orig[key..p])
  {
    assert forall i :: 0 <= i < p - key ==> orig[key..p][i] == orig[at..end][i + key - at];
  }

  /** Any other character, the first equals sign of a piece included, which has become a NUL. */
  lemma PassChar(a: seq<char>, b: seq<char>, orig: seq<char>, at: nat, end: nat, key: nat, p: nat, value: Option<nat>,
                 fields: seq<Field>, done: seq<Pair>)
    requires Splitting(a, orig, at, end, key, p, value, fields, done) && p < end && orig[p] != '&' && |b| == |a|
    requires forall i :: 0 <= i < |a| && i != p ==> b[i] == a[i]
    ensures value.None? && orig[p] == '=' && b[p] == NUL ==>
      Splitting(b, orig, at, end, key, p + 1, Some(p + 1), fields, done)
    ensures (value.Some? || orig[p] != '=') && b[p] == a[p] ==>
      Splitting(b, orig, at, end, key, p + 1, value, fields, done)
  {
    hide QueryOk, Pairs, Open, FieldHolds, Index;
    if value.Some? {
      if b[p] == a[p] { ValueGrows(a, b, orig, key, value.value, p); }
    } else {
      KeyGrows(a, b, orig, key, p);
    }
    AllStay(a, b, fields, done, key, key);
  }

  /** The end of the text. */
  method TakeLast(a: array<char>, ghost orig: seq<char>, ghost at: nat, key: nat, p: nat,
                  value: Option<nat>, fields: seq<Field>, ghost done: seq<Pair>)
    returns (more: seq<Field>)
    requires Splitting(a[..], orig, at, p, key, p, value, fields, done)
    modifies a
    ensures AllHold(a[..], more, Pairs(orig[at..p]), p + 1)
    ensures forall i :: 0 <= i < at || p < i < a.Length ==> a[i] == orig[i]
  {
    hide QueryOk, Pairs, PieceOk, PieceOf, Open, FieldHolds, Index;
    ghost var before, piece := a[..], orig[key..p];
    LastPiece(piece);
    PartNulFree(orig, at, p, key, p);
    NotEmpty(a[..], piece, key, value);
    more := fields;
    if value.Some? || a[key] != NUL {
      var f := EndPiece(a, key, value, piece);
      AllStay(before, a[..], fields, done, key, p + 1);
      more := fields + [f];
    } else {
      AllStay(a[..], a[..], fields, done, key, p + 1);
      assert done + [] == done;
    }
  }

  lemma WhereItStands(a: seq<char>, orig: seq<char>, at: nat, end: nat, key: nat, p: nat, value: Option<nat>,
                      fields: seq<Field>, done: seq<Pair>)
    requires Splitting(a, orig, at, end, key, p, value, fields, done)
    ensures p <= end < |a| == |orig| && a[p] == orig[p] && (a[p] == NUL <==> p == end)
  {
    hide QueryOk, Pairs, Open, AllHold;
    if p < end { assert orig[at..end][p - at] == orig[p]; }
  }

  lemma SplittingStarts(a: seq<char>, at: nat, end: nat)
    requires at <= end < |a| && a[end] == NUL && NulFree(a[at..end]) && QueryOk(a[at..end])
    ensures Splitting(a, a, at, end, at, at, None, [], [])
  {
    hide QueryOk, Pairs;
    OpenNothing(a, at);
    assert a[at..at] == [] && [] + Pairs(a[at..end]) == Pairs(a[at..end]);
  }

  /** `onion_request_parse_query_to_dict` on the text of length `n` at `at`: what it adds, in order. */
  method ParseQuery(a: array<char>, at: nat, ghost n: nat) returns (fields: seq<Field>)
    requires at + n < a.Length && a[at + n] == NUL && NulFree(a[at..at + n]) && QueryOk(a[at..at + n])
    modifies a
    ensures AllHold(a[..], fields, old(Pairs(a[at..at + n])), at + n + 1)
    ensures forall i :: 0 <= i < at || at + n < i < a.Length ==> a[i] == old(a[i])
  {
    hide QueryOk, Pairs, AllHold, Splitting;
    ghost var orig, end := a[..], at + n;
    ghost var done: seq<Pair> := [];
    var key: nat, p: nat := at, at;
    var value: Option<nat> := None;
    fields := [];
    assert a[at..end] == orig[at..end];
    SplittingStarts(orig, at, end);
    WhereItStands(a[..], orig, at, end, key, p, value, fields, done);
    while a[p] != NUL
      invariant Splitting(a[..], orig, at, end, key, p, value, fields, done)
      invariant p <= end < a.Length && a[p] == orig[p] && (a[p] == NUL <==> p == end)
      decreases end - p
    {
      ghost var before := a[..];
      if a[p] == '&' {
        fields, done := TakePiece(a, orig, at, end, key, p, value, fields, done);
        key, value := p + 1, None;
      } else if value.None? && a[p] == '=' {
        a[p] := NUL;
        PassChar(before, a[..], orig, at, end, key, p, value, fields, done);
        value := Some(p + 1);
      } else {
        PassChar(before, a[..], orig, at, end, key, p, value, fields, done);
      }
      p := p + 1;
      WhereItStands(a[..], orig, at, end, key, p, value, fields, done);
    }
    fields := TakeLast(a, orig, at, key, p, value, fields, done);
  }

  lemma OpenNothing(a: seq<char>, at: nat)
    requires at <= |a|
    ensures Open(a, [], at, None)
  {
  }

  lemma NotEmpty(a: seq<char>, piece: string, key: nat, value: Option<nat>)
    requires Open(a, piece, key, value) && NulFree(piece) && key + |piece| < |a| && a[key + |piece|] == NUL
    ensures piece != [] <==> value.Some? || a[key] != NUL
  {
    if value.None? && piece != [] {
      assert a[key..key + |piece|][0] == a[key];
    }
  }

  lemma StillOpen(a: seq<char>, b: seq<char>, piece: string, key: nat, value: Option<nat>, p: nat)
    requires Open(a, piece, key, value) && p == key + |piece| <= |b| && |a| == |b|
    requires forall i :: 0 <= i < p ==> a[i] == b[i]
    ensures Open(b, piece, key, value)
  {
    var j := Index(piece, '=');
    assert a[key..key + j] == b[key..key + j] && a[key..p] == b[key..p];
    if value.Some? { assert a[value.value..p] == b[value.value..p]; }
  }

  // ------------------------------------------------------------------ the request target

  /** The path in front of the question mark and the query behind it. */
  predicate TargetOk(t: string) {
    var i := Index(t, '?');
    WellFormed(t[..i]) && (i < |t| ==> QueryOk(t[i + 1..]))
  }

  function PathOf(t: string): string
    requires TargetOk(t)
  {
    Decoded(t[..Index(t, '?')])
  }

  function QueryOf(t: string): seq<Pair>
    requires TargetOk(t)
  {
    var i := Index(t, '?');
    if i < |t| then Pairs(t[i + 1..]) else []
  }

  /** `onion_request_parse_query` on req->fullpath, a C string that fills `a`. */
  method ParseTarget(a: array<char>) returns (fields: seq<Field>)
    requires a.Length > 0 && a[a.Length - 1] == NUL && NulFree(a[..a.Length - 1]) && TargetOk(a[..a.Length - 1])
    modifies a
    ensures Holds(a[..], 0, old(PathOf(a[..a.Length - 1])), a.Length)
    ensures AllHold(a[..], fields, old(QueryOf(a[..a.Length - 1])), a.Length)
  {
    hide WellFormed, Decoded, QueryOk, Pairs, FieldHolds, Index;
    ghost var t, n := a[..a.Length - 1], a.Length - 1;
    var have := false;
    var p := 0;
    while a[p] != NUL
      invariant p <= n && !have && forall i :: 0 <= i < p ==> a[i] != '?'
      decreases n - p
    {
      assert t[p] == a[p];
      if a[p] == '?' {
        have := true;
        break;
      }
      p := p + 1;
    }
    assert p < n ==> t[p] == a[p];
    IndexIs(t, '?', p);
    assert a[0..p] == t[..p];
    a[p] := NUL;
    assert a[0..p] == t[..p];
    DecodeAt(a, 0, t[..p]);
    fields := [];
    ghost var b, path := a[..], Decoded(t[..p]);
    if have {
      assert a[p + 1..n] == t[p + 1..];
      fields := ParseQuery(a, p + 1, n - p - 1);
    }
    HoldsStays(b, a[..], 0, path, p + 1, a.Length);
  }

  /** A printed target. */
  function Target(path: string, pairs: seq<Pair>): string {
    Quoted(path) + "?" + Printed(pairs)
  }

  lemma {:induction false} PrintedIsPlain(pairs: seq<Pair>)
    ensures forall i :: 0 <= i < |Printed(pairs)| ==> !IsSpace(Printed(pairs)[i]) && Printed(pairs)[i] != NUL
    decreases |pairs|
  {
    hide Quoted, IsSpace;
    if pairs == [] {
    } else {
      Plain(pairs[0].key);
      Plain(pairs[0].value);
      assert !IsSpace('=') && !IsSpace('&') by { PlainSeparators(); }
      PrintedIsPlain(pairs[1..]);
    }
  }

  lemma PlainSeparators()
    ensures !IsSpace('=') && !IsSpace('&') && !IsSpace('?')
  {
  }

  /** A printed target names its path and its pairs again, and it is one word. */
  lemma TargetOfPrinted(path: string, pairs: seq<Pair>)
    requires Bytes(path) && forall i :: 0 <= i < |pairs| ==> Bytes(pairs[i].key) && Bytes(pairs[i].value)
    ensures var t := Target(path, pairs);
      && TargetOk(t) && PathOf(t) == path && QueryOf(t) == pairs
      && forall i :: 0 <= i < |t| ==> !IsSpace(t[i]) && t[i] != NUL
  {
    hide Quoted, WellFormed, Decoded, QueryOk, Pairs, Printed, Bytes, Index, IsSpace;
    var t, q := Target(path, pairs), Quoted(path);
    Plain(path);
    IndexIs(t, '?', |q|);
    assert t[..|q|] == q && t[|q| + 1..] == Printed(pairs);
    DecodedQuoted(path);
    PairsOfPrinted(pairs);
    PrintedIsPlain(pairs);
    PlainSeparators();
  }
}
