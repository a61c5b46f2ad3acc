/** Header values that go on over several lines, as onion/request_parser.c joins them. */
module HeaderFolds {
  import opened CText
  import opened RequestParser

  /** A further line of a value: the line break before it, with or without a CR, its indentation and its text. */
  datatype Fold = Fold(cr: bool, indent: string, text: string)

  function Break(cr: bool): string {
    if cr then CRLF else "\n"
  }

  function PrintFolds(folds: seq<Fold>): string {
    if folds == [] then []
    else Break(folds[0].cr) + folds[0].indent + folds[0].text + PrintFolds(folds[1..])
  }

  /** What is left of a value: its lines, joined by spaces, up to the first one that ends in CRLF. */
  function Joined(value: string, folds: seq<Fold>): string
    decreases |folds|
  {
    if folds == [] || folds[0].cr then value else Joined(value + " " + folds[0].text, folds[1..])
  }

  predicate IsBlank(c: char) {
    c == ' ' || c == '\t'
  }

  /** A piece of a line: no line feed, no NUL, no CR at its end. */
  predicate LineText(v: string) {
    && (forall i :: 0 <= i < |v| ==> v[i] != '\n' && v[i] != NUL)
    && (v != [] ==> v[|v| - 1] != '\r')
  }

  predicate GoodFold(f: Fold) {
    && f.indent != [] && (forall i :: 0 <= i < |f.indent| ==> IsBlank(f.indent[i]))
    && f.text != [] && LineText(f.text) && !IsBlank(f.text[0])
  }

  /** How much of the token's buffer the lines take. */
  function Room(folds: seq<Fold>): nat {
    if folds == [] then 1 else 2 + |folds[0].text| + Room(folds[1..])
  }

  lemma NulFreeFirst(a: string)
    requires a != []
    ensures NulFree(a) <==> a[0] != NUL && NulFree(a[1..])
  {
    assert forall i :: 0 < i < |a| ==> a[i] == a[1..][i - 1];
  }

  lemma {:induction false} CStringJoins(a: string, b: string)
    ensures CString(a + b) == if NulFree(a) then a + CString(b) else CString(a)
  {
    if a == [] {
      assert a + b == b && [] + CString(b) == CString(b);
    } else {
      NulFreeFirst(a);
      hide NulFree;
      CStringJoins(a[1..], b);
      Uncons(a, b);
      Uncons(a, CString(b));
    }
  }

  lemma Uncons(a: string, b: string)
    requires a != []
    ensures a + b != [] && (a + b)[0] == a[0] && (a + b)[1..] == a[1..] + b && [a[0]] + (a[1..] + b) == a + b
  {
  }

  /** The line break at the end of a line: a CR becomes the terminator. */
  lemma FeedBreak(s: Head, cr: bool)
    requires s.mode.Value? && s.tok != [] && s.tok[|s.tok| - 1] != '\r' && |s.tok| < LIMIT
    ensures FeedAll(s, Break(cr)) == s.(mode := Peek, tok := if cr then s.tok + [NUL] else s.tok)
  {
    hide FeedAll, Feed;
    LineFeed(s);
    if cr {
      CarriageReturn(s);
      FeedTwo(s, CRLF, []);
      assert CRLF + [] == CRLF;
      FeedNothing(s.(mode := Peek, tok := s.tok + [NUL]));
    } else {
      FeedOne(s, [], '\n');
      FeedNothing(s);
      assert [] + ['\n'] == "\n";
    }
  }

  lemma LineFeed(s: Head)
    requires s.mode.Value? && s.tok != [] && s.tok[|s.tok| - 1] != '\r'
    ensures Feed(s, '\n') == s.(mode := Peek)
  {
  }

  lemma CarriageReturn(s: Head)
    requires s.mode.Value? && |s.tok| < LIMIT
    ensures Feed(Feed(s, '\r'), '\n') == s.(mode := Peek, tok := s.tok + [NUL])
  {
    var t := s.tok + ['\r'];
    assert Feed(s, '\r') == s.(tok := t);
    assert t[|t| - 1 := NUL] == s.tok + [NUL];
  }

  lemma {:induction false} FeedIndent(s: Head, w: string)
    requires (s.mode.Peek? && w != []) || s.mode.SkipWhitespace?
    requires forall i :: 0 <= i < |w| ==> IsBlank(w[i])
    ensures FeedAll(s, w) == s.(mode := SkipWhitespace)
    decreases |w|
  {
    if w == [] {
    } else {
      FeedIndent(s.(mode := SkipWhitespace), w[1..]);
    }
  }

  /** The text behind the indentation is joined with a space. */
  lemma FeedText(s: Head, v: string)
    requires s.mode.SkipWhitespace? && v != [] && LineText(v) && !IsBlank(v[0]) && |s.tok| + 1 + |v| <= LIMIT
    ensures FeedAll(s, v) == s.(mode := Value, tok := s.tok + (" " + v))
  {
    hide Feed;
    var s1 := s.(mode := Value, tok := s.tok + [' ', v[0]]);
    TextStarts(s, v[0]);
    FeedLine(s1, v[1..]);
    assert [' ', v[0]] + v[1..] == " " + v;
    assert s.tok + [' ', v[0]] + v[1..] == s.tok + ([' ', v[0]] + v[1..]);
  }

  lemma TextStarts(s: Head, c: char)
    requires s.mode.SkipWhitespace? && !IsBlank(c) && c != '\n' && |s.tok| + 2 <= LIMIT
    ensures Feed(s, c) == s.(mode := Value, tok := s.tok + [' ', c])
  {
  }

  /** One further line. */
  lemma FeedFold(s: Head, f: Fold)
    requires s.mode.Value? && s.tok != [] && s.tok[|s.tok| - 1] != '\r'
    requires GoodFold(f) && |s.tok| + 2 + |f.text| <= LIMIT
    ensures FeedAll(s, Break(f.cr) + f.indent + f.text) ==
            s.(tok := (if f.cr then s.tok + [NUL] else s.tok) + (" " + f.text))
  {
    hide FeedAll, LineText;
    FeedBreak(s, f.cr);
    var s1 := s.(mode := Peek, tok := if f.cr then s.tok + [NUL] else s.tok);
    FeedIndent(s1, f.indent);
    FeedText(s1.(mode := SkipWhitespace), f.text);
    FeedAppend(s, Break(f.cr), f.indent);
    FeedAppend(s, Break(f.cr) + f.indent, f.text);
  }

  /** The value read from the rest of a line `s.tok` and its folds. */
  lemma {:induction false} FoldsRead(s: Head, folds: seq<Fold>) returns (tok: string)
    requires s.mode.Value? && s.tok != [] && s.tok[|s.tok| - 1] != '\r' && |s.tok| + Room(folds) <= LIMIT
    requires forall i :: 0 <= i < |folds| ==> GoodFold(folds[i])
    ensures FeedAll(s, PrintFolds(folds) + CRLF) == s.(mode := Peek, tok := tok)
    ensures CString(tok) == if NulFree(s.tok) then Joined(s.tok, folds) else CString(s.tok)
    decreases |folds|
  {
    hide FeedAll, GoodFold;
    if folds == [] {
      FeedBreak(s, true);
      tok := s.tok + [NUL];
      CStringJoins(s.tok, [NUL]);
      assert [] + CRLF == CRLF && s.tok + [] == s.tok && CString([NUL]) == [];
    } else {
      var f := folds[0];
      var line, rest := Break(f.cr) + f.indent + f.text, PrintFolds(folds[1..]) + CRLF;
      FeedFold(s, f);
      FeedAppend(s, line, rest);
      assert PrintFolds(folds) + CRLF == line + rest;
      var t := (if f.cr then s.tok + [NUL] else s.tok) + (" " + f.text);
      TextEnds(f);
      assert t[|t| - 1] == f.text[|f.text| - 1];
      tok := FoldsRead(s.(tok := t), folds[1..]);
      JoinedOnce(s.tok, f, folds[1..]);
    }
  }

  lemma TextEnds(f: Fold)
    requires GoodFold(f)
    ensures f.text != [] && f.text[|f.text| - 1] != '\r' && NulFree(f.text)
  {
  }

  /** Behind a CR nothing of a value is seen. */
  lemma JoinedOnce(tok: string, f: Fold, rest: seq<Fold>)
    requires GoodFold(f)
    ensures var t := (if f.cr then tok + [NUL] else tok) + (" " + f.text);
      (if NulFree(t) then Joined(t, rest) else CString(t)) ==
      (if NulFree(tok) then Joined(tok, [f] + rest) else CString(tok))
  {
    TextEnds(f);
    hide *;
    var more := " " + f.text;
    CStringJoins(tok, [NUL] + more);
    CStringJoins(tok, more);
    CStringNothing(more);
    assert tok + [NUL] + more == tok + ([NUL] + more);
    assert ([f] + rest)[0] == f && ([f] + rest)[1..] == rest;
    assert tok + more == tok + " " + f.text;
    JoinedIs(tok, [f] + rest);
    NulStays(tok, more);
    NulStays(tok, [NUL] + more);
    assert tok + [] == tok;
  }

  lemma CStringNothing(more: string)
    ensures CString([NUL] + more) == [] && !NulFree([NUL] + more)
  {
    assert ([NUL] + more)[0] == NUL;
  }

  lemma NulStays(a: string, b: string)
    ensures NulFree(a + b) <==> NulFree(a) && NulFree(b)
  {
    if NulFree(a + b) {
      assert forall i :: 0 <= i < |a| ==> a[i] == (a + b)[i];
      assert forall i :: 0 <= i < |b| ==> b[i] == (a + b)[|a| + i];
    }
  }

  lemma JoinedIs(value: string, folds: seq<Fold>)
    requires folds != []
    ensures Joined(value, folds) == if folds[0].cr then value else Joined(value + " " + folds[0].text, folds[1..])
  {
  }

  /**
   A header folded over any lines: its value is the lines joined by spaces, but only up to the
   first that ends in CRLF.
   */
  lemma FoldedValue(s: Head, value: string, folds: seq<Fold>)
    requires s.mode.Value? && s.tok == [] && value != [] && LineText(value) && !IsSpace(value[0])
    requires 1 + |value| + Room(folds) <= LIMIT && forall i :: 0 <= i < |folds| ==> GoodFold(folds[i])
    ensures var r := FeedAll(s, " " + value + PrintFolds(folds) + CRLF);
      r.mode.Peek? && HeaderDone(r).headers == s.headers + [Header(s.extra, Joined(value, folds))]
  {
    hide *;
    var v, more := " " + value, PrintFolds(folds) + CRLF;
    LineStarts(value);
    FeedLine(s, v);
    assert [] + v == v;
    var s1 := s.(tok := v);
    var tok := FoldsRead(s1, folds);
    FeedAppend(s, v, more);
    assert " " + value + PrintFolds(folds) + CRLF == v + more;
    ValueStored(s.(mode := Peek, tok := tok), value, folds);
  }

  lemma LineStarts(value: string)
    requires value != [] && LineText(value)
    ensures var v := " " + value; v[|v| - 1] != '\r' && forall i :: 0 <= i < |v| ==> v[i] != '\n'
    ensures 1 <= LIMIT
  {
  }

  lemma ValueStored(s: Head, value: string, folds: seq<Fold>)
    requires value != [] && LineText(value) && !IsSpace(value[0])
    requires CString(s.tok) == if NulFree(" " + value) then Joined(" " + value, folds) else CString(" " + value)
    ensures HeaderDone(s).headers == s.headers + [Header(s.extra, Joined(value, folds))]
  {
    hide Joined, SkipSpaces, CString, IsSpace;
    JoinedSpace(value, folds);
    JoinedStarts(value, folds);
  }

  lemma {:induction false} JoinedSpace(value: string, folds: seq<Fold>)
    ensures Joined(" " + value, folds) == " " + Joined(value, folds)
    decreases |folds|
  {
    if folds == [] || folds[0].cr {
    } else {
      assert " " + value + " " + folds[0].text == " " + (value + " " + folds[0].text);
      JoinedSpace(value + " " + folds[0].text, folds[1..]);
    }
  }

  lemma {:induction false} JoinedStarts(value: string, folds: seq<Fold>)
    requires value != [] && !IsSpace(value[0])
    ensures SkipSpaces(Joined(value, folds)) == Joined(value, folds)
    ensures SkipSpaces(" " + Joined(value, folds)) == Joined(value, folds)
    decreases |folds|
  {
    if folds == [] || folds[0].cr {
      assert (" " + value)[1..] == value;
    } else {
      JoinedStarts(value + " " + folds[0].text, folds[1..]);
    }
  }

  /** All the lines, joined by spaces. */
  function Unfolded(value: string, folds: seq<Fold>): string
    decreases |folds|
  {
    if folds == [] then value else Unfolded(value + " " + folds[0].text, folds[1..])
  }

  /** Exactly the values folded with bare line feeds survive whole. */
  lemma {:induction false} SurvivesExactly(value: string, folds: seq<Fold>)
    ensures Joined(value, folds) == Unfolded(value, folds) <==> forall i :: 0 <= i < |folds| ==> !folds[i].cr
    decreases |folds|
  {
    if folds == [] {
    } else {
      UnfoldedGrows(value + " " + folds[0].text, folds[1..]);
      SurvivesExactly(value + " " + folds[0].text, folds[1..]);
      assert (forall i :: 0 <= i < |folds| ==> !folds[i].cr) <==>
        !folds[0].cr && (forall i :: 0 <= i < |folds[1..]| ==> !folds[1..][i].cr);
    }
  }

  lemma {:induction false} UnfoldedGrows(value: string, folds: seq<Fold>)
    ensures |Unfolded(value, folds)| >= |value|
    decreases |folds|
  {
    if folds == [] {
    } else {
      UnfoldedGrows(value + " " + folds[0].text, folds[1..]);
    }
  }
}
