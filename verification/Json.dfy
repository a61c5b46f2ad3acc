/** `onion_dict_to_json` of onion/dict.c, built in a block, and what a reader of C literals makes of it. */
module Json {
  import opened Wrappers
  import opened CText
  import opened CQuote
  import Block
  import opened AATree
  import DictCopy

  // ------------------------------------------------------------------ reading literals

  datatype Read = Failed | Read(text: string, rest: string)

  predicate IsOctal(c: char) {
    '0' <= c <= '7'
  }

  /** The character after a backslash, and how long the escape is. */
  function Escape(w: string): (r: Option<(char, nat)>)
    ensures r.Some? ==> 0 < r.value.1 <= |w|
  {
    if w == [] then None
    else if w[0] == 'n' then Some((LF, 1))
    else if w[0] == 't' then Some((TAB, 1))
    else if w[0] == QUOTE || w[0] == BACKSLASH then Some((w[0], 1))
    else if |w| >= 3 && '0' <= w[0] <= '3' && IsOctal(w[1]) && IsOctal(w[2]) then
      Some((((w[0] as nat - 48) * 64 + (w[1] as nat - 48) * 8 + (w[2] as nat - 48)) as char, 3))
    else None
  }

  /** Inside a literal; two literals with a line end between them are one. */
  function ReadInside(w: string): (r: Read)
    ensures r.Read? ==> |r.rest| < |w|
    decreases |w|
  {
    if w == [] then Failed
    else if w[0] == QUOTE then
      if |w| >= 3 && w[1] == LF && w[2] == QUOTE then ReadInside(w[3..]) else Read([], w[1..])
    else if w[0] == BACKSLASH then
      match Escape(w[1..])
      case None => Failed
      case Some((c, n)) => Prefixed(c, ReadInside(w[1 + n..]))
    else Prefixed(w[0], ReadInside(w[1..]))
  }

  function Prefixed(c: char, r: Read): Read {
    if r.Read? then Read([c] + r.text, r.rest) else Failed
  }

  function ReadLiteral(w: string): (r: Read)
    ensures r.Read? ==> |r.rest| < |w|
  {
    if w != [] && w[0] == QUOTE then ReadInside(w[1..]) else Failed
  }

  /** Quoting turns a carriage return into a line feed. */
  function Kept(s: string): string {
    if s == [] then [] else Kept(s[..|s| - 1]) + [if s[|s| - 1] == CR then LF else s[|s| - 1]]
  }

  predicate EightBit(s: string) {
    forall i :: 0 <= i < |s| ==> s[i] as int < 256
  }

  lemma OctalBack(c: char)
    requires 127 < c as int < 256
    ensures Escape([(48 + c as nat / 64 % 4) as char, Octal(c as nat / 8), Octal(c as nat)]) == Some((c, 3))
  {
    var n := c as nat;
    assert n / 8 % 8 == n / 8 - n / 64 * 8;
  }

  lemma OctalBackIn(c: char, w: string)
    requires 127 < c as int < 256
    ensures Escape([(48 + c as nat / 64 % 4) as char, Octal(c as nat / 8), Octal(c as nat)] + w) == Some((c, 3))
  {
    OctalBack(c);
    var q := [(48 + c as nat / 64 % 4) as char, Octal(c as nat / 8), Octal(c as nat)];
    assert (q + w)[0] == q[0] && (q + w)[1] == q[1] && (q + w)[2] == q[2];
    hide Octal;
  }

  /** One quoted character is read back. */
  lemma CharRead(c: char, w: string)
    requires c as int < 256
    ensures ReadInside(QuotedChar(c) + w) == Prefixed(if c == CR then LF else c, ReadInside(w))
  {
    var q := QuotedChar(c);
    var v := q + w;
    if c == LF {
      assert v[1..] == ['n', QUOTE, LF, QUOTE] + w;
      var u := v[2..];
      assert u == [QUOTE, LF, QUOTE] + w && u[3..] == w;
    } else if c == CR || c == QUOTE || c == BACKSLASH || c == TAB {
      assert v[1..] == [q[1]] + w && v[2..] == w;
    } else if c as int > 127 {
      OctalBackIn(c, w);
      hide Octal;
      assert v[1..] == [q[1], q[2], q[3]] + w && v[4..] == w;
    } else {
      assert v[1..] == w;
    }
  }

  function Joined(s: string, r: Read): Read {
    if r.Read? then Read(s + r.text, r.rest) else Failed
  }

  lemma {:induction false} InsideRead(s: string, w: string)
    requires EightBit(s)
    ensures ReadInside(Inside(s) + w) == Joined(Kept(s), ReadInside(w))
    decreases |s|
  {
    hide QuotedChar, ReadInside;
    if s == [] {
      assert Inside(s) + w == w;
      assert ReadInside(w).Read? ==> [] + ReadInside(w).text == ReadInside(w).text;
    } else {
      var n := |s| - 1;
      var q := QuotedChar(s[n]);
      assert Inside(s) + w == Inside(s[..n]) + (q + w);
      CharRead(s[n], w);
      InsideRead(s[..n], q + w);
      if ReadInside(w).Read? {
        assert Kept(s[..n]) + ([if s[n] == CR then LF else s[n]] + ReadInside(w).text) == Kept(s) + ReadInside(w).text;
      }
    }
  }

  /** A quoted string is read back, its carriage returns as line feeds, whatever follows on the same line. */
  lemma LiteralRead(s: string, w: string)
    requires EightBit(s) && (w == [] || w[0] != LF)
    ensures ReadLiteral(Literal(s) + w) == Read(Kept(s), w)
  {
    hide Inside, Kept, Escape, EightBit;
    var v, u := Literal(s) + w, [QUOTE] + w;
    assert v[1..] == Inside(s) + u;
    assert u[1..] == w;
    assert ReadInside(u) == Read([], w);
    hide ReadInside;
    InsideRead(s, u);
    assert Kept(s) + [] == Kept(s);
  }

  lemma {:induction false} KeptAll(s: string)
    ensures Kept(s) == s <==> forall i :: 0 <= i < |s| ==> s[i] != CR
  {
    if s == [] {
    } else {
      var n := |s| - 1;
      KeptAll(s[..n]);
      assert s == s[..n] + [s[n]];
      KeptLength(s[..n]);
      assert Kept(s) == s <==> Kept(s[..n]) == s[..n] && s[n] != CR;
    }
  }

  lemma {:induction false} KeptLength(s: string)
    ensures |Kept(s)| == |s|
  {
    if s == [] {
    } else {
      KeptLength(s[..|s| - 1]);
    }
  }

  /** A C reader gets the very string back exactly when it holds no carriage return. */
  lemma LiteralReturns(s: string, w: string)
    requires EightBit(s) && (w == [] || w[0] != LF)
    ensures ReadLiteral(Literal(s) + w) == Read(s, w) <==> forall i :: 0 <= i < |s| ==> s[i] != CR
  {
    hide Literal, ReadLiteral, Kept, EightBit;
    LiteralRead(s, w);
    KeptAll(s);
  }

  // ------------------------------------------------------------------ strings of RFC 8259

  /** The inside of a string as section 7 of RFC 8259 has it, short escapes only. */
  predicate JsonChars(w: string) {
    w == [] ||
    (if w[0] == BACKSLASH then |w| >= 2 && w[1] in [QUOTE, BACKSLASH, '/', 'b', 'f', 'n', 'r', 't'] && JsonChars(w[2..])
     else w[0] as int >= 32 && w[0] != QUOTE && JsonChars(w[1..]))
  }

  /** A character that C quoting turns into JSON. */
  predicate JsonSafe(c: char) {
    32 <= c as int <= 127 || c == CR || c == TAB
  }

  lemma JsonCharJoin(c: char, w: string)
    requires c as int < 256
    ensures JsonChars(QuotedChar(c) + w) <==> JsonSafe(c) && JsonChars(w)
  {
    var q := QuotedChar(c);
    var v := q + w;
    if c == LF {
      assert v[1] == 'n' && v[2..][0] == QUOTE;
    } else if c == CR || c == QUOTE || c == BACKSLASH || c == TAB {
      assert v[1] == q[1] && v[2..] == w;
    } else if c as int > 127 {
      assert v[1] == q[1] && '0' <= v[1] <= '3';
    } else {
      assert v[1..] == w;
    }
  }

  /**
   A C-quoted string is a JSON string exactly when it holds no line feed, no other control
   character and nothing above 127.
   */
  lemma {:induction false} QuotedIsJson(s: string, w: string)
    requires EightBit(s)
    ensures JsonChars(Inside(s) + w) <==> (forall i :: 0 <= i < |s| ==> JsonSafe(s[i])) && JsonChars(w)
    decreases |s|
  {
    hide QuotedChar, JsonChars, JsonSafe;
    if s == [] {
      assert Inside(s) + w == w;
    } else {
      var n := |s| - 1;
      assert Inside(s) + w == Inside(s[..n]) + (QuotedChar(s[n]) + w);
      QuotedIsJson(s[..n], QuotedChar(s[n]) + w);
      JsonCharJoin(s[n], w);
      assert forall i :: 0 <= i < n ==> s[..n][i] == s[i];
    }
  }

  // ------------------------------------------------------------------ dictionaries

  const COMMA: string := ", "

  function Commas(ts: seq<string>): string {
    if ts == [] then [] else if |ts| == 1 then ts[0] else ts[0] + COMMA + Commas(ts[1..])
  }

  function ValueText(v: AATree.Value): string
    decreases v, 0
  {
    match v case Text(s) => Literal(s) case Nested(root) => JsonText(root)
  }

  function EntryText(e: Entry): string
    decreases e, 0
  {
    Literal(e.key) + ":" + ValueText(e.value)
  }

  /** The entries' texts, in the dictionary's order. */
  function Texts(t: Tree): (r: seq<string>)
    ensures |r| == Size(t)
    decreases t, 0
  {
    if t.Nil? then [] else Texts(t.left) + [EntryText(t.data)] + Texts(t.right)
  }

  function JsonText(t: Tree): string
    decreases t, 1
  {
    "{" + Commas(Texts(t)) + "}"
  }

  /** The texts are those of the in-order entries. */
  lemma {:induction false} TextsInOrder(t: Tree)
    ensures forall i :: 0 <= i < Size(t) ==> Texts(t)[i] == EntryText(InOrder(t)[i])
    decreases t
  {
    hide EntryText;
    if t.Nil? {
    } else {
      TextsInOrder(t.left);
      TextsInOrder(t.right);
    }
  }

  /** Keys and texts are C strings of 8-bit characters, and OD_DICT marks the dictionaries. */
  ghost predicate Clean(t: Tree) {
    t.Node? ==>
      && Clean(t.left) && Clean(t.right) && EightBit(t.data.key) && NulFree(t.data.key)
      && (t.data.flags.isDict <==> t.data.value.Nested?)
      && (match t.data.value case Text(s) => EightBit(s) && NulFree(s) case Nested(root) => Clean(root))
  }

  // ------------------------------------------------------------------ reading objects

  datatype Value = JText(text: string) | JObject(members: seq<Member>)
  datatype Member = Member(key: string, value: Value)

  datatype Parsed<T> = Bad | Got(it: T, rest: string)

  function ReadValue(w: string): (r: Parsed<Value>)
    ensures r.Got? ==> |r.rest| < |w|
    decreases |w|, 0
  {
    if w == [] then Bad
    else if w[0] == QUOTE then
      var l := ReadLiteral(w);
      if l.Read? then Got(JText(l.text), l.rest) else Bad
    else if w[0] == '{' then
      if |w| >= 2 && w[1] == '}' then Got(JObject([]), w[2..])
      else
        var m := ReadMembers(w[1..]);
        if m.Got? then Got(JObject(m.it), m.rest) else Bad
    else Bad
  }

  function ReadMember(w: string): (r: Parsed<Member>)
    ensures r.Got? ==> |r.rest| < |w|
    decreases |w|, 1
  {
    var k := ReadLiteral(w);
    if k.Failed? || k.rest == [] || k.rest[0] != ':' then Bad
    else
      var v := ReadValue(k.rest[1..]);
      if v.Got? then Got(Member(k.text, v.it), v.rest) else Bad
  }

  function ReadMembers(w: string): (r: Parsed<seq<Member>>)
    ensures r.Got? ==> |r.rest| < |w|
    decreases |w|, 2
  {
    var m := ReadMember(w);
    if m.Bad? || m.rest == [] then Bad
    else if m.rest[0] == '}' then Got([m.it], m.rest[1..])
    else if |m.rest| >= 2 && m.rest[..2] == COMMA then
      var more := ReadMembers(m.rest[2..]);
      if more.Got? then Got([m.it] + more.it, more.rest) else Bad
    else Bad
  }

  /** What a reader should see. */
  function Seen(t: Tree): (r: seq<Member>)
    ensures |r| == Size(t)
  {
    if t.Nil? then [] else Seen(t.left) + [SeenEntry(t.data)] + Seen(t.right)
  }

  function SeenEntry(e: Entry): Member {
    Member(Kept(e.key), SeenValue(e.value))
  }

  function SeenValue(v: AATree.Value): Value {
    match v case Text(s) => JText(Kept(s)) case Nested(root) => JObject(Seen(root))
  }

  /** A text that reads as `m` wherever a member can end. */
  ghost predicate Reads(text: string, m: Member) {
    forall w: string :: w != [] && (w[0] == ',' || w[0] == '}') ==> ReadMember(text + w) == Got(m, w)
  }

  lemma MemberThen(text: string, m: Member, u: string)
    requires Reads(text, m)
    ensures ReadMembers(text + (COMMA + u)) ==
      if ReadMembers(u).Got? then Got([m] + ReadMembers(u).it, ReadMembers(u).rest) else Bad
  {
    hide ReadMember;
    var v := COMMA + u;
    assert v[0] == ',' && v[..2] == COMMA && v[2..] == u;
    assert ReadMember(text + v) == Got(m, v);
  }

  lemma MemberLast(text: string, m: Member, w: string)
    requires Reads(text, m)
    ensures ReadMembers(text + ("}" + w)) == Got([m], w)
  {
    hide ReadMember;
    var v := "}" + w;
    assert v[0] == '}' && v[1..] == w;
    assert ReadMember(text + v) == Got(m, v);
  }

  lemma {:induction false} MembersRead(ts: seq<string>, ms: seq<Member>, w: string)
    requires 0 < |ts| == |ms| && forall i :: 0 <= i < |ts| ==> Reads(ts[i], ms[i])
    ensures ReadMembers(Commas(ts) + "}" + w) == Got(ms, w)
    decreases |ts|
  {
    hide ReadMembers, Reads, COMMA;
    if |ts| == 1 {
      MemberLast(ts[0], ms[0], w);
      assert Commas(ts) + "}" + w == ts[0] + ("}" + w);
      assert ms == [ms[0]];
    } else {
      var u := Commas(ts[1..]) + "}" + w;
      assert Commas(ts) + "}" + w == ts[0] + (COMMA + u);
      forall i | 0 <= i < |ts[1..]| ensures Reads(ts[1..][i], ms[1..][i]) {
        assert Reads(ts[i + 1], ms[i + 1]);
      }
      MembersRead(ts[1..], ms[1..], w);
      MemberThen(ts[0], ms[0], u);
      assert ms == [ms[0]] + ms[1..];
    }
  }

  lemma {:induction false} TextsRead(t: Tree)
    requires Clean(t)
    ensures forall i :: 0 <= i < Size(t) ==> Reads(Texts(t)[i], Seen(t)[i])
    decreases t, 0
  {
    hide Reads, EntryText, SeenEntry;
    if t.Nil? {
    } else {
      TextsRead(t.left);
      TextsRead(t.right);
      EntryReads(t.data);
      hide Clean;
      var l := Size(t.left);
      forall i | 0 <= i < Size(t) ensures Reads(Texts(t)[i], Seen(t)[i]) {
        if i > l { assert Texts(t)[i] == Texts(t.right)[i - l - 1] && Seen(t)[i] == Seen(t.right)[i - l - 1]; }
      }
    }
  }

  lemma {:induction false} EntryReads(e: Entry)
    requires EightBit(e.key) && match e.value case Text(s) => EightBit(s) case Nested(root) => Clean(root)
    ensures Reads(EntryText(e), SeenEntry(e))
    decreases e, 0
  {
    hide Literal, ReadLiteral, Kept, EightBit;
    forall w: string | w != [] && (w[0] == ',' || w[0] == '}')
      ensures ReadMember(EntryText(e) + w) == Got(SeenEntry(e), w)
    {
      hide ValueText, ReadValue, SeenValue;
      var v := ":" + ValueText(e.value) + w;
      assert EntryText(e) + w == Literal(e.key) + v;
      LiteralRead(e.key, v);
      assert v[1..] == ValueText(e.value) + w;
      ValueReads(e.value, w);
    }
  }

  lemma {:induction false} ValueReads(v: AATree.Value, w: string)
    requires w == [] || w[0] != LF
    requires match v case Text(s) => EightBit(s) case Nested(root) => Clean(root)
    ensures ReadValue(ValueText(v) + w) == Got(SeenValue(v), w)
    decreases v, 0
  {
    hide Literal, ReadValue, Kept, EightBit, JsonText, Seen, Clean;
    match v {
      case Text(s) => TextReads(s, w);
      case Nested(root) => ObjectRead(root, w);
    }
  }

  lemma TextReads(s: string, w: string)
    requires EightBit(s) && (w == [] || w[0] != LF)
    ensures ReadValue(Literal(s) + w) == Got(JText(Kept(s)), w)
  {
    hide Literal, ReadLiteral, Kept, EightBit, ReadMembers;
    LiteralRead(s, w);
    LiteralOpens(s, w);
  }

  lemma LiteralOpens(s: string, w: string)
    ensures Literal(s) + w != [] && (Literal(s) + w)[0] == QUOTE
  {
  }

  /** Reading the text of a dictionary gives back its entries in order, at every depth, and nothing of what follows. */
  lemma {:induction false} ObjectRead(t: Tree, w: string)
    requires Clean(t)
    ensures ReadValue(JsonText(t) + w) == Got(JObject(Seen(t)), w)
    decreases t, 1
  {
    hide Reads, ReadMembers, ReadLiteral, EntryText, Clean, Commas;
    TextsRead(t);
    var ts := Texts(t);
    var v := JsonText(t) + w;
    assert v[1..] == Commas(ts) + "}" + w;
    if t.Nil? {
      assert Commas(ts) == [] by { NoCommas(); }
      assert v[2..] == w;
    } else {
      MembersRead(ts, Seen(t), w);
      CommasOpen(ts, v[1..]);
    }
  }

  lemma NoCommas()
    ensures Commas([]) == []
  {
  }

  lemma CommasOpen(ts: seq<string>, v: string)
    requires ReadMembers(v).Got?
    ensures v != [] && v[0] == QUOTE
  {
  }

  // ------------------------------------------------------------------ writing

  /** Each text with a comma behind it, as the entries are appended. */
  function Trailing(ts: seq<string>): string {
    if ts == [] then [] else ts[0] + COMMA + Trailing(ts[1..])
  }

  lemma {:induction false} TrailingJoins(a: seq<string>, b: seq<string>)
    ensures Trailing(a + b) == Trailing(a) + Trailing(b)
  {
    if a == [] {
      assert a + b == b;
    } else {
      assert (a + b)[1..] == a[1..] + b;
      TrailingJoins(a[1..], b);
    }
  }

  lemma {:induction false} TrailingIsCommas(ts: seq<string>)
    requires ts != []
    ensures Trailing(ts) == Commas(ts) + COMMA
  {
    if |ts| == 1 {
      assert Trailing(ts) == ts[0] + COMMA + Trailing([]);
    } else {
      TrailingIsCommas(ts[1..]);
      assert ts[0] + COMMA + (Commas(ts[1..]) + COMMA) == ts[0] + COMMA + Commas(ts[1..]) + COMMA;
    }
  }

  lemma {:induction false} InsideNulFree(s: string)
    requires NulFree(s)
    ensures NulFree(Inside(s))
  {
    if s == [] {
    } else {
      var n := |s| - 1;
      assert NulFree(s[..n]) by { assert forall i :: 0 <= i < n ==> s[..n][i] == s[i]; }
      InsideNulFree(s[..n]);
      assert NulFree(QuotedChar(s[n]));
    }
  }

  lemma LiteralNulFree(s: string)
    requires NulFree(s)
    ensures NulFree(Literal(s))
  {
    InsideNulFree(s);
  }

  /** A quoted string appended to the block. */
  method AddQuoted(block: Block.Block, s: string)
    requires block.Valid() && NulFree(s)
    modifies block, block.data
    ensures block.Valid() && (block.data == old(block.data) || fresh(block.data))
    ensures block.Contents() == old(block.Contents()) + Literal(s)
  {
    hide Literal, NulFree;
    LiteralNulFree(s);
    var q, n := QuoteNew(s);
    block.AddStr(q, n);
  }

  /** `onion_dict_json_preorder` on one entry. */
  method AddEntry(block: Block.Block, e: Entry)
    requires block.Valid() && NulFree(e.key) && (e.flags.isDict <==> e.value.Nested?)
    requires match e.value case Text(s) => NulFree(s) case Nested(root) => Clean(root)
    modifies block, block.data
    ensures block.Valid() && (block.data == old(block.data) || fresh(block.data))
    ensures block.Contents() == old(block.Contents()) + (EntryText(e) + COMMA)
    decreases e, 1
  {
    hide Literal, NulFree, ValueText, Clean, COMMA;
    ghost var before := block.Contents();
    AddQuoted(block, e.key);
    block.AddChar(':');
    AddValue(block, e);
    assert block.Contents() == before + EntryText(e);
    AddComma(block);
    assert before + EntryText(e) + COMMA == before + (EntryText(e) + COMMA);
  }

  method AddComma(block: Block.Block)
    requires block.Valid()
    modifies block, block.data
    ensures block.Valid() && (block.data == old(block.data) || fresh(block.data))
    ensures block.Contents() == old(block.Contents()) + COMMA
  {
    var comma := new char[][',', ' '];
    assert comma[0..2] == COMMA;
    block.AddData(comma, 0, 2);
  }

  method AddValue(block: Block.Block, e: Entry)
    requires block.Valid() && (e.flags.isDict <==> e.value.Nested?)
    requires match e.value case Text(s) => NulFree(s) case Nested(root) => Clean(root)
    modifies block, block.data
    ensures block.Valid() && (block.data == old(block.data) || fresh(block.data))
    ensures block.Contents() == old(block.Contents()) + ValueText(e.value)
    decreases e, 0
  {
    hide Literal, NulFree, JsonText, Clean;
    if e.flags.isDict {
      var tmp := ToJson(e.value.root);
      block.AddBlock(tmp);
    } else {
      AddQuoted(block, e.value.text);
    }
  }

  /** `onion_dict_node_preorder`, which visits the nodes in order. */
  method AddEntries(block: Block.Block, t: Tree)
    requires block.Valid() && Clean(t)
    modifies block, block.data
    ensures block.Valid() && (block.data == old(block.data) || fresh(block.data))
    ensures block.Contents() == old(block.Contents()) + Trailing(Texts(t))
    decreases t, 0
  {
    hide EntryText, Trailing, NulFree;
    ghost var before := block.Contents();
    if t.Nil? {
      TrailingNothing();
      assert before + [] == before;
      return;
    }
    AddEntries(block, t.left);
    AddEntry(block, t.data);
    AddEntries(block, t.right);
    TrailingAround(Texts(t.left), EntryText(t.data), Texts(t.right));
    Regroup(before, Trailing(Texts(t.left)), EntryText(t.data) + COMMA, Trailing(Texts(t.right)));
  }

  lemma Regroup(p: string, a: string, b: string, c: string)
    ensures p + a + b + c == p + (a + b + c)
  {
  }

  lemma TrailingNothing()
    ensures Trailing([]) == []
  {
  }

  lemma TrailingAround(a: seq<string>, x: string, b: seq<string>)
    ensures Trailing(a + [x] + b) == Trailing(a) + (x + COMMA) + Trailing(b)
  {
    TrailingJoins(a + [x], b);
    TrailingJoins(a, [x]);
    assert Trailing([x]) == x + COMMA + Trailing([]);
  }

  /** `onion_dict_to_json` */
  method ToJson(t: Tree) returns (block: Block.Block)
    requires Clean(t)
    ensures fresh(block) && fresh(block.data) && block.Valid() && block.Contents() == JsonText(t)
    decreases t, 1
  {
    hide Trailing, Commas, Clean;
    block := new Block.Block();
    block.AddChar('{');
    AddEntries(block, t);
    ghost var all := Trailing(Texts(t));
    assert block.Contents() == "{" + all;
    TrailingLength(Texts(t));
    if block.size != 1 {
      block.Rewind(2);
      TrailingIsCommas(Texts(t));
      assert ("{" + (Commas(Texts(t)) + COMMA))[..|"{" + all| - 2] == "{" + Commas(Texts(t));
    }
    assert block.Contents() == "{" + Commas(Texts(t));
    block.AddChar('}');
  }

  lemma TrailingLength(ts: seq<string>)
    ensures ts == [] ==> Trailing(ts) == [] && Commas(ts) == []
    ensures ts != [] ==> Trailing(ts) != []
  {
  }
}
