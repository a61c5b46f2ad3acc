/**
 The life of session dictionaries: onion/sessions.c, the session parts of onion/request.c and
 the reference counts of onion/dict.c.  Each method is one atomic step.
 */
module Sessions {
  import opened Wrappers
  import opened CText
  import Quote

  /** The address of a session dictionary. */
  type Ptr = nat

  /** A request object. */
  type Id = nat

  datatype Dict = Dict(refcount: int, items: map<string, string>)

  datatype Request = Request(sessionId: Option<string>, session: Option<Ptr>, cookie: Option<string>)

  const NEW_REQUEST := Request(None, None, None)

  // ------------------------------------------------------------------ the cookie

  const SESSIONID: string := "sessionid="
  const SEMICOLON: string := ";"

  /** `strstr`: the first place of `p` at or after `from`. */
  function Find(s: string, p: string, from: nat): (r: Option<nat>)
    requires from <= |s|
    ensures r.Some? ==> from <= r.value && r.value + |p| <= |s| && s[r.value..r.value + |p|] == p
    decreases |s| - from
  {
    if from + |p| <= |s| && s[from..from + |p|] == p then Some(from)
    else if from == |s| then None
    else Find(s, p, from + 1)
  }

  /** The text up to the next semicolon. */
  function Word(s: string, from: nat): (w: string)
    requires from <= |s|
    ensures from + |w| <= |s| && s[from..from + |w|] == w && ';' !in w
    ensures from + |w| == |s| || s[from + |w|] == ';'
    decreases |s| - from
  {
    if from == |s| || s[from] == ';' then []
    else
      var w := Word(s, from + 1);
      assert s[from..from + 1 + |w|] == [s[from]] + w;
      [s[from]] + w
  }

  lemma SessionIdHasNoSemicolon(s: string, i: nat)
    requires i + |SESSIONID| <= |s| && s[i..i + |SESSIONID|] == SESSIONID
    ensures var j := Find(s, SEMICOLON, i); j.Some? ==> j.value >= i + |SESSIONID|
  {
    var w, j := s[i..i + |SESSIONID|], Find(s, SEMICOLON, i);
    assert ';' !in w;
    assert forall k :: i <= k < i + |SESSIONID| ==> s[k] == w[k - i];
    assert j.Some? ==> s[j.value..j.value + 1][0] == s[j.value] == ';';
  }

  /** The ids a Cookie header offers, in the order they are tried. */
  function Candidates(s: string, v: nat): seq<string>
    requires v <= |s|
    decreases |s| - v
  {
    var i := Find(s, SESSIONID, v);
    if i.None? then []
    else if i.value > 0 && Quote.IsAlnum(s[i.value - 1]) then
      var j := Find(s, SEMICOLON, i.value);
      if j.None? then []
      else
        SessionIdHasNoSemicolon(s, i.value);
        Candidates(s, j.value)
    else [Word(s, i.value + |SESSIONID|)] + Candidates(s, i.value + |SESSIONID|)
  }

  /** The first candidate that is a session. */
  function FirstKnown(ids: seq<string>, known: set<string>): (r: Option<string>)
    ensures r.Some? ==> r.value in known && r.value in ids
    ensures r.None? ==> forall c :: c in ids ==> c !in known
  {
    if ids == [] then None else if ids[0] in known then Some(ids[0]) else FirstKnown(ids[1..], known)
  }

  /** One turn of the scan. */
  lemma CandidatesStep(s: string, v: nat, known: set<string>)
    requires v <= |s|
    ensures var i, c := Find(s, SESSIONID, v), FirstKnown(Candidates(s, v), known);
      if i.None? then c.None?
      else if i.value > 0 && Quote.IsAlnum(s[i.value - 1]) then
        var j := Find(s, SEMICOLON, i.value);
        if j.None? then c.None? else j.value > v && c == FirstKnown(Candidates(s, j.value), known)
      else
        var w := i.value + |SESSIONID|;
        c == if Word(s, w) in known then Some(Word(s, w)) else FirstKnown(Candidates(s, w), known)
  {
    hide Find, Word, Quote.IsAlnum;
    var i := Find(s, SESSIONID, v);
    if i.Some? {
      SessionIdHasNoSemicolon(s, i.value);
      if !(i.value > 0 && Quote.IsAlnum(s[i.value - 1])) {
        var w := i.value + |SESSIONID|;
        assert ([Word(s, w)] + Candidates(s, w))[1..] == Candidates(s, w);
      }
    }
  }

  /**
   `id` stands in the header behind `sessionid=`, up to a semicolon or the end, and no letter or
   digit precedes it.
   */
  ghost predicate Names(s: string, id: string, i: nat) {
    var e := i + |SESSIONID|;
    && e + |id| <= |s| && s[i..e] == SESSIONID && s[e..e + |id|] == id
    && ';' !in id && (e + |id| == |s| || s[e + |id|] == ';') && (i > 0 ==> !Quote.IsAlnum(s[i - 1]))
  }

  /** No candidate stands elsewhere. */
  lemma {:induction false} CandidatesAreNamed(s: string, v: nat, id: string)
    requires v <= |s| && id in Candidates(s, v)
    ensures exists i: nat :: Names(s, id, i)
    decreases |s| - v
  {
    hide Word, Quote.IsAlnum, Find;
    var i := Find(s, SESSIONID, v);
    if i.value > 0 && Quote.IsAlnum(s[i.value - 1]) {
      SessionIdHasNoSemicolon(s, i.value);
      CandidatesAreNamed(s, Find(s, SEMICOLON, i.value).value, id);
    } else if id == Word(s, i.value + |SESSIONID|) {
      assert Names(s, id, i.value);
    } else {
      CandidatesAreNamed(s, i.value + |SESSIONID|, id);
    }
  }

  // ------------------------------------------------------------------ which cookies are meant

  /** The text `sessionid=` stands at `i`. */
  predicate At(s: string, i: nat) {
    i + |SESSIONID| <= |s| && s[i..i + |SESSIONID|] == SESSIONID
  }

  /** ... as the end of a longer name. */
  predicate Glued(s: string, i: nat) {
    At(s, i) && i > 0 && Quote.IsAlnum(s[i - 1])
  }

  ghost predicate Parted(s: string, k: nat, i: nat)
    requires i <= |s|
  {
    exists j :: k < j < i && s[j] == ';'
  }

  /** The scan takes what follows: it looks like a name of its own, and no longer name spoils its part of the header. */
  ghost predicate Offers(s: string, i: nat) {
    At(s, i) && !Glued(s, i) && forall k: nat :: k < i && Glued(s, k) ==> Parted(s, k, i)
  }

  /** A cookie begins here: at the start, or behind a semicolon and spaces. */
  predicate Begins(s: string, i: nat)
    requires i <= |s|
  {
    i == 0 || s[i - 1] == ';' || (s[i - 1] == ' ' && Begins(s, i - 1))
  }

  /** A cookie called sessionid. */
  predicate IsCookie(s: string, i: nat) {
    At(s, i) && Begins(s, i)
  }

  /** The values of the cookies called sessionid, from `i` on. */
  function CookieValues(s: string, i: nat): seq<string>
    decreases |s| - i
  {
    if i >= |s| then []
    else (if IsCookie(s, i) then [Word(s, i + |SESSIONID|)] else []) + CookieValues(s, i + 1)
  }

  ghost function Offered(s: string, i: nat): seq<string>
    decreases |s| - i
  {
    if i >= |s| then []
    else (if Offers(s, i) then [Word(s, i + |SESSIONID|)] else []) + Offered(s, i + 1)
  }

  lemma {:induction false} FindIsFirst(s: string, p: string, from: nat, k: nat)
    requires from <= k && k + |p| <= |s| && s[k..k + |p|] == p
    ensures Find(s, p, from).Some? && Find(s, p, from).value <= k
    decreases |s| - from
  {
    if s[from..from + |p|] == p {
    } else {
      FindIsFirst(s, p, from + 1, k);
    }
  }

  lemma {:induction false} PartedBefore(s: string, i: nat, k: nat)
    requires k < i <= |s| && Begins(s, i) && s[k] != ' ' && s[k] != ';'
    ensures Parted(s, k, i)
  {
    if s[i - 1] == ';' {
      assert k < i - 1;
    } else {
      PartedBefore(s, i - 1, k);
    }
  }

  lemma AtStartsWithS(s: string, i: nat)
    requires At(s, i)
    ensures s[i] == 's'
  {
    assert s[i] == s[i..i + |SESSIONID|][0];
  }

  lemma CookieIsOffered(s: string, i: nat)
    requires IsCookie(s, i)
    ensures Offers(s, i)
  {
    forall k: nat | k < i && Glued(s, k) ensures Parted(s, k, i) {
      AtStartsWithS(s, k);
      PartedBefore(s, i, k);
    }
  }

  /** Every cookie called sessionid is offered; nothing else is exactly when all that is offered are such cookies. */
  lemma {:induction false} OfferedAreCookies(s: string, i: nat)
    ensures |CookieValues(s, i)| <= |Offered(s, i)|
    ensures forall id :: id in CookieValues(s, i) ==> id in Offered(s, i)
    ensures Offered(s, i) == CookieValues(s, i) <==> forall j: nat :: i <= j < |s| && Offers(s, j) ==> IsCookie(s, j)
    ensures |Offered(s, i)| == |CookieValues(s, i)| ==> Offered(s, i) == CookieValues(s, i)
    decreases |s| - i
  {
    hide Offers, IsCookie, Word;
    if i >= |s| {
    } else {
      OfferedAreCookies(s, i + 1);
      if IsCookie(s, i) {
        CookieIsOffered(s, i);
      }
      assert (forall j: nat :: i <= j < |s| && Offers(s, j) ==> IsCookie(s, j)) <==>
        (Offers(s, i) ==> IsCookie(s, i)) && (forall j: nat :: i + 1 <= j < |s| && Offers(s, j) ==> IsCookie(s, j));
    }
  }

  /** Nothing is offered from `v` up to `w`. */
  lemma {:induction false} NothingOffered(s: string, v: nat, w: nat)
    requires v <= w <= |s| && forall j: nat :: v <= j < w ==> !Offers(s, j)
    ensures Offered(s, v) == Offered(s, w)
    decreases w - v
  {
    hide Offers;
    if v == w {
    } else {
      NothingOffered(s, v + 1, w);
    }
  }

  /** No longer name spoils the place `v`. */
  ghost predicate Unspoilt(s: string, v: nat)
    requires v <= |s|
  {
    forall k: nat :: k < v && Glued(s, k) ==> Parted(s, k, v) || (v < |s| && s[v] == ';')
  }

  lemma NoOverlap(s: string, i: nat, j: nat)
    requires At(s, i) && i < j < i + |SESSIONID|
    ensures !At(s, j)
  {
    var w := s[i..i + |SESSIONID|];
    assert s[j] == w[j - i] && (j + 1 < i + |SESSIONID| ==> s[j + 1] == w[j - i + 1]);
  }

  /** Up to the first place where the text stands nothing is offered. */
  lemma OfferedFromFirst(s: string, v: nat)
    requires v <= |s|
    ensures var i := Find(s, SESSIONID, v);
      if i.None? then Offered(s, v) == [] else Offered(s, v) == Offered(s, i.value)
  {
    hide Find;
    var i := Find(s, SESSIONID, v);
    var w := if i.None? then |s| else i.value;
    forall j: nat | v <= j < w ensures !At(s, j) {
      if At(s, j) { FindIsFirst(s, SESSIONID, v, j); }
    }
    NothingOffered(s, v, w);
  }

  /** Behind a longer name nothing is offered up to the next semicolon. */
  lemma OfferedBehindGlued(s: string, i: nat)
    requires Glued(s, i)
    ensures var j := Find(s, SEMICOLON, i);
      if j.None? then Offered(s, i) == []
      else i < j.value <= |s| && Offered(s, i) == Offered(s, j.value) && s[j.value] == ';'
  {
    var j := Find(s, SEMICOLON, i);
    hide Find, Glued, At;
    var w := if j.None? then |s| else j.value;
    if j.Some? {
      assert s[j.value] == s[j.value..j.value + 1][0];
      GluedIsAt(s, i);
    }
    forall k: nat | i <= k < w ensures !Offers(s, k) {
      forall m | i < m < k ensures s[m] != ';' {
        if s[m] == ';' {
          assert s[m..m + 1] == SEMICOLON;
          FindIsFirst(s, SEMICOLON, i, m);
        }
      }
    }
    NothingOffered(s, i, w);
  }

  lemma GluedIsAt(s: string, i: nat)
    requires Glued(s, i)
    ensures s[i] == 's'
  {
    AtStartsWithS(s, i);
  }

  lemma TakenIsOffered(s: string, v: nat, i: nat)
    requires v <= i && v <= |s| && Unspoilt(s, v) && At(s, i) && !Glued(s, i)
    requires forall k: nat :: v <= k < i ==> !At(s, k)
    ensures Offers(s, i)
  {
    AtStartsWithS(s, i);
    forall k: nat | k < i && Glued(s, k) ensures Parted(s, k, i) {
      if Parted(s, k, v) {
      } else {
        assert s[v] == ';' && k < v < i;
      }
    }
  }

  lemma SemicolonFrees(s: string, v: nat)
    requires v < |s| && s[v] == ';'
    ensures Unspoilt(s, v)
  {
  }

  lemma FoundFirst(s: string, v: nat)
    requires v <= |s| && Find(s, SESSIONID, v).Some?
    ensures var i := Find(s, SESSIONID, v).value;
      At(s, i) && v <= i && forall k: nat :: v <= k < i ==> !At(s, k)
  {
    var i := Find(s, SESSIONID, v).value;
    forall k: nat | v <= k < i ensures !At(s, k) {
      if At(s, k) { FindIsFirst(s, SESSIONID, v, k); }
    }
  }

  lemma OffersAt(s: string, i: nat)
    requires Offers(s, i)
    ensures At(s, i)
  {
  }

  /** Past a taken name the place stays unspoilt. */
  lemma StaysUnspoilt(s: string, v: nat, i: nat)
    requires v <= i && v <= |s| && Unspoilt(s, v) && At(s, i) && !Glued(s, i)
    requires forall k: nat :: v <= k < i ==> !At(s, k)
    ensures Unspoilt(s, i + |SESSIONID|)
  {
    TakenIsOffered(s, v, i);
    forall k: nat | k < i + |SESSIONID| && Glued(s, k) ensures Parted(s, k, i + |SESSIONID|) {
      if k > i {
        NoOverlap(s, i, k);
      } else {
        assert Parted(s, k, i);
      }
    }
  }

  /** The scan tries what is offered, in order. */
  lemma {:induction false} CandidatesAreOffered(s: string, v: nat)
    requires v <= |s| && Unspoilt(s, v)
    ensures Candidates(s, v) == Offered(s, v)
    decreases |s| - v
  {
    hide Find, Word, Quote.IsAlnum, Offers, Unspoilt;
    var i := Find(s, SESSIONID, v);
    OfferedFromFirst(s, v);
    if i.None? {
    } else if Glued(s, i.value) {
      var j := Find(s, SEMICOLON, i.value);
      OfferedBehindGlued(s, i.value);
      if j.Some? {
        SemicolonFrees(s, j.value);
        CandidatesAreOffered(s, j.value);
      }
    } else {
      var w := i.value + |SESSIONID|;
      FoundFirst(s, v);
      TakenIsOffered(s, v, i.value);
      forall j: nat | i.value + 1 <= j < w ensures !Offers(s, j) {
        NoOverlap(s, i.value, j);
        if Offers(s, j) { OffersAt(s, j); }
      }
      NothingOffered(s, i.value + 1, w);
      StaysUnspoilt(s, v, i.value);
      CandidatesAreOffered(s, w);
    }
  }

  /**
   The values tried for a session id are those of the cookies called sessionid, all of them
   and in order, exactly when nothing that is offered stands elsewhere in the header.
   */
  lemma CandidatesAreCookies(s: string)
    ensures forall id :: id in CookieValues(s, 0) ==> id in Candidates(s, 0)
    ensures Candidates(s, 0) == CookieValues(s, 0) <==> forall i: nat :: i < |s| && Offers(s, i) ==> IsCookie(s, i)
  {
    hide Offers, IsCookie;
    CandidatesAreOffered(s, 0);
    OfferedAreCookies(s, 0);
  }

  lemma {:induction false} NoCookies(s: string, i: nat)
    requires forall j: nat :: i <= j < |s| ==> !IsCookie(s, j)
    ensures CookieValues(s, i) == []
    decreases |s| - i
  {
    hide IsCookie;
    if i >= |s| {
    } else {
      NoCookies(s, i + 1);
    }
  }

  lemma WordToEnd(s: string, i: nat)
    requires i <= |s| && ';' !in s[i..]
    ensures Word(s, i) == s[i..]
  {
    var w := Word(s, i);
    assert i + |w| == |s|;
  }

  lemma OnlyAtTwo(s: string)
    requires |SESSIONID| + 2 <= |s| < 2 * |SESSIONID| + 2 && s[0] != 's' && s[1] != 's'
    requires s[2..2 + |SESSIONID|] == SESSIONID
    ensures |SESSIONID| == 10 && forall j: nat :: At(s, j) ==> j == 2
    ensures Find(s, SESSIONID, 0) == Some(2) && Find(s, SESSIONID, 12) == None
  {
    assert At(s, 2);
    forall j: nat | At(s, j) ensures j == 2 {
      AtStartsWithS(s, j);
      if j > 2 { NoOverlap(s, 2, j); }
    }
    FindIsFirst(s, SESSIONID, 0, 2);
    FoundFirst(s, 0);
  }

  lemma TakenAtTwo(s: string, id: string)
    requires |SESSIONID| + 2 <= |s| < 2 * |SESSIONID| + 2 && s[0] != 's' && s[2..2 + |SESSIONID|] == SESSIONID
    requires s[1] != 's' && s[1] != ';' && s[1] != ' ' && !Quote.IsAlnum(s[1])
    requires s[2 + |SESSIONID|..] == id && ';' !in id
    ensures Candidates(s, 0) == [id] && CookieValues(s, 0) == []
  {
    hide Quote.IsAlnum, Word, CookieValues, Find, At;
    OnlyAtTwo(s);
    WordToEnd(s, 12);
    assert Candidates(s, 12) == [];
    assert Candidates(s, 0) == [id] + Candidates(s, 12);
    NoCookies(s, 0);
  }

  /**
   A cookie of another name may be taken for a session id: with `x` and `y` as in
   `a=sessionid=b` or `x_sessionid=b` the header has no cookie called sessionid, and `b` is tried.
   */
  lemma OtherCookiesAreTaken(x: char, y: char, id: string)
    requires x != 's' && y != 's' && y != ';' && y != ' ' && !Quote.IsAlnum(y) && |id| < |SESSIONID| && ';' !in id
    ensures Candidates([x, y] + SESSIONID + id, 0) == [id] && CookieValues([x, y] + SESSIONID + id, 0) == []
  {
    hide *;
    Pasted(x, y, SESSIONID, id);
    TakenAtTwo([x, y] + SESSIONID + id, id);
  }

  lemma Pasted(x: char, y: char, m: string, id: string)
    ensures var s := [x, y] + m + id;
      |s| == 2 + |m| + |id| && s[0] == x && s[1] == y && s[2..2 + |m|] == m && s[2 + |m|..] == id
  {
  }

  // ------------------------------------------------------------------ counting

  /** The requests that hold the dictionary at `p`. */
  function Holders(requests: map<Id, Request>, p: Ptr): set<Id> {
    set r | r in requests && requests[r].session == Some(p)
  }

  function Stored(store: map<string, Ptr>, p: Ptr): nat {
    if p in store.Values then 1 else 0
  }

  lemma HoldersChange(requests: map<Id, Request>, r: Id, q: Request, p: Ptr)
    ensures var was := r in requests && requests[r].session == Some(p);
      |Holders(requests[r := q], p)| ==
        |Holders(requests, p)| - (if was then 1 else 0) + if q.session == Some(p) then 1 else 0
  {
    var h := Holders(requests, p);
    if q.session == Some(p) {
      assert Holders(requests[r := q], p) == h + {r};
    } else {
      assert Holders(requests[r := q], p) == h - {r};
    }
  }

  lemma HoldersLoss(requests: map<Id, Request>, r: Id, p: Ptr)
    requires r in requests
    ensures |Holders(requests - {r}, p)| == |Holders(requests, p)| - if requests[r].session == Some(p) then 1 else 0
  {
    assert Holders(requests - {r}, p) == Holders(requests, p) - {r};
  }

  // ------------------------------------------------------------------ the server

  /** No two sessions share a dictionary. */
  ghost predicate OneEach(store: map<string, Ptr>) {
    forall a, b :: a in store && b in store && store[a] == store[b] ==> a == b
  }

  /** What is stored or held exists, and a held id is not that of another session. */
  ghost predicate SoundAre(store: map<string, Ptr>, heap: map<Ptr, Dict>, requests: map<Id, Request>, brk: Ptr,
                           used: set<string>)
  {
    && OneEach(store) && store.Keys <= used
    && (forall id :: id in store ==> store[id] in heap)
    && (forall r :: r in requests ==>
          && (requests[r].session.Some? <==> requests[r].sessionId.Some?)
          && (requests[r].session.Some? ==> requests[r].session.value in heap && requests[r].sessionId.value in used)
          && (requests[r].session.Some? && requests[r].sessionId.value in store ==>
                store[requests[r].sessionId.value] == requests[r].session.value))
    && (forall p :: p in heap ==> p < brk)
  }

  /** Less stored and held, and nothing of it gone. */
  lemma SoundStays(store: map<string, Ptr>, heap: map<Ptr, Dict>, requests: map<Id, Request>, brk: Ptr,
                   used: set<string>, store0: map<string, Ptr>, heap0: map<Ptr, Dict>, requests0: map<Id, Request>)
    requires SoundAre(store0, heap0, requests0, brk, used) && heap.Keys <= heap0.Keys
    requires forall id :: id in store ==> id in store0 && store[id] == store0[id] && store[id] in heap
    requires forall r :: r in requests ==> r in requests0
    requires forall r :: r in requests ==>
      || (requests[r].session.None? && requests[r].sessionId.None?)
      || (requests[r] == requests0[r] && (requests[r].session.Some? ==> requests[r].session.value in heap))
    ensures SoundAre(store, heap, requests, brk, used)
  {
  }

  lemma SoundWithout(store: map<string, Ptr>, heap: map<Ptr, Dict>, requests: map<Id, Request>, brk: Ptr,
                     used: set<string>, r: Id)
    requires SoundAre(store, heap, requests, brk, used)
    ensures SoundAre(store, heap, requests - {r}, brk, used)
  {
  }

  class Server {
    /** sessions->sessions */
    var store: map<string, Ptr>
    /** The dictionaries that have not been destroyed; any other address is out of bounds. */
    var heap: map<Ptr, Dict>
    var requests: map<Id, Request>
    var brk: Ptr
    ghost var used: set<string>

    ghost predicate Sound()
      reads this
    {
      SoundAre(store, heap, requests, brk, used)
    }

    /** Each dictionary counts the store and the requests that hold it, and is there for no one else. */
    ghost predicate Counted()
      reads this
    {
      forall p :: p in heap ==>
        heap[p].refcount == Stored(store, p) + |Holders(requests, p)| && heap[p].refcount > 0
    }

    ghost predicate Valid()
      reads this
    {
      Sound() && Counted()
    }

    constructor ()
      ensures Valid() && store == map[] && heap == map[] && requests == map[] && used == {}
    {
      store, heap, requests, brk, used := map[], map[], map[], 0, {};
    }

    /** `onion_dict_dup` */
    method DictDup(p: Ptr)
      requires p in heap
      modifies this`heap
      ensures heap == old(heap)[p := old(heap)[p].(refcount := old(heap)[p].refcount + 1)]
    {
      heap := heap[p := heap[p].(refcount := heap[p].refcount + 1)];
    }

    /** `onion_dict_free`: destroys the dictionary when nothing refers to it any more. */
    method DictFree(p: Ptr)
      requires p in heap
      modifies this`heap
      ensures var n := old(heap)[p].refcount - 1;
        heap == if n == 0 then old(heap) - {p} else old(heap)[p := old(heap)[p].(refcount := n)]
    {
      var d := heap[p].(refcount := heap[p].refcount - 1);
      heap := heap[p := d];
      if d.refcount == 0 {
        heap := heap - {p};
        assert heap == old(heap) - {p};
      }
    }

    /** `onion_sessions_create` with the id it has generated. */
    method Create(id: string)
      requires Valid() && id !in used
      modifies this`store, this`heap, this`brk, this`used
      ensures Valid() && store == old(store)[id := old(brk)] && heap == old(heap)[old(brk) := Dict(1, map[])]
      ensures used == old(used) + {id}
    {
      hide Holders, Stored;
      ghost var store0, data := store, brk;
      NotHeld(data);
      heap := heap[brk := Dict(1, map[])];
      store := store[id := brk];
      brk := brk + 1;
      used := used + {id};
      forall p | p in heap
        ensures heap[p].refcount == Stored(store, p) + |Holders(requests, p)| && heap[p].refcount > 0 {
        StoredAfterAdd(store0, id, data, p);
      }
    }

    lemma NotHeld(p: Ptr)
      requires Sound() && p !in heap
      ensures Holders(requests, p) == {} && p !in store.Values
    {
      assert forall r :: r in requests ==> requests[r].session != Some(p);
    }

    /** `onion_sessions_get`: one more reference, the caller's. */
    method Get(id: string) returns (p: Option<Ptr>)
      requires Sound()
      modifies this`heap
      ensures p == if id in store then Some(store[id]) else None
      ensures p.None? ==> heap == old(heap)
      ensures p.Some? ==> p.value in old(heap)
      ensures p.Some? ==> heap == old(heap)[p.value := old(heap)[p.value].(refcount := old(heap)[p.value].refcount + 1)]
    {
      if id !in store {
        return None;
      }
      DictDup(store[id]);
      p := Some(store[id]);
    }

    /** `onion_sessions_remove` */
    method Remove(id: string)
      requires Valid()
      modifies this`store, this`heap
      ensures Valid() && store == old(store) - {id}
      ensures forall p :: p in heap ==> p in old(heap) && heap[p].items == old(heap)[p].items
    {
      hide Holders, Stored;
      if id in store {
        ghost var store0, heap0 := store, heap;
        var data := store[id];
        DictFree(data);
        store := store - {id};
        forall p | p in heap
          ensures heap[p].refcount == Stored(store, p) + |Holders(requests, p)| && heap[p].refcount > 0
        {
          StoredAfterLoss(store0, id, p);
          assert p in heap0;
        }
        StoredAfterLoss(store0, id, data);
        StillThere(heap0, data);
        SoundStays(store, heap, requests, brk, used, store0, heap0, requests);
      } else {
        assert store - {id} == store;
      }
    }

    /** A dictionary with a holder survives the loss of another reference. */
    lemma StillThere(heap0: map<Ptr, Dict>, p: Ptr)
      requires p in heap0 && heap0[p].refcount == 1 + |Holders(requests, p)|
      ensures Holders(requests, p) != {} ==> heap0[p].refcount - 1 != 0
      ensures forall r :: r in requests && requests[r].session == Some(p) ==> heap0[p].refcount - 1 != 0
    {
      if r :| r in requests && requests[r].session == Some(p) {
        assert r in Holders(requests, p);
      }
    }

    // -------------------------------------------------------------- requests

    /** The request takes over one reference to `p`, which has been counted already. */
    method Attach(r: Id, id: string, p: Ptr, ghost heap0: map<Ptr, Dict>)
      requires r in requests && requests[r].session.None? && p in heap0
      requires heap == heap0[p := heap0[p].(refcount := heap0[p].refcount + 1)]
      requires Sound() && id in store && store[id] == p
      requires forall q :: q in heap0 ==>
        heap0[q].refcount == Stored(store, q) + |Holders(requests, q)| && heap0[q].refcount > 0
      modifies this`requests
      ensures Valid()
      ensures requests == old(requests)[r := old(requests)[r].(sessionId := Some(id), session := Some(p))]
    {
      hide Holders, Stored;
      ghost var requests0 := requests;
      requests := requests[r := requests[r].(sessionId := Some(id), session := Some(p))];
      forall q | q in heap
        ensures heap[q].refcount == Stored(store, q) + |Holders(requests, q)| && heap[q].refcount > 0 {
        HoldersChange(requests0, r, requests[r], q);
      }
    }

    /** The request gives its reference back: `onion_dict_free(req->session)` and the id with it. */
    method Detach(r: Id)
      requires Valid() && r in requests && requests[r].session.Some?
      modifies this`requests, this`heap
      ensures Valid() && requests == old(requests)[r := old(requests)[r].(sessionId := None, session := None)]
      ensures forall p :: p in heap ==> p in old(heap) && heap[p].items == old(heap)[p].items
    {
      hide Holders, Stored;
      ghost var requests0, heap0 := requests, heap;
      var p := requests[r].session.value;
      DictFree(p);
      requests := requests[r := requests[r].(sessionId := None, session := None)];
      forall q | q in heap
        ensures heap[q].refcount == Stored(store, q) + |Holders(requests, q)| && heap[q].refcount > 0 {
        HoldersChange(requests0, r, requests[r], q);
      }
      HoldersChange(requests0, r, requests[r], p);
      Needed(p, heap0[p].refcount - 1);
      SoundStays(store, heap, requests, brk, used, store, heap0, requests0);
    }

    /** A count that is not yet zero stands for someone. */
    lemma Needed(p: Ptr, n: int)
      requires n == Stored(store, p) + |Holders(requests, p)|
      ensures n == 0 <==> p !in store.Values && Holders(requests, p) == {}
      ensures n == 0 ==> forall r :: r in requests ==> requests[r].session != Some(p)
      ensures n == 0 ==> forall id :: id in store ==> store[id] != p
    {
      forall r | r in requests && requests[r].session == Some(p) ensures n != 0 {
        assert r in Holders(requests, p);
      }
      forall id | id in store && store[id] == p ensures n != 0 {
        assert p in store.Values;
      }
    }

    /** What the guess will find. */
    ghost function Known(r: Id): Option<string>
      requires r in requests
      reads this
    {
      if requests[r].cookie.None? then None else FirstKnown(Candidates(requests[r].cookie.value, 0), store.Keys)
    }

    /** `p` was `id`'s dictionary, and has one more reference now. */
    ghost predicate Got(heap0: map<Ptr, Dict>, id: string, p: Option<Ptr>)
      reads this
    {
      && id in store && p == Some(store[id]) && store[id] in heap0
      && heap == heap0[store[id] := heap0[store[id]].(refcount := heap0[store[id]].refcount + 1)]
    }

    /** The scan of `onion_request_guess_session_id`, up to the first session it gets hold of. */
    method Scan(ov: string) returns (word: string, session: Option<Ptr>)
      requires Sound()
      modifies this`heap
      ensures var c := FirstKnown(Candidates(ov, 0), store.Keys);
        if c.None? then session.None? && heap == old(heap) else c == Some(word) && Got(old(heap), word, session)
    {
      hide Find, Word, Quote.IsAlnum, Candidates, FirstKnown;
      word, session := [], None;
      var v: nat := 0;
      ghost var c := FirstKnown(Candidates(ov, 0), store.Keys);
      while session.None?
        invariant v <= |ov|
        invariant session.None? ==> heap == old(heap) && c == FirstKnown(Candidates(ov, v), store.Keys)
        invariant session.Some? ==> c == Some(word) && Got(old(heap), word, session)
        decreases session.None?, |ov| - v
      {
        CandidatesStep(ov, v, store.Keys);
        var i := Find(ov, SESSIONID, v);
        if i.None? {
          return;
        }
        if i.value > 0 && Quote.IsAlnum(ov[i.value - 1]) {
          var j := Find(ov, SEMICOLON, i.value);
          if j.None? {
            return;
          }
          v := j.value;
        } else {
          v := i.value + |SESSIONID|;
          word := Word(ov, v);
          session := Get(word);
        }
      }
    }

    /** `onion_request_guess_session_id` */
    method Guess(r: Id)
      requires Valid() && r in requests
      modifies this`requests, this`heap
      ensures Valid() && heap.Keys == old(heap.Keys) && forall p :: p in heap ==> heap[p].items == old(heap)[p].items
      ensures var q, c := old(requests)[r], old(Known(r));
        requests == if q.sessionId.Some? || c.None? then old(requests)
                    else old(requests)[r := q.(sessionId := c, session := Some(store[c.value]))]
    {
      hide Candidates, Holders, Stored;
      if requests[r].sessionId.Some? || requests[r].cookie.None? {
        return;
      }
      ghost var heap0 := heap;
      var word, session := Scan(requests[r].cookie.value);
      if session.Some? {
        Attach(r, word, session.value, heap0);
      }
    }

    /** A session of the request's own. */
    method StartSession(r: Id, id: string)
      requires Valid() && r in requests && requests[r].session.None? && id !in used
      modifies this
      ensures Valid() && used == old(used) + {id} && store == old(store)[id := old(brk)]
      ensures old(brk) !in old(heap) && heap == old(heap)[old(brk) := Dict(2, map[])]
      ensures requests == old(requests)[r := old(requests)[r].(sessionId := Some(id), session := Some(old(brk)))]
    {
      hide Holders, Stored;
      Create(id);
      ghost var heap0 := heap;
      var session := Get(id);
      Attach(r, id, session.value, heap0);
    }

    /** `onion_request_get_session_dict`; `id` is the id a new session would get. */
    method GetSessionDict(r: Id, id: string) returns (p: Ptr)
      requires Valid() && r in requests && id !in used
      modifies this
      ensures Valid() && p in heap && requests.Keys == old(requests.Keys) && requests[r].session == Some(p)
      ensures forall q :: q in requests && q != r ==> requests[q] == old(requests)[q]
      ensures forall q :: q in old(heap) ==> q in heap && heap[q].items == old(heap)[q].items
      ensures used <= old(used) + {id}
      ensures old(requests)[r].session.Some? ==> requests == old(requests) && store == old(store)
      ensures old(requests)[r].session.None? ==>
        match old(Known(r))
        case Some(c) => store == old(store) && p == store[c] && requests[r].sessionId == Some(c)
        case None =>
          store == old(store)[id := p] && p !in old(heap) && heap[p].items == map[] && requests[r].sessionId == Some(id)
    {
      hide Holders, Stored, Candidates;
      if requests[r].session.None? {
        Guess(r);
        if requests[r].session.None? {
          StartSession(r, id);
        }
      }
      p := requests[r].session.value;
    }

    /** `onion_request_session_free` */
    method SessionFree(r: Id)
      requires Valid() && r in requests
      modifies this`requests, this`heap, this`store
      ensures Valid()
      ensures requests == old(requests)[r := old(requests)[r].(sessionId := None, session := None)]
      ensures forall p :: p in heap ==> p in old(heap) && heap[p].items == old(heap)[p].items
      ensures var id := if old(requests)[r].sessionId.Some? then old(requests)[r].sessionId else old(Known(r));
        store == if id.Some? then old(store) - {id.value} else old(store)
    {
      hide Holders, Stored, Candidates;
      if requests[r].sessionId.None? {
        Guess(r);
      }
      if requests[r].sessionId.Some? {
        Remove(requests[r].sessionId.value);
        Detach(r);
      } else {
        assert requests == old(requests)[r := old(requests)[r].(sessionId := None, session := None)];
      }
    }

    /** The session part of `onion_request_clean`: an empty session is not worth keeping. */
    method Clean(r: Id)
      requires Valid() && r in requests
      modifies this`requests, this`heap, this`store
      ensures Valid() && requests == old(requests)[r := NEW_REQUEST]
      ensures forall p :: p in heap ==> p in old(heap) && heap[p].items == old(heap)[p].items
      ensures var q := old(requests)[r];
        store == if q.session.Some? && old(heap)[q.session.value].items == map[] then old(store) - {q.sessionId.value}
                 else old(store)
    {
      hide Holders, Stored, Candidates;
      Release(r);
      DropCookie(r);
    }

    /** The request lets its session go, and the store too if nothing is in it. */
    method Release(r: Id)
      requires Valid() && r in requests
      modifies this`requests, this`heap, this`store
      ensures Valid() && requests == old(requests)[r := old(requests)[r].(sessionId := None, session := None)]
      ensures forall p :: p in heap ==> p in old(heap) && heap[p].items == old(heap)[p].items
      ensures var q := old(requests)[r];
        store == if q.session.Some? && old(heap)[q.session.value].items == map[] then old(store) - {q.sessionId.value}
                 else old(store)
    {
      hide Holders, Stored, Candidates;
      if requests[r].session.Some? {
        if |heap[requests[r].session.value].items| == 0 {
          SessionFree(r);
        } else {
          Detach(r);
        }
      } else {
        assert requests == old(requests)[r := old(requests)[r].(sessionId := None, session := None)];
      }
    }

    /** The headers go. */
    method DropCookie(r: Id)
      requires Valid() && r in requests
      modifies this`requests
      ensures Valid() && requests == old(requests)[r := old(requests)[r].(cookie := None)]
    {
      SetRequest(r, requests[r].(cookie := None));
    }

    /** Any change of a request that leaves its session alone. */
    method SetRequest(r: Id, q: Request)
      requires Valid() && (r in requests ==> q.session == requests[r].session && q.sessionId == requests[r].sessionId)
      requires r !in requests ==> q.session.None? && q.sessionId.None?
      modifies this`requests
      ensures Valid() && requests == old(requests)[r := q]
    {
      hide Holders, Stored;
      ghost var requests0 := requests;
      requests := requests[r := q];
      forall p | p in heap
        ensures heap[p].refcount == Stored(store, p) + |Holders(requests, p)| && heap[p].refcount > 0 {
        HoldersChange(requests0, r, q, p);
      }
    }

    /** `onion_request_new`, or the next request on a connection, with the Cookie header it brings. */
    method Arrive(r: Id, cookie: Option<string>)
      requires Valid() && (r in requests ==> requests[r] == NEW_REQUEST)
      modifies this`requests
      ensures Valid() && requests == old(requests)[r := NEW_REQUEST.(cookie := cookie)]
    {
      SetRequest(r, NEW_REQUEST.(cookie := cookie));
    }

    /** The session part of `onion_request_free`; the headers are gone before it, so there is nothing to guess from. */
    method FreeRequest(r: Id)
      requires Valid() && r in requests
      modifies this`requests, this`heap, this`store
      ensures Valid() && requests == old(requests) - {r}
      ensures forall p :: p in heap ==> p in old(heap) && heap[p].items == old(heap)[p].items
      ensures var q := old(requests)[r];
        store == if q.session.Some? && old(heap)[q.session.value].items == map[] then old(store) - {q.sessionId.value}
                 else old(store)
    {
      hide Holders, Stored, Candidates, SoundAre;
      DropCookie(r);
      Release(r);
      ghost var requests0 := requests;
      requests := requests - {r};
      forall p | p in heap
        ensures heap[p].refcount == Stored(store, p) + |Holders(requests, p)| && heap[p].refcount > 0 {
        HoldersLoss(requests0, r, p);
      }
      SoundWithout(store, heap, requests0, brk, used, r);
    }

    /** A handler writes into its session, which all its holders share. */
    method SetItem(r: Id, key: string, value: string)
      requires Valid() && r in requests && requests[r].session.Some?
      modifies this`heap
      ensures Valid() && heap.Keys == old(heap.Keys)
      ensures var p := requests[r].session.value; heap[p].items == old(heap)[p].items[key := value]
      ensures forall p :: p in heap && Some(p) != requests[r].session ==> heap[p] == old(heap)[p]
    {
      hide Holders, Stored;
      var p := requests[r].session.value;
      heap := heap[p := heap[p].(items := heap[p].items[key := value])];
    }

    /** Exactly the dictionaries that are stored or held have not been destroyed. */
    lemma LiveExactlyWhileReferenced(p: Ptr)
      requires Valid()
      ensures p in heap <==> p in store.Values || Holders(requests, p) != {}
      ensures p in heap ==> heap[p].refcount == Stored(store, p) + |Holders(requests, p)|
    {
      if p in heap {
        Needed(p, heap[p].refcount);
      } else {
        NotHeld(p);
      }
    }

    /** Once no request is left and no session stored, no dictionary is left either. */
    lemma NothingLeaks()
      requires Valid() && requests == map[] && store == map[]
      ensures heap == map[]
    {
      forall p | p in heap ensures false {
        LiveExactlyWhileReferenced(p);
      }
    }

    /** `onion_sessions_free`: the store lets all its sessions go. */
    method Shutdown()
      requires Valid()
      modifies this`store, this`heap
      ensures Valid() && store == map[]
      ensures forall p :: p in heap <==> Holders(requests, p) != {}
      ensures forall p :: p in heap ==> p in old(heap) && heap[p].items == old(heap)[p].items
    {
      hide Holders, Stored;
      while store != map[]
        invariant Valid() && forall p :: p in heap ==> p in old(heap) && heap[p].items == old(heap)[p].items
        decreases |store|
      {
        var id :| id in store;
        assert |store - {id}| < |store| by { assert store.Keys == (store - {id}).Keys + {id}; }
        Remove(id);
      }
      forall p ensures p in heap <==> Holders(requests, p) != {} {
        LiveExactlyWhileReferenced(p);
      }
    }

    // -------------------------------------------------------------- runs

    method Do(step: Step)
      requires Valid() && (step.Ask? ==> step.id !in used)
      modifies this
      ensures Valid() && used <= old(used) + (if step.Ask? then {step.id} else {})
    {
      hide Holders, Stored, Candidates;
      match step
      case Come(r, cookie) =>
        if r !in requests || requests[r] == NEW_REQUEST {
          Arrive(r, cookie);
        }
      case Ask(r, id) =>
        if r in requests {
          var p := GetSessionDict(r, id);
        }
      case Store(r, key, value) =>
        if r in requests && requests[r].session.Some? {
          SetItem(r, key, value);
        }
      case Forget(r) =>
        if r in requests {
          SessionFree(r);
        }
      case Reuse(r) =>
        if r in requests {
          Clean(r);
        }
      case Leave(r) =>
        if r in requests {
          FreeRequest(r);
        }
    }
  }

  /** What a connection, its handlers and the server do to a request's session; `id` is the id a new one would get. */
  datatype Step =
    | Come(r: Id, cookie: Option<string>) | Ask(r: Id, id: string) | Store(r: Id, key: string, value: string)
    | Forget(r: Id) | Reuse(r: Id) | Leave(r: Id)

  /** After any run of any requests, with ids that are all different, every count is right and nothing held is gone. */
  method Run(steps: seq<Step>) returns (s: Server)
    requires forall i, j :: 0 <= i < j < |steps| && steps[i].Ask? && steps[j].Ask? ==> steps[i].id != steps[j].id
    ensures fresh(s) && s.Valid()
    ensures forall p :: p in s.heap <==> p in s.store.Values || Holders(s.requests, p) != {}
    ensures forall p :: p in s.heap ==> s.heap[p].refcount == Stored(s.store, p) + |Holders(s.requests, p)|
  {
    hide Holders, Stored, Server.Valid;
    s := new Server();
    for k := 0 to |steps|
      invariant fresh(s) && s.Valid()
      invariant forall i :: k <= i < |steps| && steps[i].Ask? ==> steps[i].id !in s.used
    {
      s.Do(steps[k]);
    }
    forall p
      ensures p in s.heap <==> p in s.store.Values || Holders(s.requests, p) != {}
      ensures p in s.heap ==> s.heap[p].refcount == Stored(s.store, p) + |Holders(s.requests, p)|
    {
      s.LiveExactlyWhileReferenced(p);
    }
  }

  lemma StoredAfterAdd(store: map<string, Ptr>, id: string, p: Ptr, q: Ptr)
    requires id !in store
    ensures Stored(store[id := p], q) == if q == p then 1 else Stored(store, q)
  {
    var s := store[id := p];
    assert s[id] == p;
    assert p in s.Values;
    if q != p && q in store.Values {
      var k :| k in store && store[k] == q;
      assert k in s && s[k] == q;
    }
  }

  lemma StoredAfterLoss(store: map<string, Ptr>, id: string, q: Ptr)
    requires id in store && forall a, b :: a in store && b in store && store[a] == store[b] ==> a == b
    ensures Stored(store - {id}, q) == if q == store[id] then 0 else Stored(store, q)
    ensures Stored(store, store[id]) == 1
  {
    var s := store - {id};
    assert store[id] in store.Values;
    if q != store[id] && q in store.Values {
      var k :| k in store && store[k] == q;
      assert k in s && s[k] == q;
    }
    if q in s.Values {
      var k :| k in s && s[k] == q;
      assert k in store && k != id;
    }
  }
}
