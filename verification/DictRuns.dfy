/**
 Whole runs over one dictionary: what every sequence of additions and removals keeps, the
 finite map it refines, and what becomes of the memory the entries own (onion/dict.c).
 */
module DictRuns {
  import opened Wrappers
  import opened DictKeys
  import opened AATree
  import opened DictOrder

  // ------------------------------------------------------------------ memory

  /** The cells a sequence of entries has to give back. */
  function Held(s: seq<Entry>): multiset<Cell> {
    if s == [] then multiset{} else Held(s[..|s| - 1]) + Owned(s[|s| - 1])
  }

  function Holdings(t: Tree): multiset<Cell> {
    Held(InOrder(t))
  }

  /** What an insertion frees: the entry it overwrites, if any. */
  function Overwritten(o: Order, t: Tree, e: Entry): multiset<Cell> {
    if t.Nil? then multiset{}
    else
      var cmp := Compare(o, e.key, t.data.key);
      if cmp == 0 && e.flags.replace then Owned(t.data)
      else if cmp < 0 then Overwritten(o, t.left, e)
      else Overwritten(o, t.right, e)
  }

  lemma {:induction false} HeldAdds(a: seq<Entry>, b: seq<Entry>)
    ensures Held(a + b) == Held(a) + Held(b)
  {
    if b == [] {
      assert a + b == a;
    } else {
      assert (a + b)[..|a + b| - 1] == a + b[..|b| - 1];
      HeldAdds(a, b[..|b| - 1]);
    }
  }

  lemma HeldAroundRoot(l: seq<Entry>, d: Entry, r: seq<Entry>)
    ensures Held(l + [d] + r) == Held(l) + Owned(d) + Held(r)
  {
    HeldAdds(l + [d], r);
    assert (l + [d])[..|l|] == l;
  }

  lemma HeldUpdate(s: seq<Entry>, i: nat, x: Entry)
    requires i < |s|
    ensures Held(s[i := x]) + Owned(s[i]) == Held(s) + Owned(x)
  {
    hide Owned, Held;
    assert s == s[..i] + [s[i]] + s[i + 1..];
    assert s[i := x] == s[..i] + [x] + s[i + 1..];
    HeldAroundRoot(s[..i], s[i], s[i + 1..]);
    HeldAroundRoot(s[..i], x, s[i + 1..]);
  }

  lemma Exchange(a: multiset<Cell>, b: multiset<Cell>, x: multiset<Cell>, y: multiset<Cell>,
                 z: multiset<Cell>, w: multiset<Cell>)
    requires x + y == z + w
    ensures (a + b + x) + y == (a + b + z) + w
    ensures (x + a + b) + y == (z + a + b) + w
  {
    assert (a + b + x) + y == a + b + (x + y) == (x + a + b) + y;
    assert (a + b + z) + w == a + b + (z + w) == (z + a + b) + w;
  }

  lemma AddedHoldings(n: Tree)
    requires n.Node?
    ensures Holdings(Split(Skew(n))) == Holdings(n.left) + Owned(n.data) + Holdings(n.right)
  {
    hide Held, Owned, Skew, Split;
    AddedBelow(n);
    HeldAroundRoot(InOrder(n.left), n.data, InOrder(n.right));
  }

  lemma HoldingsAroundRoot(t: Tree)
    ensures t.Nil? ==> Holdings(t) == multiset{}
    ensures t.Node? ==> Holdings(t) == Holdings(t.left) + Owned(t.data) + Holdings(t.right)
  {
    if t.Node? {
      HeldAroundRoot(InOrder(t.left), t.data, InOrder(t.right));
    }
  }

  /** Insertion takes over what the new entry owns and gives back what the overwritten one owned. */
  lemma {:induction false} AddConserves(o: Order, t: Tree, e: Entry)
    ensures Holdings(Add(o, t, e)) + Overwritten(o, t, e) == Holdings(t) + Owned(e)
  {
    hide Compare, Owned, Skew, Split, Holdings;
    HoldingsAroundRoot(t);
    HoldingsAroundRoot(Nil);
    if t.Nil? {
      HoldingsAroundRoot(Add(o, t, e));
    } else {
      var cmp := Compare(o, e.key, t.data.key);
      if cmp == 0 && e.flags.replace {
        HoldingsAroundRoot(t.(data := e));
      } else if cmp < 0 {
        AddConserves(o, t.left, e);
        AddedHoldings(t.(left := Add(o, t.left, e)));
        Exchange(Owned(t.data), Holdings(t.right), Holdings(Add(o, t.left, e)), Overwritten(o, t.left, e),
                 Holdings(t.left), Owned(e));
      } else {
        AddConserves(o, t.right, e);
        AddedHoldings(t.(right := Add(o, t.right, e)));
        Exchange(Holdings(t.left), Owned(t.data), Holdings(Add(o, t.right, e)), Overwritten(o, t.right, e),
                 Holdings(t.right), Owned(e));
      }
    }
  }

  lemma HeldDisowned(s: seq<Entry>, i: nat)
    requires i < |s|
    ensures Held(s[i := s[i].(flags := NO_FLAGS)]) + Owned(s[i]) == Held(s)
  {
    hide Held;
    HeldUpdate(s, i, s[i].(flags := NO_FLAGS));
  }

  lemma DisownFirstMovesHoldings(t: Tree)
    requires t.Node?
    ensures Holdings(DisownFirst(t)) + Owned(First(t)) == Holdings(t)
  {
    hide Held, Owned, DisownFirst, First, Size, InOrder;
    DisownFirstInOrder(t);
    HeldDisowned(InOrder(t), 0);
  }

  lemma DisownLastMovesHoldings(t: Tree)
    requires t.Node?
    ensures Holdings(DisownLast(t)) + Owned(Last(t)) == Holdings(t)
  {
    hide Held, Owned, DisownLast, Last, Size, InOrder;
    DisownLastInOrder(t);
    HeldDisowned(InOrder(t), |InOrder(t)| - 1);
  }

  lemma RebalancedHoldings(t: Tree)
    requires t.Node?
    ensures Holdings(Rebalance(t)) == Holdings(t.left) + Owned(t.data) + Holdings(t.right)
  {
    RebalanceKeepsOrder(t);
    HeldAroundRoot(InOrder(t.left), t.data, InOrder(t.right));
  }

  /** Removal gives back or keeps every owned cell, whatever duplicates the tree holds. */
  lemma {:induction false} RemoveConserves(o: Order, t: Tree, key: string)
    ensures var r := Remove(o, t, key); Holdings(r.tree) + r.freed == Holdings(t)
    decreases Size(t)
  {
    hide Compare, Owned, Rebalance, DisownFirst, DisownLast, First, Last, Holdings;
    HoldingsAroundRoot(t);
    HoldingsAroundRoot(Nil);
    if t.Nil? {
    } else {
      var cmp := Compare(o, key, t.data.key);
      if cmp < 0 {
        RemoveConserves(o, t.left, key);
        RebalancedHoldings(t.(left := Remove(o, t.left, key).tree));
      } else if cmp > 0 {
        RemoveConserves(o, t.right, key);
        RebalancedHoldings(t.(right := Remove(o, t.right, key).tree));
      } else if t.left.Nil? && t.right.Nil? {
      } else if t.left.Nil? {
        DisownFirstMovesHoldings(t.right);
        RemoveConserves(o, DisownFirst(t.right), First(t.right).key);
        var r := Remove(o, DisownFirst(t.right), First(t.right).key);
        RebalancedHoldings(t.(data := First(t.right), right := r.tree));
      } else {
        DisownLastMovesHoldings(t.left);
        RemoveConserves(o, DisownLast(t.left), Last(t.left).key);
        RebalancedHoldings(t.(data := Last(t.left), left := Remove(o, DisownLast(t.left), Last(t.left).key).tree));
      }
    }
  }

  // ------------------------------------------------------------------ distinct keys

  lemma DistinctIsSorted(o: Order, s: seq<Entry>)
    requires Distinct(o, s)
    ensures Sorted(o, s)
  {
  }

  lemma DistinctPieces(o: Order, l: seq<Entry>, d: Entry, r: seq<Entry>)
    requires Distinct(o, l + [d] + r)
    ensures Distinct(o, l) && Distinct(o, r)
  {
    hide Compare;
    var s := l + [d] + r;
    forall i, j | 0 <= i < j < |l| ensures Compare(o, l[i].key, l[j].key) < 0 {
      assert s[i] == l[i] && s[j] == l[j];
    }
    forall i, j | 0 <= i < j < |r| ensures Compare(o, r[i].key, r[j].key) < 0 {
      assert s[|l| + 1 + i] == r[i] && s[|l| + 1 + j] == r[j];
    }
  }

  lemma DistinctAroundRoot(o: Order, t: Tree)
    requires t.Node? && Distinct(o, InOrder(t))
    ensures Distinct(o, InOrder(t.left)) && Distinct(o, InOrder(t.right)) && Sorted(o, InOrder(t))
  {
    hide Distinct, Sorted;
    DistinctPieces(o, InOrder(t.left), t.data, InOrder(t.right));
    DistinctIsSorted(o, InOrder(t));
  }

  /** With distinct keys a search returns the one position holding the key. */
  lemma FindUnique(o: Order, t: Tree, i: nat)
    requires Distinct(o, InOrder(t)) && i < Size(t)
    ensures Find(o, t, InOrder(t)[i].key) == Some(i)
  {
    hide Compare;
    var s := InOrder(t);
    FindCorrect(o, t, s[i].key);
    CompareZeroIsCanon(o, s[i].key, s[i].key);
    var f := Find(o, t, s[i].key).value;
    CompareFlips(o, s[f].key, s[i].key);
  }

  /** The entries a removal is meant to leave. */
  function EntriesLeft(o: Order, t: Tree, key: string): seq<Entry> {
    var f := Find(o, t, key);
    if f.Some? then Without(InOrder(t), f.value) else InOrder(t)
  }

  function FreedEntry(o: Order, t: Tree, key: string): multiset<Cell> {
    var f := Find(o, t, key);
    if f.Some? then Owned(InOrder(t)[f.value]) else multiset{}
  }

  lemma EntriesLeftAroundRoot(o: Order, t: Tree, key: string)
    requires t.Node?
    ensures var l, d, r := InOrder(t.left), t.data, InOrder(t.right);
      var cmp := Compare(o, key, t.data.key);
      && EntriesLeft(o, t, key) ==
        (if cmp < 0 then EntriesLeft(o, t.left, key) + [d] + r
         else if cmp > 0 then l + [d] + EntriesLeft(o, t.right, key)
         else l + r)
      && FreedEntry(o, t, key) ==
        (if cmp < 0 then FreedEntry(o, t.left, key)
         else if cmp > 0 then FreedEntry(o, t.right, key)
         else Owned(d))
  {
    hide Compare, Owned, Without;
    var l, d, r := InOrder(t.left), t.data, InOrder(t.right);
    var i := if Compare(o, key, t.data.key) < 0 then Find(o, t.left, key) else Find(o, t.right, key);
    WithoutAroundRoot(l, d, r, if i.Some? then i.value else 0);
  }

  /** Taking the moved entry out of the subtree it came from frees nothing and leaves the rest. */
  lemma {:induction false} RemoveMovedEntry(o: Order, t: Tree, last: bool)
    requires t.Node? && Distinct(o, InOrder(t))
    ensures var s, r := InOrder(t), Remove(o, DisownLast(t), Last(t).key);
      last ==> r.freed == multiset{} && s[|s| - 1] == Last(t) && InOrder(r.tree) == s[..|s| - 1]
    ensures var s, r := InOrder(t), Remove(o, DisownFirst(t), First(t).key);
      !last ==> r.freed == multiset{} && s[0] == First(t) && InOrder(r.tree) == s[1..]
    decreases Size(t), 1
  {
    hide Compare, Remove, InOrder, Find;
    var d := if last then DisownLast(t) else DisownFirst(t);
    var m := if last then Last(t) else First(t);
    var i := if last then Size(t) - 1 else 0;
    DisownFirstInOrder(t);
    DisownLastInOrder(t);
    FindUnique(o, t, i);
    FindIgnoresFlags(o, t, last, m.key);
    assert Size(d) == Size(t);
    RemoveEntriesCore(o, d, m.key);
  }

  lemma RebalancedOrder(t: Tree)
    requires t.Node?
    ensures InOrder(Rebalance(t)) == InOrder(t.left) + [t.data] + InOrder(t.right)
  {
    RebalanceKeepsOrder(t);
  }

  lemma {:induction false} RemoveEntriesCore(o: Order, t: Tree, key: string)
    requires Distinct(o, InOrder(t))
    ensures InOrder(Remove(o, t, key).tree) == EntriesLeft(o, t, key)
    ensures Remove(o, t, key).freed == FreedEntry(o, t, key)
    decreases Size(t), 0
  {
    hide Compare, Distinct, Rebalance, EntriesLeft, FreedEntry, DisownFirst, DisownLast, Owned, InOrder, First, Last;
    NothingLeft(o, key);
    if t.Nil? {
    } else {
      DistinctAroundRoot(o, t);
      EntriesLeftAroundRoot(o, t, key);
      var cmp := Compare(o, key, t.data.key);
      if cmp < 0 {
        RemoveEntriesCore(o, t.left, key);
        RebalancedOrder(t.(left := Remove(o, t.left, key).tree));
      } else if cmp > 0 {
        RemoveEntriesCore(o, t.right, key);
        RebalancedOrder(t.(right := Remove(o, t.right, key).tree));
      } else if t.left.Nil? && t.right.Nil? {
        assert InOrder(t.left) + InOrder(t.right) == [];
      } else if t.left.Nil? {
        RemoveMovedEntry(o, t.right, false);
        var m, r := First(t.right), Remove(o, DisownFirst(t.right), First(t.right).key);
        RebalancedOrder(t.(data := m, right := r.tree));
        assert InOrder(Nil) + [m] + InOrder(r.tree) == InOrder(Nil) + InOrder(t.right);
      } else {
        RemoveMovedEntry(o, t.left, true);
        var m, r := Last(t.left), Remove(o, DisownLast(t.left), Last(t.left).key);
        RebalancedOrder(t.(data := m, left := r.tree));
        assert InOrder(r.tree) + [m] == InOrder(t.left);
      }
    }
  }

  lemma NothingLeft(o: Order, key: string)
    ensures EntriesLeft(o, Nil, key) == InOrder(Nil) == [] && FreedEntry(o, Nil, key) == multiset{}
  {
  }

  /** With distinct keys, removal takes out exactly the entry found, with its own value, and frees only it. */
  lemma RemoveEntries(o: Order, t: Tree, key: string)
    requires Distinct(o, InOrder(t))
    ensures var r := Remove(o, t, key); var f := Find(o, t, key); var s := InOrder(t);
      if f.Some? then InOrder(r.tree) == Without(s, f.value) && r.freed == Owned(s[f.value])
      else InOrder(r.tree) == s && r.freed == multiset{}
  {
    hide Compare, Distinct, Remove, InOrder, Find, Without, Owned;
    RemoveEntriesCore(o, t, key);
  }

  /** Removing an absent key leaves the very same tree. */
  lemma {:induction false} RemoveAbsent(o: Order, t: Tree, key: string)
    requires AA(t) && Find(o, t, key) == None
    ensures Remove(o, t, key) == Removal(t, multiset{})
  {
    hide Compare, InOrder;
    if t.Nil? {
    } else {
      RebalanceRests(t);
      if Compare(o, key, t.data.key) < 0 {
        RemoveAbsent(o, t.left, key);
      } else {
        RemoveAbsent(o, t.right, key);
      }
    }
  }

  ghost predicate NoRepeat<T(!new)>(k: seq<T>) {
    forall i, j :: 0 <= i < j < |k| ==> k[i] != k[j]
  }

  lemma InsertNoRepeat<T(!new)>(k: seq<T>, i: nat, x: T)
    requires NoRepeat(k) && i <= |k| && x !in k
    ensures NoRepeat(InsertedAt(k, i, x))
  {
    var u := InsertedAt(k, i, x);
    forall a, b | 0 <= a < b < |u| ensures u[a] != u[b] {
      assert a < i ==> u[a] == k[a];
      assert a > i ==> u[a] == k[a - 1];
      assert b < i ==> u[b] == k[b];
      assert b > i ==> u[b] == k[b - 1];
    }
  }

  lemma KeysOfEdits(o: Order, s: seq<Entry>, i: nat, e: Entry)
    ensures i <= |s| ==> Keys(o, InsertedAt(s, i, e)) == InsertedAt(Keys(o, s), i, Canon(o, e.key))
    ensures i < |s| ==> Keys(o, s[i := e]) == Keys(o, s)[i := Canon(o, e.key)]
    ensures i < |s| ==> Keys(o, Without(s, i)) == Without(Keys(o, s), i)
  {
    hide Canon;
  }

  lemma DistinctKeys(o: Order, s: seq<Entry>)
    ensures Distinct(o, s) <==> Sorted(o, s) && NoRepeat(Keys(o, s))
  {
    hide Compare, Canon;
    forall i, j | 0 <= i < j < |s|
      ensures Compare(o, s[i].key, s[j].key) == 0 <==> Keys(o, s)[i] == Keys(o, s)[j]
    {
      CompareZeroIsCanon(o, s[i].key, s[j].key);
    }
  }

  lemma AddKeepsDistinct(o: Order, t: Tree, e: Entry)
    requires Distinct(o, InOrder(t)) && (e.flags.replace || Find(o, t, e.key) == None)
    ensures Distinct(o, InOrder(Add(o, t, e)))
  {
    hide Compare, Canon, Add, Find, InOrder, CountLe, Keys, Distinct, Sorted, InsertedAt, NoRepeat;
    var s, k, f, c := InOrder(t), Canon(o, e.key), Find(o, t, e.key), CountLe(o, InOrder(t), e.key);
    DistinctKeys(o, s);
    DistinctKeys(o, InOrder(Add(o, t, e)));
    AddKeepsOrder(o, t, e);
    AddedKeys(o, t, e);
    KeysOfEdits(o, s, if f.Some? then f.value else c, e);
    if f.Some? {
      assert Keys(o, s)[f.value := k] == Keys(o, s);
    } else {
      InsertNoRepeat(Keys(o, s), c, k);
    }
  }

  // ------------------------------------------------------------------ repeated keys

  /**
   Removal is direct where the entry that moves up is the one a search of its key finds below:
   the node the search ends on has nothing on its left, or the search for the last key on its
   left ends at that last entry.
   */
  predicate Direct(o: Order, t: Tree, key: string) {
    t.Nil? ||
    var cmp := Compare(o, key, t.data.key);
    if cmp < 0 then Direct(o, t.left, key)
    else if cmp > 0 then Direct(o, t.right, key)
    else t.left.Nil? || Find(o, t.left, Last(t.left).key) == Some(Size(t.left) - 1)
  }

  predicate SameUpToFlags(a: Entry, b: Entry) {
    a.(flags := NO_FLAGS) == b.(flags := NO_FLAGS)
  }

  /** No entry occurs twice, whatever its flags. */
  ghost predicate AllDifferent(s: seq<Entry>) {
    forall i, j :: 0 <= i < j < |s| ==> !SameUpToFlags(s[i], s[j])
  }

  lemma LeafAtBottom(t: Tree)
    requires AA(t) && t.Node?
    ensures t.right.Nil? ==> t.left.Nil?
    ensures t.left.Nil? && t.right.Node? ==> t.right.left.Nil? && t.right.right.Nil?
  {
    LevelNonNegative(t);
    LevelNonNegative(t.left);
    if t.right.Node? {
      LevelNonNegative(t.right);
      LevelNonNegative(t.right.left);
      LevelNonNegative(t.right.right);
    }
  }

  lemma SubtreesObey(t: Tree)
    requires AA(t) && t.Node?
    ensures AA(t.left) && AA(t.right)
  {
  }

  /** Removing the last entry, when the search finds it, frees it alone. */
  lemma {:induction false} RemoveAtLast(o: Order, t: Tree, key: string)
    requires AA(t) && t.Node? && Find(o, t, key) == Some(Size(t) - 1)
    ensures InOrder(Remove(o, t, key).tree) == InOrder(t)[..Size(t) - 1]
    ensures Remove(o, t, key).freed == Owned(Last(t))
  {
    hide Compare, Rebalance, Owned, InOrder, AA;
    LeafAtBottom(t);
    SubtreesObey(t);
    RootInOrder(t);
    if t.right.Nil? {
      assert InOrder(t)[..Size(t) - 1] == [] == InOrder(Nil);
    } else {
      RemoveAtLast(o, t.right, key);
      RebalancedOrder(t.(right := Remove(o, t.right, key).tree));
      WithoutLast(InOrder(t.left) + [t.data], InOrder(t.right));
    }
  }

  lemma WithoutLast<T>(a: seq<T>, b: seq<T>)
    requires b != []
    ensures (a + b)[..|a + b| - 1] == a + b[..|b| - 1]
  {
  }

  lemma RemoveLeaf(o: Order, t: Tree)
    requires t.Node? && t.left.Nil? && t.right.Nil?
    ensures InOrder(t) == [First(t)] && First(t) == Last(t) == t.data
    ensures Remove(o, DisownFirst(t), First(t).key) == Removal(Nil, multiset{})
  {
    CompareZeroIsCanon(o, t.data.key, t.data.key);
    hide Compare;
  }

  lemma LastAroundRoot(t: Tree)
    requires t.Node?
    ensures InOrder(t) != [] && Last(t) == InOrder(t)[|InOrder(t)| - 1] == if t.right.Nil? then t.data
      else Last(t.right)
  {
    DisownLastInOrder(t);
  }

  /** A rebuilt node whose right subtree ends as `t` does ends as `t` does. */
  lemma RebuiltLast(t: Tree, u: Tree)
    requires t.Node? && u.Node? && (u.right.Nil? ==> u.data == Last(t)) && (u.right.Node? ==> Last(u.right) == Last(t))
    ensures Rebalance(u).Node? && Last(Rebalance(u)) == Last(t)
  {
    hide InOrder, Rebalance, Last;
    RebalancedOrder(u);
    LastAroundRoot(u);
    RootInOrder(u);
    RebalancedIsNode(u);
    LastAroundRoot(Rebalance(u));
  }

  lemma RebalancedIsNode(t: Tree)
    requires t.Node?
    ensures Rebalance(t).Node?
  {
  }

  /** A hit before the last entry leaves the last entry last. */
  lemma {:induction false} EarlierHitKeepsLast(o: Order, t: Tree, key: string)
    requires AA(t) && t.Node? && Find(o, t, key).Some? && Find(o, t, key).value < Size(t) - 1
    ensures var u := Remove(o, t, key).tree; u.Node? && Last(u) == Last(t)
  {
    hide Compare, Rebalance, Owned, DisownFirst, DisownLast, AA, InOrder;
    LeafAtBottom(t);
    SubtreesObey(t);
    var cmp := Compare(o, key, t.data.key);
    if cmp < 0 {
      RebuiltLast(t, t.(left := Remove(o, t.left, key).tree));
    } else if cmp > 0 {
      EarlierHitKeepsLast(o, t.right, key);
      RebuiltLast(t, t.(right := Remove(o, t.right, key).tree));
    } else if t.left.Nil? {
      RemoveLeaf(o, t.right);
      RebuiltLast(t, t.(data := First(t.right), right := Nil));
    } else {
      RebuiltLast(t, t.(data := Last(t.left), left := Remove(o, DisownLast(t.left), Last(t.left).key).tree));
    }
  }

  /** Taking the entry that moved up out of the left subtree works exactly when the search finds it. */
  lemma RemoveMovedLast(o: Order, t: Tree)
    requires AA(t) && t.Node? && AllDifferent(InOrder(t))
    ensures var r, s := Remove(o, DisownLast(t), Last(t).key), InOrder(t);
      var direct := Find(o, t, Last(t).key) == Some(Size(t) - 1);
      && (InOrder(r.tree) == s[..|s| - 1] <==> direct)
      && (direct ==> r.freed == multiset{})
  {
    hide Compare, Remove, InOrder, Find, Last, DisownLast;
    var d, m, f := DisownLast(t), Last(t), Find(o, t, Last(t).key);
    var s := InOrder(t);
    DisownLastInOrder(t);
    DisownLastInOrder(d);
    DisownKeepsLevels(t);
    FindIgnoresFlags(o, t, true, m.key);
    if f == Some(Size(t) - 1) {
      RemoveAtLast(o, d, m.key);
    } else if f == None {
      RemoveAbsent(o, d, m.key);
    } else {
      EarlierHitKeepsLast(o, d, m.key);
      LastAroundRoot(Remove(o, d, m.key).tree);
      LastAroundRoot(d);
      assert !SameUpToFlags(s[|s| - 2], s[|s| - 1]);
    }
  }

  lemma AllDifferentPieces(l: seq<Entry>, d: Entry, r: seq<Entry>)
    requires AllDifferent(l + [d] + r)
    ensures AllDifferent(l) && AllDifferent(r)
  {
    var s := l + [d] + r;
    forall i, j | 0 <= i < j < |l| ensures !SameUpToFlags(l[i], l[j]) {
      assert s[i] == l[i] && s[j] == l[j];
    }
    forall i, j | 0 <= i < j < |r| ensures !SameUpToFlags(r[i], r[j]) {
      assert s[|l| + 1 + i] == r[i] && s[|l| + 1 + j] == r[j];
    }
  }

  /** What is joined to the same ends differs exactly when the parts do. */
  lemma Cancel<T>(a: seq<T>, x: seq<T>, y: seq<T>, b: seq<T>)
    ensures a + x + b == a + y + b <==> x == y
  {
    if a + x + b == a + y + b {
      assert |x| == |y|;
      assert x == (a + x + b)[|a|..|a| + |x|] == (a + y + b)[|a|..|a| + |y|] == y;
    }
  }

  lemma CancelBehind<T>(x: seq<T>, y: seq<T>, d: T, r: seq<T>)
    ensures x + [d] + r == y + [d] + r <==> x == y
  {
    Cancel([], x, y, [d] + r);
    assert x + [d] + r == [] + x + ([d] + r) && y + [d] + r == [] + y + ([d] + r);
  }

  lemma CancelBefore<T>(l: seq<T>, d: T, x: seq<T>, y: seq<T>)
    ensures l + [d] + x == l + [d] + y <==> x == y
  {
    Cancel(l + [d], x, y, []);
    assert l + [d] + x + [] == l + [d] + x && l + [d] + y + [] == l + [d] + y;
  }

  lemma RemoveWithLeft(o: Order, t: Tree, key: string)
    requires t.Node? && t.left.Node? && Compare(o, key, t.data.key) == 0
    ensures var x := Remove(o, DisownLast(t.left), Last(t.left).key);
      Remove(o, t, key) == Removal(Rebalance(t.(data := Last(t.left), left := x.tree)), Owned(t.data) + x.freed)
    ensures Direct(o, t, key) <==> Find(o, t.left, Last(t.left).key) == Some(Size(t.left) - 1)
  {
    hide Compare, Rebalance, DisownFirst, DisownLast, Owned, Find;
  }

  lemma RemoveHereWithLeft(o: Order, t: Tree, key: string)
    requires AA(t) && t.Node? && t.left.Node? && AllDifferent(InOrder(t)) && Compare(o, key, t.data.key) == 0
    ensures InOrder(Remove(o, t, key).tree) == InOrder(t.left) + InOrder(t.right) <==> Direct(o, t, key)
    ensures Direct(o, t, key) ==> Remove(o, t, key).freed == Owned(t.data)
  {
    hide Compare, AllDifferent, Rebalance, Remove, DisownLast, Owned, InOrder, Last, Find, AA, Direct;
    RootInOrder(t);
    SubtreesObey(t);
    var l, r := InOrder(t.left), InOrder(t.right);
    AllDifferentPieces(l, t.data, r);
    var m, x := Last(t.left), Remove(o, DisownLast(t.left), Last(t.left).key);
    RemoveMovedLast(o, t.left);
    RemoveWithLeft(o, t, key);
    RebalancedOrder(t.(data := m, left := x.tree));
    DisownLastInOrder(t.left);
    Cancel([], InOrder(x.tree), l[..|l| - 1], [m] + r);
    assert InOrder(x.tree) + [m] + r == [] + InOrder(x.tree) + ([m] + r);
    assert l + r == [] + l[..|l| - 1] + ([m] + r);
  }

  lemma RemoveHere(o: Order, t: Tree, key: string)
    requires AA(t) && t.Node? && AllDifferent(InOrder(t)) && Compare(o, key, t.data.key) == 0
    ensures InOrder(Remove(o, t, key).tree) == EntriesLeft(o, t, key) <==> Direct(o, t, key)
    ensures Direct(o, t, key) ==> Remove(o, t, key).freed == FreedEntry(o, t, key)
  {
    hide Compare, AllDifferent, Rebalance, EntriesLeft, FreedEntry, DisownFirst, DisownLast, Owned, InOrder;
    hide First, Last, Find, AA;
    EntriesLeftAroundRoot(o, t, key);
    NothingLeft(o, key);
    if t.left.Node? {
      RemoveHereWithLeft(o, t, key);
    } else if t.right.Nil? {
      assert InOrder(t.left) + InOrder(t.right) == [];
    } else {
      LeafAtBottom(t);
      RemoveLeaf(o, t.right);
      RebalancedOrder(t.(data := First(t.right), right := Nil));
      assert InOrder(Nil) + [First(t.right)] + InOrder(Nil) == InOrder(t.left) + InOrder(t.right);
    }
  }

  /**
   Exactly when removal does what it is for: in a tree of different entries it takes out the
   entry found, and frees only that one, if and only if it is direct.
   */
  lemma {:induction false} RemovalIsCleanExactly(o: Order, t: Tree, key: string)
    requires AA(t) && AllDifferent(InOrder(t))
    ensures InOrder(Remove(o, t, key).tree) == EntriesLeft(o, t, key) <==> Direct(o, t, key)
    ensures Direct(o, t, key) ==> Remove(o, t, key).freed == FreedEntry(o, t, key)
  {
    hide Compare, AllDifferent, Rebalance, EntriesLeft, FreedEntry, DisownFirst, DisownLast, Owned;
    hide InOrder, First, Last, Find;
    NothingLeft(o, key);
    if t.Nil? {
    } else {
      EntriesLeftAroundRoot(o, t, key);
      RootInOrder(t);
      var l, d, r := InOrder(t.left), t.data, InOrder(t.right);
      AllDifferentPieces(l, d, r);
      var cmp := Compare(o, key, t.data.key);
      if cmp < 0 {
        RemovalIsCleanExactly(o, t.left, key);
        var x := Remove(o, t.left, key).tree;
        RebalancedOrder(t.(left := x));
        CancelBehind(InOrder(x), EntriesLeft(o, t.left, key), d, r);
      } else if cmp > 0 {
        RemovalIsCleanExactly(o, t.right, key);
        var x := Remove(o, t.right, key).tree;
        RebalancedOrder(t.(right := x));
        CancelBefore(l, d, InOrder(x), EntriesLeft(o, t.right, key));
      } else {
        RemoveHere(o, t, key);
      }
    }
  }

  /** The tree of four entries added in the order b, a, c, a. */
  function Twins(a1: Entry, a2: Entry, b: Entry, c: Entry): Tree {
    Node(Node(Nil, a1, 1, Node(Nil, a2, 1, Nil)), b, 2, Node(Nil, c, 1, Nil))
  }

  function Leaf(e: Entry): Tree {
    Node(Nil, e, 1, Nil)
  }

  /** It is what those additions make. */
  lemma TwinsArise(o: Order, a1: Entry, a2: Entry, b: Entry, c: Entry)
    requires Compare(o, a1.key, b.key) < 0 && Compare(o, b.key, c.key) < 0
    requires a1.key == a2.key && !a2.flags.replace
    ensures Add(o, Add(o, Add(o, Add(o, Nil, b), a1), c), a2) == Twins(a1, a2, b, c)
  {
    CompareFlips(o, a1.key, b.key);
    CompareFlips(o, b.key, c.key);
    CompareTransitive(o, a1.key, b.key, c.key);
    CompareFlips(o, a1.key, c.key);
    CompareZeroIsCanon(o, a1.key, a1.key);
    hide Compare, Add;
    var t1, t2 := Node(Nil, a1, 1, Leaf(b)), Node(Leaf(a1), b, 2, Leaf(c));
    AddToLeaf(o, b, a1);
    AddToLeaf(o, b, c);
    AddToLeaf(o, a1, a2);
    AddsBelow(o, t1, c);
    AddsBelow(o, t2, a2);
    assert t2 == Split(Skew(Node(Nil, a1, 1, Node(Nil, b, 1, Leaf(c)))));
  }

  lemma AddsBelow(o: Order, t: Tree, e: Entry)
    requires t.Node? && !(Compare(o, e.key, t.data.key) == 0 && e.flags.replace)
    ensures Add(o, t, e) == Split(Skew(
              if Compare(o, e.key, t.data.key) < 0 then t.(left := Add(o, t.left, e))
                else t.(right := Add(o, t.right, e))))
  {
    hide Compare, Split, Skew;
  }

  lemma AddToLeaf(o: Order, d: Entry, e: Entry)
    requires !(Compare(o, e.key, d.key) == 0 && e.flags.replace)
    ensures Add(o, Nil, d) == Leaf(d)
    ensures Add(o, Leaf(d), e) ==
            if Compare(o, e.key, d.key) < 0 then Node(Nil, e, 1, Leaf(d)) else Node(Nil, d, 1, Leaf(e))
  {
    hide Compare;
    assert Add(o, Nil, e) == Leaf(e);
  }

  lemma TwinsInOrder(a1: Entry, a2: Entry, b: Entry, c: Entry)
    ensures AA(Twins(a1, a2, b, c)) && InOrder(Twins(a1, a2, b, c)) == [a1, a2, b, c]
  {
    var right := Node(Nil, a2, 1, Nil);
    assert AA(Nil) && Level(Nil) == 0 && right.right.Nil?;
    assert InOrder(right) == [a2] && AA(right);
    var left := Node(Nil, a1, 1, right);
    assert InOrder(left) == [a1, a2] && AA(left);
    assert InOrder(Node(Nil, c, 1, Nil)) == [c] && AA(Node(Nil, c, 1, Nil));
  }

  lemma RemoveFirstTwin(a1: Entry, e: Entry)
    requires a1.key == e.key && e.flags == NO_FLAGS
    ensures Remove(CaseSensitive, Node(Nil, a1, 1, Node(Nil, e, 1, Nil)), e.key).tree == Node(Nil, e, 1, Nil)
  {
    CompareZeroIsCanon(CaseSensitive, e.key, e.key);
    hide Compare;
    var twin := Node(Nil, e, 1, Nil);
    assert DisownFirst(twin) == twin && First(twin) == e;
    assert Remove(CaseSensitive, twin, e.key).tree == Nil;
    assert Rebalance(Node(Nil, e, 1, Nil)) == twin;
  }

  lemma TwinsAreIndirect(a1: Entry, a2: Entry, b: Entry, c: Entry)
    requires a1.key == a2.key
    ensures !Direct(CaseSensitive, Twins(a1, a2, b, c), b.key)
  {
    CompareZeroIsCanon(CaseSensitive, b.key, b.key);
    CompareZeroIsCanon(CaseSensitive, a2.key, a1.key);
    hide Compare;
    var left := Twins(a1, a2, b, c).left;
    assert Last(left) == Last(left.right) == a2;
    assert Find(CaseSensitive, left, a2.key) == Some(0);
    assert Size(left.right) == 1 && Size(left) == 2;
  }

  /**
   The smallest tree with a removal that is not direct: taking out `b` deletes `a1`, which may
   hold another value than its twin, and leaves `a2` in two places.
   */
  lemma RemoveConfusesTwins(a1: Entry, a2: Entry, b: Entry, c: Entry)
    requires a1.key == a2.key
    ensures AA(Twins(a1, a2, b, c)) && InOrder(Twins(a1, a2, b, c)) == [a1, a2, b, c]
    ensures !Direct(CaseSensitive, Twins(a1, a2, b, c), b.key)
    ensures InOrder(Remove(CaseSensitive, Twins(a1, a2, b, c), b.key).tree) == [a2.(flags := NO_FLAGS), a2, c]
    ensures a1.value != a2.value && a1.value != c.value ==>
      forall x :: x in InOrder(Remove(CaseSensitive, Twins(a1, a2, b, c), b.key).tree) ==> x.value != a1.value
  {
    TwinsAreIndirect(a1, a2, b, c);
    TwinsInOrder(a1, a2, b, c);
    CompareZeroIsCanon(CaseSensitive, b.key, b.key);
    hide Compare, AA;
    var e := a2.(flags := NO_FLAGS);
    var left, l := Node(Nil, a1, 1, Node(Nil, a2, 1, Nil)), Node(Nil, a1, 1, Node(Nil, e, 1, Nil));
    assert DisownLast(left) == l && Last(left) == a2;
    RemoveFirstTwin(a1, e);
    var whole := Node(Node(Nil, e, 1, Nil), a2, 2, Node(Nil, c, 1, Nil));
    assert Rebalance(whole) == whole;
    assert Remove(CaseSensitive, Twins(a1, a2, b, c), b.key).tree == whole;
    hide Remove;
    assert InOrder(Node(Nil, e, 1, Nil)) == [e] && InOrder(Node(Nil, c, 1, Nil)) == [c];
    assert InOrder(whole) == [e] + [a2] + [c];
  }

  /** Inserting an absent key, or replacing a present one, repeats no key. */
  lemma AddedKeys(o: Order, t: Tree, e: Entry)
    requires Sorted(o, InOrder(t)) && (e.flags.replace || Find(o, t, e.key) == None)
    ensures var s, k := InOrder(t), Canon(o, e.key);
      if Find(o, t, e.key).Some? then
        && Keys(o, s)[Find(o, t, e.key).value] == k
        && InOrder(Add(o, t, e)) == s[Find(o, t, e.key).value := e]
      else
        && k !in Keys(o, s)
        && InOrder(Add(o, t, e)) == InsertedAt(s, CountLe(o, s, e.key), e)
  {
    hide Compare, Canon, Add, InOrder, CountLe, Sorted;
    AddInOrder(o, t, e);
    FindCorrect(o, t, e.key);
    FoundKey(o, t, e.key);
  }

  /** The search finds a position exactly when the canonical key occurs, and there. */
  lemma FoundKey(o: Order, t: Tree, key: string)
    requires Sorted(o, InOrder(t))
    ensures var s, f := InOrder(t), Find(o, t, key);
      && (f.Some? ==> Keys(o, s)[f.value] == Canon(o, key))
      && (f.None? ==> Canon(o, key) !in Keys(o, s))
  {
    hide Compare, Canon, InOrder, Sorted, Find;
    FindCorrect(o, t, key);
    var s := InOrder(t);
    forall i | 0 <= i < |s| ensures Compare(o, s[i].key, key) == 0 <==> Keys(o, s)[i] == Canon(o, key) {
      CompareZeroIsCanon(o, s[i].key, key);
    }
  }

  lemma WithoutKeepsDistinct(o: Order, s: seq<Entry>, i: nat)
    requires Distinct(o, s) && i < |s|
    ensures Distinct(o, Without(s, i))
  {
    hide Compare;
    var u := Without(s, i);
    forall a, b | 0 <= a < b < |u| ensures Compare(o, u[a].key, u[b].key) < 0 {
      var a', b' := if a < i then a else a + 1, if b < i then b else b + 1;
      assert u[a] == s[a'] && u[b] == s[b'];
    }
  }

  // ------------------------------------------------------------------ the finite map

  type Contents = map<string, Entry>

  /** The entries are those of the map, which is keyed by what the comparator sees. */
  ghost predicate Represents(o: Order, s: seq<Entry>, m: Contents) {
    && |m| == |s|
    && (forall i :: 0 <= i < |s| ==> Keys(o, s)[i] in m && m[Keys(o, s)[i]] == s[i])
    && (forall k :: k in m ==> k in Keys(o, s))
  }

  lemma RepresentsInsert(o: Order, s: seq<Entry>, i: nat, e: Entry, m: Contents)
    requires i <= |s| && Represents(o, s, m) && Canon(o, e.key) !in Keys(o, s)
    ensures Represents(o, InsertedAt(s, i, e), m[Canon(o, e.key) := e])
  {
    hide Canon, Keys;
    var u, k := InsertedAt(s, i, e), Canon(o, e.key);
    var ks, ku := Keys(o, s), Keys(o, u);
    KeysOfEdits(o, s, i, e);
    forall a | 0 <= a < |u| ensures ku[a] in m[k := e] && m[k := e][ku[a]] == u[a] {
      if a < i { assert ku[a] == ks[a] && u[a] == s[a]; }
      if a > i { assert ku[a] == ks[a - 1] && u[a] == s[a - 1]; }
    }
    assert ku[i] == k;
    forall q | q in m ensures q in ku {
      var j :| 0 <= j < |s| && ks[j] == q;
      assert ku[if j < i then j else j + 1] == q;
    }
    assert k !in m;
  }

  lemma RepresentsUpdate(o: Order, s: seq<Entry>, i: nat, e: Entry, m: Contents)
    requires i < |s| && Represents(o, s, m) && NoRepeat(Keys(o, s)) && Canon(o, e.key) == Keys(o, s)[i]
    ensures Represents(o, s[i := e], m[Canon(o, e.key) := e])
  {
    hide Canon;
    var u, k := s[i := e], Canon(o, e.key);
    var ks, ku := Keys(o, s), Keys(o, u);
    KeysOfEdits(o, s, i, e);
    assert ku == ks;
    forall a | 0 <= a < |u| ensures ku[a] in m[k := e] && m[k := e][ku[a]] == u[a] {
      assert a < i ==> ks[a] != ks[i];
      assert a > i ==> ks[i] != ks[a];
    }
  }

  lemma MapLosesKey(m: Contents, k: string)
    requires k in m
    ensures |m - {k}| == |m| - 1
  {
    assert (m - {k}).Keys == m.Keys - {k};
    assert |(m - {k}).Keys| == |m - {k}| && |m.Keys| == |m|;
  }

  lemma WithoutAt<T>(s: seq<T>, i: nat, a: nat)
    requires i < |s| && a < |s| - 1
    ensures Without(s, i)[a] == s[if a < i then a else a + 1]
  {
  }

  lemma {:induction false} RepresentsWithoutAt(o: Order, s: seq<Entry>, i: nat, m: Contents, a: nat)
    requires i < |s| && Represents(o, s, m) && NoRepeat(Keys(o, s)) && a < |s| - 1
    ensures var k := Keys(o, Without(s, i))[a];
      k != Keys(o, s)[i] && k in m && m[k] == Without(s, i)[a]
  {
    hide Canon, Without;
    KeysOfEdits(o, s, i, s[i]);
    WithoutAt(s, i, a);
    WithoutAt(Keys(o, s), i, a);
    var b := if a < i then a else a + 1;
    assert if b < i then Keys(o, s)[b] != Keys(o, s)[i] else Keys(o, s)[i] != Keys(o, s)[b];
  }

  lemma RepresentsWithout(o: Order, s: seq<Entry>, i: nat, m: Contents)
    requires i < |s| && Represents(o, s, m) && NoRepeat(Keys(o, s))
    ensures Represents(o, Without(s, i), m - {Keys(o, s)[i]})
  {
    var u, k := Without(s, i), Keys(o, s)[i];
    var ks, ku := Keys(o, s), Keys(o, u);
    KeysOfEdits(o, s, i, s[i]);
    MapLosesKey(m, k);
    assert |u| == |s| - 1;
    hide Canon, Without, Keys, NoRepeat;
    assert |m| == |s|;
    forall a | 0 <= a < |u| ensures ku[a] in m - {k} && (m - {k})[ku[a]] == u[a] {
      RepresentsWithoutAt(o, s, i, m, a);
    }
    hide Represents;
    forall q | q in m - {k} ensures q in ku {
      RepresentedAt(o, s, m, q);
      StillThere(ks, i, q);
    }
  }

  lemma StillThere<T>(s: seq<T>, i: nat, q: T)
    requires i < |s| && q in s && q != s[i]
    ensures q in Without(s, i)
  {
    var j :| 0 <= j < |s| && s[j] == q;
    WithoutAt(s, i, if j < i then j else j - 1);
  }

  lemma RepresentedAt(o: Order, s: seq<Entry>, m: Contents, q: string)
    requires Represents(o, s, m) && q in m
    ensures q in Keys(o, s)
  {
  }

  /** Insertion is map update. */
  lemma AddRefines(o: Order, t: Tree, e: Entry, m: Contents)
    requires Distinct(o, InOrder(t)) && (e.flags.replace || Find(o, t, e.key) == None)
    requires Represents(o, InOrder(t), m)
    ensures Represents(o, InOrder(Add(o, t, e)), m[Canon(o, e.key) := e])
  {
    hide Compare, Canon, Add, Find, InOrder, CountLe, Keys, Distinct, Sorted, InsertedAt, NoRepeat, Represents;
    DistinctKeys(o, InOrder(t));
    AddedKeys(o, t, e);
    if Find(o, t, e.key).Some? {
      RepresentsUpdate(o, InOrder(t), Find(o, t, e.key).value, e, m);
    } else {
      RepresentsInsert(o, InOrder(t), CountLe(o, InOrder(t), e.key), e, m);
    }
  }

  /** Removal is map removal. */
  lemma RemoveRefines(o: Order, t: Tree, key: string, m: Contents)
    requires Distinct(o, InOrder(t)) && Represents(o, InOrder(t), m)
    ensures Represents(o, InOrder(Remove(o, t, key).tree), m - {Canon(o, key)})
    ensures Distinct(o, InOrder(Remove(o, t, key).tree))
  {
    hide Compare, Canon, Remove, InOrder, Keys, Sorted, Find, Distinct, NoRepeat, Without;
    DistinctKeys(o, InOrder(t));
    FoundKey(o, t, key);
    RemoveEntries(o, t, key);
    if Find(o, t, key).Some? {
      WithoutKeepsDistinct(o, InOrder(t), Find(o, t, key).value);
      RepresentsWithout(o, InOrder(t), Find(o, t, key).value, m);
    } else {
      assert m - {Canon(o, key)} == m;
    }
  }

  /** A lookup returns the map's value for the key, and only then (`onion_dict_get`/`onion_dict_get_dict`). */
  lemma FindRefines(o: Order, t: Tree, key: string, m: Contents)
    requires Distinct(o, InOrder(t)) && Represents(o, InOrder(t), m)
    ensures Find(o, t, key).Some? <==> Canon(o, key) in m
    ensures Find(o, t, key).Some? ==> InOrder(t)[Find(o, t, key).value] == m[Canon(o, key)]
    ensures Size(t) == |m|
  {
    hide Compare, Canon, InOrder, Sorted, Find;
    DistinctKeys(o, InOrder(t));
    FoundKey(o, t, key);
  }

  // ------------------------------------------------------------------ runs

  datatype Op = Put(entry: Entry) | Drop(key: string)

  /** A dictionary with the cells its entries ever took over and those given back so far. */
  datatype Store = Store(root: Tree, adopted: multiset<Cell>, released: multiset<Cell>)

  const EMPTY := Store(Nil, multiset{}, multiset{})

  function Step(o: Order, d: Store, op: Op): Store {
    match op
    case Put(e) => Store(Add(o, d.root, e), d.adopted + Owned(e), d.released + Overwritten(o, d.root, e))
    case Drop(k) => var r := Remove(o, d.root, k); Store(r.tree, d.adopted, d.released + r.freed)
  }

  function Run(o: Order, d: Store, ops: seq<Op>): Store {
    if ops == [] then d else Step(o, Run(o, d, ops[..|ops| - 1]), ops[|ops| - 1])
  }

  function MapStep(o: Order, m: Contents, op: Op): Contents {
    match op
    case Put(e) => m[Canon(o, e.key) := e]
    case Drop(k) => m - {Canon(o, k)}
  }

  function MapRun(o: Order, ops: seq<Op>): Contents {
    if ops == [] then map[] else MapStep(o, MapRun(o, ops[..|ops| - 1]), ops[|ops| - 1])
  }

  /** Every state a program can reach, duplicates and all: searches stay logarithmic and sorted. */
  lemma {:induction false} EveryRunKeepsLevels(o: Order, ops: seq<Op>, key: string)
    ensures var t := Run(o, EMPTY, ops).root;
      && AA(t) && Sorted(o, InOrder(t))
      && Pow2(FindDepth(o, t, key)) <= (Size(t) + 1) * (Size(t) + 1)
  {
    hide Compare, Canon, InOrder, AA, Add, Remove, Pow2;
    assert AA(Nil) && Sorted(o, InOrder(Nil)) by { EmptyTreeObeys(o); }
    if ops == [] {
    } else {
      var t := Run(o, EMPTY, ops[..|ops| - 1]).root;
      EveryRunKeepsLevels(o, ops[..|ops| - 1], key);
      match ops[|ops| - 1] {
        case Put(e) =>
          AddKeepsLevels(o, t, e);
          AddKeepsOrder(o, t, e);
        case Drop(k) =>
          RemoveKeepsLevels(o, t, k);
          RemoveKeepsOrder(o, t, k);
      }
    }
    FindIsLogarithmic(o, Run(o, EMPTY, ops).root, key);
  }

  lemma EmptyTreeObeys(o: Order)
    ensures AA(Nil) && Sorted(o, InOrder(Nil)) && Distinct(o, InOrder(Nil)) && Represents(o, InOrder(Nil), map[])
  {
  }

  /** The order of two keys depends only on what the comparator sees of them. */
  lemma {:induction false} CompareByCanon(o: Order, a: string, b: string, c: string, d: string)
    requires Canon(o, a) == Canon(o, c) && Canon(o, b) == Canon(o, d)
    ensures Compare(o, a, b) == Compare(o, c, d)
  {
    if a == [] || b == [] {
    } else {
      assert Canon(o, a)[0] == Canon(o, c)[0] && Canon(o, b)[0] == Canon(o, d)[0];
      assert Canon(o, a)[1..] == Canon(o, a[1..]) && Canon(o, b)[1..] == Canon(o, b[1..]);
      assert Canon(o, c)[1..] == Canon(o, c[1..]) && Canon(o, d)[1..] == Canon(o, d[1..]);
      CompareByCanon(o, a[1..], b[1..], c[1..], d[1..]);
    }
  }

  lemma RemoveKeepsOrder(o: Order, t: Tree, key: string)
    requires Sorted(o, InOrder(t))
    ensures Sorted(o, InOrder(Remove(o, t, key).tree))
  {
    hide Compare, Canon, Remove, InOrder, Find, Keys, Sorted, Without;
    RemoveKeys(o, t, key);
    var s, u := InOrder(t), InOrder(Remove(o, t, key).tree);
    var f := Find(o, t, key);
    SortedByKeys(o, s, u, if f.Some? then f.value else |s|);
  }

  lemma SortedByKeys(o: Order, s: seq<Entry>, u: seq<Entry>, f: nat)
    requires Sorted(o, s) && f <= |s|
    requires Keys(o, u) == if f < |s| then Without(Keys(o, s), f) else Keys(o, s)
    ensures Sorted(o, u)
  {
    hide Compare, Canon;
    forall i, j | 0 <= i < j < |u| ensures Compare(o, u[i].key, u[j].key) <= 0 {
      var i' := if f <= i then i + 1 else i;
      var j' := if f <= j then j + 1 else j;
      assert Keys(o, u)[i] == Keys(o, s)[i'] && Keys(o, u)[j] == Keys(o, s)[j'];
      CompareByCanon(o, u[i].key, u[j].key, s[i'].key, s[j'].key);
    }
  }

  // ------------------------------------------------------------------ ownership over a run

  /** The entry refers to none of those cells, at any depth. */
  ghost predicate Apart(e: Entry, cells: multiset<Cell>) {
    EntryCells(e) !! cells
  }

  /** Nothing an entry refers to is owned by another entry or has been given back. */
  ghost predicate Exclusive(s: seq<Entry>, released: multiset<Cell>) {
    && (forall i :: 0 <= i < |s| ==> Apart(s[i], released))
    && (forall i, j :: 0 <= i < |s| && 0 <= j < |s| && i != j ==> Apart(s[i], Owned(s[j])))
  }

  ghost predicate Safe(o: Order, d: Store) {
    && AA(d.root) && Distinct(o, InOrder(d.root))
    && d.adopted == d.released + Holdings(d.root)
    && (forall c :: d.adopted[c] <= 1)
    && Exclusive(InOrder(d.root), d.released)
  }

  /**
   What a caller must respect: additions do not repeat a key unless they replace it, and an
   added entry brings cells of its own that no entry refers to yet.
   */
  ghost predicate Legal(o: Order, d: Store, op: Op) {
    op.Put? ==>
      var e := op.entry;
      && (e.flags.replace || Find(o, d.root, e.key) == None)
      && (forall c :: Owned(e)[c] <= 1)
      && Apart(e, d.adopted)
      && forall x :: x in InOrder(d.root) ==> Apart(x, Owned(e))
  }

  ghost predicate LegalRun(o: Order, ops: seq<Op>) {
    forall n :: 0 <= n < |ops| ==> Legal(o, Run(o, EMPTY, ops[..n]), ops[n])
  }

  lemma {:induction false} OverwrittenIsFound(o: Order, t: Tree, e: Entry)
    ensures Overwritten(o, t, e) ==
      if e.flags.replace && Find(o, t, e.key).Some? then Owned(InOrder(t)[Find(o, t, e.key).value]) else multiset{}
  {
    hide Compare, Owned;
    if t.Nil? {
    } else {
      if Compare(o, e.key, t.data.key) < 0 {
        OverwrittenIsFound(o, t.left, e);
      } else if Compare(o, e.key, t.data.key) > 0 || !e.flags.replace {
        OverwrittenIsFound(o, t.right, e);
        var f := Find(o, t.right, e.key);
        assert f.Some? ==> InOrder(t)[Size(t.left) + 1 + f.value] == InOrder(t.right)[f.value];
      }
    }
  }

  lemma {:induction false} OwnedIsHeld(s: seq<Entry>, i: nat)
    requires i < |s|
    ensures Owned(s[i]) <= Held(s)
  {
    hide Owned;
    if i == |s| - 1 {
    } else {
      OwnedIsHeld(s[..|s| - 1], i);
    }
  }

  lemma ApartFromBoth(e: Entry, a: multiset<Cell>, b: multiset<Cell>)
    requires Apart(e, a) && Apart(e, b)
    ensures Apart(e, a + b)
  {
    hide EntryCells;
  }

  lemma ExclusiveWithout(s: seq<Entry>, i: nat, released: multiset<Cell>)
    requires i < |s| && Exclusive(s, released)
    ensures Exclusive(Without(s, i), released + Owned(s[i]))
  {
    hide Owned, Apart;
    var u := Without(s, i);
    forall a | 0 <= a < |u| ensures Apart(u[a], released + Owned(s[i])) {
      WithoutAt(s, i, a);
      ApartFromBoth(u[a], released, Owned(s[i]));
    }
    forall a, b | 0 <= a < |u| && 0 <= b < |u| && a != b ensures Apart(u[a], Owned(u[b])) {
      WithoutAt(s, i, a);
      WithoutAt(s, i, b);
    }
  }

  lemma InsertedAtAt<T>(s: seq<T>, i: nat, x: T, a: nat)
    requires i <= |s| && a <= |s|
    ensures InsertedAt(s, i, x)[a] == if a < i then s[a] else if a == i then x else s[a - 1]
  {
  }

  lemma ExclusiveInsert(s: seq<Entry>, i: nat, e: Entry, released: multiset<Cell>)
    requires i <= |s| && Exclusive(s, released)
    requires Apart(e, released) && Apart(e, Held(s))
    requires forall x :: x in s ==> Apart(x, Owned(e))
    ensures Exclusive(InsertedAt(s, i, e), released)
  {
    hide Owned, Held;
    var u := InsertedAt(s, i, e);
    forall j | 0 <= j < |s| ensures Apart(e, Owned(s[j])) && Apart(s[j], Owned(e)) {
      OwnedIsHeld(s, j);
    }
    hide Apart;
    forall a | 0 <= a < |u| ensures Apart(u[a], released) {
      InsertedAtAt(s, i, e, a);
    }
    forall a, b | 0 <= a < |u| && 0 <= b < |u| && a != b ensures Apart(u[a], Owned(u[b])) {
      InsertedAtAt(s, i, e, a);
      InsertedAtAt(s, i, e, b);
    }
  }

  lemma HeldWithout(s: seq<Entry>, i: nat)
    requires i < |s|
    ensures Held(Without(s, i)) + Owned(s[i]) == Held(s)
  {
    hide Owned, Held;
    assert s == s[..i] + [s[i]] + s[i + 1..];
    HeldAroundRoot(s[..i], s[i], s[i + 1..]);
    HeldAdds(s[..i], s[i + 1..]);
  }

  lemma ExclusiveUpdate(s: seq<Entry>, i: nat, e: Entry, released: multiset<Cell>)
    requires i < |s| && Exclusive(s, released)
    requires Apart(e, released + Held(s))
    requires forall x :: x in s ==> Apart(x, Owned(e))
    ensures Exclusive(s[i := e], released + Owned(s[i]))
  {
    hide InsertedAt, Owned, Held, Without, Exclusive;
    ExclusiveWithout(s, i, released);
    HeldWithout(s, i);
    WithoutInserted(s, i, e);
    ExclusiveInsert(Without(s, i), i, e, released + Owned(s[i]));
  }

  lemma AddKeepsExclusive(o: Order, d: Store, e: Entry)
    requires Safe(o, d) && Legal(o, d, Put(e))
    ensures Exclusive(InOrder(Step(o, d, Put(e)).root), Step(o, d, Put(e)).released)
  {
    hide Compare, Canon, Add, Find, InOrder, CountLe, Keys, Distinct, Sorted, InsertedAt;
    hide Owned, Held, AA, Overwritten, Without, Exclusive;
    var s, f := InOrder(d.root), Find(o, d.root, e.key);
    DistinctIsSorted(o, s);
    AddInOrder(o, d.root, e);
    OverwrittenIsFound(o, d.root, e);
    if f.Some? {
      ExclusiveUpdate(s, f.value, e, d.released);
    } else {
      assert d.released + multiset{} == d.released;
      ExclusiveInsert(s, CountLe(o, s, e.key), e, d.released);
    }
  }

  lemma WithoutInserted<T>(s: seq<T>, i: nat, x: T)
    requires i < |s|
    ensures InsertedAt(Without(s, i), i, x) == s[i := x]
    ensures |Without(s, i)| == |s| - 1 && forall y :: y in Without(s, i) ==> y in s
  {
  }

  lemma RemoveKeepsExclusive(o: Order, d: Store, key: string)
    requires Safe(o, d)
    ensures Exclusive(InOrder(Step(o, d, Drop(key)).root), Step(o, d, Drop(key)).released)
  {
    hide Compare, Canon, Remove, Find, InOrder, Keys, Distinct, Sorted, Owned, Held, AA, Without, Exclusive;
    RemoveEntries(o, d.root, key);
    var s, f := InOrder(d.root), Find(o, d.root, key);
    if f.Some? {
      ExclusiveWithout(s, f.value, d.released);
    } else {
      assert d.released + multiset{} == d.released;
    }
  }

  /** One step keeps a dictionary safe: what it frees, no remaining entry refers to. */
  lemma StepKeepsSafe(o: Order, d: Store, op: Op)
    requires Safe(o, d) && Legal(o, d, op)
    ensures Safe(o, Step(o, d, op))
  {
    match op {
      case Put(e) =>
        AddKeepsExclusive(o, d, e);
        AdoptedOnce(d.adopted, e);
        hide Compare, Canon, Add, Find, InOrder, Distinct, Owned, Held, AA, Overwritten, Exclusive;
        AddKeepsLevels(o, d.root, e);
        AddKeepsDistinct(o, d.root, e);
        AddConserves(o, d.root, e);
        Accounted(d.released, Holdings(d.root), Owned(e), Overwritten(o, d.root, e), Holdings(Add(o, d.root, e)));
      case Drop(k) =>
        RemoveKeepsExclusive(o, d, k);
        hide Compare, Canon, Remove, Find, InOrder, Distinct, Owned, Held, AA, Exclusive, Represents;
        RemoveKeepsLevels(o, d.root, k);
        RemoveEntriesDistinct(o, d.root, k);
        RemoveConserves(o, d.root, k);
    }
  }

  lemma OwnedNested(e: Entry, freed: multiset<Cell>, cells: multiset<Cell>)
    requires e.value.Nested? && FreeAll(e.value.root) == freed && Cells(e.value.root) == cells && freed <= cells
    ensures Owned(e) <= EntryCells(e)
  {
    hide FreeAll, Cells;
    var inside := if e.flags.freeValue && e.flags.isDict then freed else multiset{};
    assert Owned(e) <= multiset{e.keyCell, e.valueCell} + inside;
  }

  /** What an entry gives back it refers to. */
  lemma {:induction false} OwnedIsReachable(e: Entry)
    ensures Owned(e) <= EntryCells(e)
    decreases e
  {
    hide FreeAll, Cells;
    if e.value.Nested? {
      FreeAllIsReachable(e.value.root);
      OwnedNested(e, FreeAll(e.value.root), Cells(e.value.root));
    }
  }

  lemma {:induction false} FreeAllIsReachable(t: Tree)
    ensures FreeAll(t) <= Cells(t)
    decreases t
  {
    hide Owned, EntryCells;
    if t.Nil? {
    } else {
      FreeAllIsReachable(t.left);
      OwnedIsReachable(t.data);
      FreeAllIsReachable(t.right);
    }
  }

  lemma AdoptedOnce(adopted: multiset<Cell>, e: Entry)
    requires forall c :: adopted[c] <= 1
    requires Apart(e, adopted)
    requires forall c :: Owned(e)[c] <= 1
    ensures forall c :: (adopted + Owned(e))[c] <= 1
  {
    OwnedIsReachable(e);
    hide Owned, EntryCells;
    forall c ensures (adopted + Owned(e))[c] <= 1 {
      assert (adopted + Owned(e))[c] == adopted[c] + Owned(e)[c];
    }
  }

  lemma Accounted(released: multiset<Cell>, before: multiset<Cell>, taken: multiset<Cell>,
                  freed: multiset<Cell>, after: multiset<Cell>)
    requires after + freed == before + taken
    ensures released + before + taken == released + freed + after
  {
    assert released + before + taken == released + (before + taken);
    assert released + freed + after == released + (after + freed);
  }

  lemma RemoveEntriesDistinct(o: Order, t: Tree, key: string)
    requires Distinct(o, InOrder(t))
    ensures Distinct(o, InOrder(Remove(o, t, key).tree))
  {
    hide Compare, Remove, Find, InOrder, Distinct, Without, Owned;
    RemoveEntries(o, t, key);
    if Find(o, t, key).Some? {
      WithoutKeepsDistinct(o, InOrder(t), Find(o, t, key).value);
    }
  }

  /**
   Over every legal run the tree is a finite map under the comparator, and its memory is
   accounted for: each owned cell is in the tree or was given back, never both, never twice,
   and nothing given back is still referred to.
   */
  lemma {:induction false} LegalRunIsSafeMap(o: Order, ops: seq<Op>)
    requires LegalRun(o, ops)
    ensures var d := Run(o, EMPTY, ops);
      Safe(o, d) && Represents(o, InOrder(d.root), MapRun(o, ops))
  {
    hide Compare, Canon, Add, Remove, Find, InOrder, Represents, Safe, Legal;
    if ops == [] {
      EmptyIsSafe(o);
    } else {
      var before := ops[..|ops| - 1];
      var d, op := Run(o, EMPTY, before), ops[|ops| - 1];
      assert LegalRun(o, before) by {
        forall n | 0 <= n < |before| ensures Legal(o, Run(o, EMPTY, before[..n]), before[n]) {
          assert before[..n] == ops[..n];
        }
      }
      assert Legal(o, d, op);
      LegalRunIsSafeMap(o, before);
      StepKeepsSafe(o, d, op);
      StepRefines(o, d, op, MapRun(o, before));
    }
  }

  lemma EmptyIsSafe(o: Order)
    ensures Safe(o, EMPTY) && Represents(o, InOrder(Nil), map[])
  {
    EmptyTreeObeys(o);
  }

  lemma StepRefines(o: Order, d: Store, op: Op, m: Contents)
    requires Safe(o, d) && Legal(o, d, op) && Represents(o, InOrder(d.root), m)
    ensures Represents(o, InOrder(Step(o, d, op).root), MapStep(o, m, op))
  {
    hide Compare, Canon, Add, Remove, Find, InOrder, Represents;
    match op {
      case Put(e) => AddRefines(o, d.root, e, m);
      case Drop(k) => RemoveRefines(o, d.root, k, m);
    }
  }

  lemma {:induction false} FreeAllIsHoldings(t: Tree)
    ensures FreeAll(t) == Holdings(t)
  {
    hide Owned, Holdings;
    HoldingsAroundRoot(t);
    if t.Nil? {
    } else {
      FreeAllIsHoldings(t.left);
      FreeAllIsHoldings(t.right);
    }
  }

  /** Freeing the dictionary after any legal run leaves every cell it ever owned given back exactly once. */
  lemma EveryCellReleasedOnce(o: Order, ops: seq<Op>)
    requires LegalRun(o, ops)
    ensures var d := Run(o, EMPTY, ops);
      forall c :: c in d.adopted ==> (d.released + FreeAll(d.root))[c] == 1
    ensures var d := Run(o, EMPTY, ops); d.released + FreeAll(d.root) == d.adopted
  {
    hide Run, FreeAll, Holdings, Represents;
    LegalRunIsSafeMap(o, ops);
    FreeAllIsHoldings(Run(o, EMPTY, ops).root);
  }
}
