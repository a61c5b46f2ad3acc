/** What the tree operations do to the in-order sequence of entries (onion/dict.c). */
module DictOrder {
  import opened Wrappers
  import opened DictKeys
  import opened AATree

  ghost predicate Sorted(o: Order, s: seq<Entry>) {
    forall i, j :: 0 <= i < j < |s| ==> Compare(o, s[i].key, s[j].key) <= 0
  }

  /** No two entries compare equal. */
  ghost predicate Distinct(o: Order, s: seq<Entry>) {
    forall i, j :: 0 <= i < j < |s| ==> Compare(o, s[i].key, s[j].key) < 0
  }

  /** How many entries have a key that does not exceed `key`. */
  function CountLe(o: Order, s: seq<Entry>, key: string): (n: nat)
    ensures n <= |s|
  {
    if s == [] then 0
    else CountLe(o, s[..|s| - 1], key) + if Compare(o, s[|s| - 1].key, key) <= 0 then 1 else 0
  }

  function Keys(o: Order, s: seq<Entry>): (k: seq<string>)
    ensures |k| == |s|
    ensures forall i :: 0 <= i < |s| ==> k[i] == Canon(o, s[i].key)
  {
    seq(|s|, i requires 0 <= i < |s| => Canon(o, s[i].key))
  }

  function InsertedAt<T>(s: seq<T>, i: nat, x: T): seq<T>
    requires i <= |s|
  {
    s[..i] + [x] + s[i..]
  }

  lemma InsertAroundRoot<T>(l: seq<T>, d: T, r: seq<T>, i: nat, x: T)
    ensures i <= |l| ==> InsertedAt(l, i, x) + [d] + r == InsertedAt(l + [d] + r, i, x)
    ensures i <= |r| ==> l + [d] + InsertedAt(r, i, x) == InsertedAt(l + [d] + r, |l| + 1 + i, x)
  {
    var s := l + [d] + r;
    if i <= |l| {
      assert s[..i] == l[..i] && s[i..] == l[i..] + [d] + r;
    }
    if i <= |r| {
      assert s[..|l| + 1 + i] == l + [d] + r[..i] && s[|l| + 1 + i..] == r[i..];
    }
  }

  lemma UpdateAroundRoot<T>(l: seq<T>, d: T, r: seq<T>, i: nat, x: T)
    ensures i < |l| ==> l[i := x] + [d] + r == (l + [d] + r)[i := x]
    ensures i < |r| ==> l + [d] + r[i := x] == (l + [d] + r)[|l| + 1 + i := x]
    ensures l + [x] + r == (l + [d] + r)[|l| := x]
  {
  }

  lemma WithoutAroundRoot<T>(l: seq<T>, d: T, r: seq<T>, i: nat)
    ensures i < |l| ==> Without(l, i) + [d] + r == Without(l + [d] + r, i)
    ensures i < |r| ==> l + [d] + Without(r, i) == Without(l + [d] + r, |l| + 1 + i)
    ensures Without(l + [d] + r, |l|) == l + r
  {
    var s := l + [d] + r;
    if i < |l| {
      assert s[..i] == l[..i] && s[i + 1..] == l[i + 1..] + [d] + r;
    }
    if i < |r| {
      assert s[..|l| + 1 + i] == l + [d] + r[..i] && s[|l| + 1 + i + 1..] == r[i + 1..];
    }
    assert s[..|l|] == l && s[|l| + 1..] == r;
  }

  // ------------------------------------------------------------------ rotations

  lemma RotationsKeepOrder(t: Tree)
    ensures InOrder(Skew(t)) == InOrder(t) && InOrder(Split(t)) == InOrder(t)
  {
    if Skew(t) != t {
      assert InOrder(Skew(t)) == InOrder(t);
    }
    if Split(t) != t {
      assert InOrder(Split(t)) == InOrder(t);
    }
  }

  lemma DecreaseLevelKeepsOrder(t: Tree)
    requires t.Node?
    ensures InOrder(DecreaseLevel(t)) == InOrder(t)
  {
  }

  lemma SkewSpineKeepsOrder(r: Tree)
    requires r.Node?
    ensures InOrder(SkewRightSpine(r)) == InOrder(r)
  {
    hide Skew;
    RotationsKeepOrder(r);
    RotationsKeepOrder(Skew(r).right);
  }

  lemma RebalanceKeepsOrder(t: Tree)
    requires t.Node?
    ensures InOrder(Rebalance(t)) == InOrder(t)
  {
    hide Skew, Split, DecreaseLevel, SkewRightSpine;
    DecreaseLevelKeepsOrder(t);
    var t1 := Skew(DecreaseLevel(t));
    RotationsKeepOrder(DecreaseLevel(t));
    if t1.right.Node? {
      SkewSpineKeepsOrder(t1.right);
    }
    var t2 := if t1.right.Node? then t1.(right := SkewRightSpine(t1.right)) else t1;
    RotationsKeepOrder(t2);
    RotationsKeepOrder(Split(t2).right);
  }

  // ------------------------------------------------------------------ sorted sequences

  lemma {:induction false} CountLeAdds(o: Order, a: seq<Entry>, b: seq<Entry>, key: string)
    ensures CountLe(o, a + b, key) == CountLe(o, a, key) + CountLe(o, b, key)
  {
    if b == [] {
      assert a + b == a;
    } else {
      assert (a + b)[..|a + b| - 1] == a + b[..|b| - 1];
      CountLeAdds(o, a, b[..|b| - 1], key);
    }
  }

  lemma {:induction false} CountLeAll(o: Order, s: seq<Entry>, key: string)
    requires forall i :: 0 <= i < |s| ==> Compare(o, s[i].key, key) <= 0
    ensures CountLe(o, s, key) == |s|
  {
    if s == [] {
    } else {
      CountLeAll(o, s[..|s| - 1], key);
    }
  }

  lemma {:induction false} CountLeNone(o: Order, s: seq<Entry>, key: string)
    requires forall i :: 0 <= i < |s| ==> Compare(o, s[i].key, key) > 0
    ensures CountLe(o, s, key) == 0
  {
    if s == [] {
    } else {
      CountLeNone(o, s[..|s| - 1], key);
    }
  }

  /** In a sorted sequence the entries not exceeding `key` are exactly the first CountLe of them. */
  lemma {:induction false} CountLeSplits(o: Order, s: seq<Entry>, key: string)
    requires Sorted(o, s)
    ensures forall i :: 0 <= i < |s| ==> (i < CountLe(o, s, key) <==> Compare(o, s[i].key, key) <= 0)
  {
    hide Compare, Canon;
    if s == [] {
    } else {
      var p := s[..|s| - 1];
      CountLeSplits(o, p, key);
      if Compare(o, s[|p|].key, key) <= 0 {
        forall i | 0 <= i < |p| ensures Compare(o, s[i].key, key) <= 0 {
          CompareTransitive(o, s[i].key, s[|p|].key, key);
        }
        CountLeAll(o, p, key);
      }
      assert forall i :: 0 <= i < |p| ==> p[i] == s[i];
    }
  }

  lemma SortedPieces(o: Order, l: seq<Entry>, d: Entry, r: seq<Entry>)
    requires Sorted(o, l + [d] + r)
    ensures Sorted(o, l) && Sorted(o, r)
    ensures forall i :: 0 <= i < |l| ==> Compare(o, l[i].key, d.key) <= 0
    ensures forall i :: 0 <= i < |r| ==> Compare(o, d.key, r[i].key) <= 0
  {
    hide Compare;
    var s := l + [d] + r;
    assert s[|l|] == d;
    forall i, j | 0 <= i < j < |l| ensures Compare(o, l[i].key, l[j].key) <= 0 {
      assert s[i] == l[i] && s[j] == l[j];
    }
    forall i, j | 0 <= i < j < |r| ensures Compare(o, r[i].key, r[j].key) <= 0 {
      assert s[|l| + 1 + i] == r[i] && s[|l| + 1 + j] == r[j];
    }
    forall i | 0 <= i < |l| ensures Compare(o, l[i].key, d.key) <= 0 {
      assert s[i] == l[i];
    }
    forall i | 0 <= i < |r| ensures Compare(o, d.key, r[i].key) <= 0 {
      assert s[|l| + 1 + i] == r[i];
    }
  }

  /** Either side of the root is sorted, and the root's key bounds both. */
  lemma SortedAroundRoot(o: Order, t: Tree)
    requires t.Node? && Sorted(o, InOrder(t))
    ensures Sorted(o, InOrder(t.left)) && Sorted(o, InOrder(t.right))
    ensures forall x :: x in InOrder(t.left) ==> Compare(o, x.key, t.data.key) <= 0
    ensures forall x :: x in InOrder(t.right) ==> Compare(o, t.data.key, x.key) <= 0
  {
    hide Compare;
    SortedPieces(o, InOrder(t.left), t.data, InOrder(t.right));
  }

  lemma SmallerThanRight(o: Order, t: Tree, key: string)
    requires t.Node? && Sorted(o, InOrder(t)) && Compare(o, key, t.data.key) < 0
    ensures forall x :: x in InOrder(t.right) ==> Compare(o, x.key, key) > 0
  {
    hide Compare, Canon;
    SortedAroundRoot(o, t);
    forall x | x in InOrder(t.right) ensures Compare(o, x.key, key) > 0 {
      CompareTransitive(o, key, t.data.key, x.key);
      CompareFlips(o, key, x.key);
    }
  }

  lemma NotSmallerThanLeft(o: Order, t: Tree, key: string)
    requires t.Node? && Sorted(o, InOrder(t)) && Compare(o, key, t.data.key) >= 0
    ensures Compare(o, t.data.key, key) <= 0
    ensures forall x :: x in InOrder(t.left) ==> Compare(o, x.key, key) <= 0
    ensures Compare(o, key, t.data.key) > 0 ==> forall x :: x in InOrder(t.left) ==> Compare(o, x.key, key) < 0
  {
    hide Compare, Canon;
    SortedAroundRoot(o, t);
    CompareFlips(o, key, t.data.key);
    forall x | x in InOrder(t.left)
      ensures Compare(o, x.key, key) <= 0
      ensures Compare(o, key, t.data.key) > 0 ==> Compare(o, x.key, key) < 0
    {
      CompareTransitive(o, x.key, t.data.key, key);
    }
  }

  lemma CountLeInTree(o: Order, t: Tree, key: string)
    requires t.Node? && Sorted(o, InOrder(t))
    ensures Compare(o, key, t.data.key) < 0 ==>
              CountLe(o, InOrder(t), key) == CountLe(o, InOrder(t.left), key)
    ensures Compare(o, key, t.data.key) >= 0 ==>
              CountLe(o, InOrder(t), key) == Size(t.left) + 1 + CountLe(o, InOrder(t.right), key)
  {
    hide Compare, Canon;
    var l, r := InOrder(t.left), InOrder(t.right);
    CountLeAdds(o, l + [t.data], r, key);
    CountLeAdds(o, l, [t.data], key);
    CompareFlips(o, key, t.data.key);
    if Compare(o, key, t.data.key) < 0 {
      SmallerThanRight(o, t, key);
      CountLeNone(o, r, key);
    } else {
      NotSmallerThanLeft(o, t, key);
      CountLeAll(o, l, key);
    }
  }

  // ------------------------------------------------------------------ search

  lemma NothingInOrder()
    ensures InOrder(Nil) == []
  {
  }

  lemma Parts<T>(l: seq<T>, d: T, r: seq<T>)
    ensures var s := l + [d] + r;
      && (forall i :: 0 <= i < |l| ==> s[i] == l[i])
      && s[|l|] == d
      && (forall i :: 0 <= i < |r| ==> s[|l| + 1 + i] == r[i])
      && forall x :: x in s ==> x in l || x == d || x in r
  {
  }

  lemma RootInOrder(t: Tree)
    requires t.Node?
    ensures InOrder(t) == InOrder(t.left) + [t.data] + InOrder(t.right)
  {
  }

  lemma PartsInOrder(t: Tree)
    requires t.Node?
    ensures forall i :: 0 <= i < Size(t.left) ==> InOrder(t)[i] == InOrder(t.left)[i]
    ensures InOrder(t)[Size(t.left)] == t.data
    ensures forall i :: 0 <= i < Size(t.right) ==> InOrder(t)[Size(t.left) + 1 + i] == InOrder(t.right)[i]
    ensures forall x :: x in InOrder(t) ==> x in InOrder(t.left) || x == t.data || x in InOrder(t.right)
  {
    hide InOrder;
    RootInOrder(t);
    Parts(InOrder(t.left), t.data, InOrder(t.right));
  }

  /** The search finds an equal key exactly when there is one. */
  lemma {:induction false} FindCorrect(o: Order, t: Tree, key: string)
    requires Sorted(o, InOrder(t))
    ensures var r := Find(o, t, key);
      if r.Some? then Compare(o, InOrder(t)[r.value].key, key) == 0
      else forall x :: x in InOrder(t) ==> Compare(o, x.key, key) != 0
  {
    hide Compare, Canon, InOrder, Sorted;
    if t.Nil? {
      NothingInOrder();
    } else {
      SortedAroundRoot(o, t);
      PartsInOrder(t);
      CompareFlips(o, key, t.data.key);
      if Compare(o, key, t.data.key) < 0 {
        FindCorrect(o, t.left, key);
        SmallerThanRight(o, t, key);
      } else if Compare(o, key, t.data.key) > 0 {
        FindCorrect(o, t.right, key);
        NotSmallerThanLeft(o, t, key);
      }
    }
  }

  // ------------------------------------------------------------------ insertion

  /** The in-order sequence an insertion is meant to produce. */
  function Inserted(o: Order, t: Tree, e: Entry): seq<Entry> {
    var s := InOrder(t);
    if e.flags.replace && Find(o, t, e.key).Some? then s[Find(o, t, e.key).value := e]
    else InsertedAt(s, CountLe(o, s, e.key), e)
  }

  lemma InsertedLeft(o: Order, t: Tree, e: Entry)
    requires t.Node? && Sorted(o, InOrder(t)) && Compare(o, e.key, t.data.key) < 0
    ensures Inserted(o, t, e) == Inserted(o, t.left, e) + [t.data] + InOrder(t.right)
  {
    hide Compare, CountLe, Sorted, InsertedAt;
    CountLeInTree(o, t, e.key);
    var l, r := InOrder(t.left), InOrder(t.right);
    if Find(o, t.left, e.key).Some? {
      UpdateAroundRoot(l, t.data, r, Find(o, t.left, e.key).value, e);
    }
    InsertAroundRoot(l, t.data, r, CountLe(o, l, e.key), e);
  }

  lemma InsertedRight(o: Order, t: Tree, e: Entry)
    requires t.Node? && Sorted(o, InOrder(t))
    requires Compare(o, e.key, t.data.key) > 0 || (Compare(o, e.key, t.data.key) == 0 && !e.flags.replace)
    ensures Inserted(o, t, e) == InOrder(t.left) + [t.data] + Inserted(o, t.right, e)
  {
    hide Compare, CountLe, Sorted, InsertedAt;
    CountLeInTree(o, t, e.key);
    var l, r := InOrder(t.left), InOrder(t.right);
    if Find(o, t.right, e.key).Some? {
      UpdateAroundRoot(l, t.data, r, Find(o, t.right, e.key).value, e);
    }
    InsertAroundRoot(l, t.data, r, CountLe(o, r, e.key), e);
  }

  /**
   Insertion is stable: with OD_REPLACE the entry the search finds is overwritten where it
   stands, otherwise the new entry goes right after every entry whose key does not exceed it.
   */
  lemma {:induction false} AddInOrder(o: Order, t: Tree, e: Entry)
    requires Sorted(o, InOrder(t))
    ensures var s := InOrder(t);
      InOrder(Add(o, t, e)) ==
        if e.flags.replace && Find(o, t, e.key).Some? then s[Find(o, t, e.key).value := e]
        else InsertedAt(s, CountLe(o, s, e.key), e)
  {
    hide Compare, CountLe, Skew, Split, Sorted, InsertedAt;
    if t.Nil? {
      AddToNothing(o, e);
    } else {
      SortedAroundRoot(o, t);
      var cmp := Compare(o, e.key, t.data.key);
      if cmp == 0 && e.flags.replace {
        UpdateAroundRoot(InOrder(t.left), t.data, InOrder(t.right), 0, e);
      } else if cmp < 0 {
        AddInOrder(o, t.left, e);
        AddedBelow(t.(left := Add(o, t.left, e)));
        InsertedLeft(o, t, e);
      } else {
        AddInOrder(o, t.right, e);
        AddedBelow(t.(right := Add(o, t.right, e)));
        InsertedRight(o, t, e);
      }
      assert InOrder(Add(o, t, e)) == Inserted(o, t, e);
    }
  }

  lemma AddToNothing(o: Order, e: Entry)
    ensures InOrder(Add(o, Nil, e)) == InsertedAt(InOrder(Nil), CountLe(o, InOrder(Nil), e.key), e)
  {
  }

  lemma AddedBelow(n: Tree)
    requires n.Node?
    ensures InOrder(Split(Skew(n))) == InOrder(n.left) + [n.data] + InOrder(n.right)
  {
    RotationsKeepOrder(n);
    RotationsKeepOrder(Skew(n));
  }

  /** `e` may take the place of the entries from `i` up to `j`. */
  lemma SortedWith(o: Order, s: seq<Entry>, i: nat, j: nat, e: Entry)
    requires i <= j <= |s| && Sorted(o, s)
    requires forall k :: 0 <= k < i ==> Compare(o, s[k].key, e.key) <= 0
    requires forall k :: j <= k < |s| ==> Compare(o, e.key, s[k].key) <= 0
    ensures Sorted(o, s[..i] + [e] + s[j..])
  {
    hide Compare;
    var u := s[..i] + [e] + s[j..];
    forall a, b | 0 <= a < b < |u| ensures Compare(o, u[a].key, u[b].key) <= 0 {
      var a', b' := if a < i then a else a - i - 1 + j, if b < i then b else b - i - 1 + j;
      if a < i { assert u[a] == s[a]; } else if a > i { assert u[a] == s[a']; }
      if b < i { assert u[b] == s[b]; } else if b > i { assert u[b] == s[b']; }
    }
  }

  lemma AddKeepsOrder(o: Order, t: Tree, e: Entry)
    requires Sorted(o, InOrder(t))
    ensures Sorted(o, InOrder(Add(o, t, e)))
  {
    hide Compare, Canon, CountLe, Add, Find, InOrder;
    AddInOrder(o, t, e);
    var s := InOrder(t);
    var f := Find(o, t, e.key);
    FindCorrect(o, t, e.key);
    if e.flags.replace && f.Some? {
      var i := f.value;
      CompareFlips(o, s[i].key, e.key);
      forall k | 0 <= k < |s|
        ensures k < i ==> Compare(o, s[k].key, e.key) <= 0
        ensures i + 1 <= k ==> Compare(o, e.key, s[k].key) <= 0
      {
        if k < i { CompareTransitive(o, s[k].key, s[i].key, e.key); }
        if k > i { CompareTransitive(o, e.key, s[i].key, s[k].key); }
      }
      SortedWith(o, s, i, i + 1, e);
      assert s[i := e] == s[..i] + [e] + s[i + 1..];
    } else {
      var i := CountLe(o, s, e.key);
      CountLeSplits(o, s, e.key);
      forall k | i <= k < |s| ensures Compare(o, e.key, s[k].key) <= 0 {
        CompareFlips(o, s[k].key, e.key);
      }
      SortedWith(o, s, i, i, e);
    }
  }

  // ------------------------------------------------------------------ removal

  lemma {:induction false} DisownFirstInOrder(t: Tree)
    requires t.Node?
    ensures var s := InOrder(t);
      s != [] && s[0] == First(t) && InOrder(DisownFirst(t)) == s[0 := First(t).(flags := NO_FLAGS)]
  {
    var l, r := InOrder(t.left), InOrder(t.right);
    var x := First(t).(flags := NO_FLAGS);
    UpdateAroundRoot(l, t.data, r, 0, x);
    if t.left.Nil? {
    } else {
      DisownFirstInOrder(t.left);
    }
  }

  lemma {:induction false} DisownLastInOrder(t: Tree)
    requires t.Node?
    ensures var s := InOrder(t);
      s != [] && s[|s| - 1] == Last(t) && InOrder(DisownLast(t)) == s[|s| - 1 := Last(t).(flags := NO_FLAGS)]
  {
    var l, r := InOrder(t.left), InOrder(t.right);
    var x := Last(t).(flags := NO_FLAGS);
    if t.right.Node? {
      DisownLastInOrder(t.right);
      UpdateAroundRoot(l, t.data, r, |r| - 1, x);
    } else {
      UpdateAroundRoot(l, t.data, r, 0, x);
    }
  }

  lemma SameKeysSorted(o: Order, a: seq<Entry>, b: seq<Entry>)
    requires Sorted(o, a) && |a| == |b| && forall i :: 0 <= i < |a| ==> a[i].key == b[i].key
    ensures Sorted(o, b) && Keys(o, a) == Keys(o, b)
  {
    hide Compare, Canon;
  }

  lemma EqualRun(o: Order, s: seq<Entry>, i: nat, j: nat)
    requires Sorted(o, s) && i < |s| && j < |s| && Compare(o, s[i].key, s[j].key) == 0
    ensures forall k :: i <= k <= j || j <= k <= i ==> Keys(o, s)[k] == Keys(o, s)[j]
  {
    hide Compare, Canon;
    CompareFlips(o, s[i].key, s[j].key);
    forall k | i <= k <= j || j <= k <= i ensures Keys(o, s)[k] == Keys(o, s)[j] {
      if i < k { CompareTransitive(o, s[j].key, s[i].key, s[k].key); }
      if k < i { CompareTransitive(o, s[k].key, s[i].key, s[j].key); }
      CompareFlips(o, s[k].key, s[j].key);
      CompareZeroIsCanon(o, s[i].key, s[j].key);
      CompareZeroIsCanon(o, s[k].key, s[j].key);
    }
  }

  lemma RunWithout(k: seq<string>, i: nat)
    requires i < |k|
    ensures (forall a :: i <= a < |k| ==> k[a] == k[|k| - 1]) ==> Without(k, i) == k[..|k| - 1]
    ensures (forall a :: 0 <= a <= i ==> k[a] == k[0]) ==> Without(k, i) == k[1..]
  {
  }

  /** The found position of the last (first) key of a sorted tree starts (ends) a run of equal keys. */
  lemma RunOfEquals(o: Order, t: Tree, last: bool, i: nat)
    requires t.Node? && Sorted(o, InOrder(t))
    requires Find(o, t, (if last then Last(t) else First(t)).key) == Some(i)
    ensures var k := Keys(o, InOrder(t));
      if last then Without(k, i) == k[..|k| - 1] else Without(k, i) == k[1..]
  {
    hide *;
    DisownFirstInOrder(t);
    DisownLastInOrder(t);
    FindCorrect(o, t, (if last then Last(t) else First(t)).key);
    RunToEnd(o, InOrder(t), last, i);
  }

  lemma RunToEnd(o: Order, s: seq<Entry>, last: bool, i: nat)
    requires i < |s| && Sorted(o, s) && Compare(o, s[i].key, s[if last then |s| - 1 else 0].key) == 0
    ensures var k := Keys(o, s);
      if last then Without(k, i) == k[..|k| - 1] else Without(k, i) == k[1..]
  {
    hide Compare, Without, Sorted, Keys;
    EqualRun(o, s, i, if last then |s| - 1 else 0);
    RunWithout(Keys(o, s), i);
  }

  lemma FindFirstLast(o: Order, t: Tree)
    requires t.Node? && Sorted(o, InOrder(t))
    ensures Find(o, t, First(t).key).Some? && Find(o, t, Last(t).key).Some?
  {
    hide Compare, Canon;
    DisownFirstInOrder(t);
    DisownLastInOrder(t);
    FindCorrect(o, t, First(t).key);
    FindCorrect(o, t, Last(t).key);
    CompareZeroIsCanon(o, First(t).key, First(t).key);
    CompareZeroIsCanon(o, Last(t).key, Last(t).key);
  }

  lemma {:induction false} FindIgnoresFlags(o: Order, t: Tree, last: bool, key: string)
    requires t.Node?
    ensures Find(o, if last then DisownLast(t) else DisownFirst(t), key) == Find(o, t, key)
  {
    hide Compare, InOrder;
    if last {
      if t.right.Node? { FindIgnoresFlags(o, t.right, last, key); }
    } else {
      if t.left.Node? { FindIgnoresFlags(o, t.left, last, key); }
    }
  }

  lemma KeysAroundRoot(o: Order, l: seq<Entry>, d: Entry, r: seq<Entry>)
    ensures Keys(o, l + [d] + r) == Keys(o, l) + [Canon(o, d.key)] + Keys(o, r)
  {
  }

  lemma RebalancedKeys(o: Order, t: Tree)
    requires t.Node?
    ensures Keys(o, InOrder(Rebalance(t))) ==
            Keys(o, InOrder(t.left)) + [Canon(o, t.data.key)] + Keys(o, InOrder(t.right))
  {
    RebalanceKeepsOrder(t);
    KeysAroundRoot(o, InOrder(t.left), t.data, InOrder(t.right));
  }

  /** The key sequence a removal is meant to leave. */
  function KeysLeft(o: Order, t: Tree, key: string): seq<string> {
    var k := Keys(o, InOrder(t));
    var f := Find(o, t, key);
    if f.Some? then Without(k, f.value) else k
  }

  lemma KeysLeftAroundRoot(o: Order, t: Tree, key: string)
    requires t.Node?
    ensures var kl, k, kr := Keys(o, InOrder(t.left)), Canon(o, t.data.key), Keys(o, InOrder(t.right));
      var cmp := Compare(o, key, t.data.key);
      KeysLeft(o, t, key) ==
        if cmp < 0 then KeysLeft(o, t.left, key) + [k] + kr
        else if cmp > 0 then kl + [k] + KeysLeft(o, t.right, key)
        else kl + kr
  {
    hide Compare, Canon, Keys, Without;
    var kl, k, kr := Keys(o, InOrder(t.left)), Canon(o, t.data.key), Keys(o, InOrder(t.right));
    KeysAroundRoot(o, InOrder(t.left), t.data, InOrder(t.right));
    var i := if Compare(o, key, t.data.key) < 0 then Find(o, t.left, key) else Find(o, t.right, key);
    WithoutAroundRoot(kl, k, kr, if i.Some? then i.value else 0);
  }

  lemma RemoveLeftKeys(o: Order, t: Tree, key: string)
    requires t.Node? && Sorted(o, InOrder(t)) && Compare(o, key, t.data.key) < 0
    ensures Keys(o, InOrder(Remove(o, t, key).tree)) == KeysLeft(o, t, key)
    decreases Size(t), 1
  {
    hide Compare, Canon, Sorted, Keys, Rebalance, Without, DisownFirst, DisownLast;
    SortedAroundRoot(o, t);
    KeysLeftAroundRoot(o, t, key);
    RemoveKeys(o, t.left, key);
    RebalancedKeys(o, t.(left := Remove(o, t.left, key).tree));
  }

  lemma RemoveRightKeys(o: Order, t: Tree, key: string)
    requires t.Node? && Sorted(o, InOrder(t)) && Compare(o, key, t.data.key) > 0
    ensures Keys(o, InOrder(Remove(o, t, key).tree)) == KeysLeft(o, t, key)
    decreases Size(t), 1
  {
    hide Compare, Canon, Sorted, Keys, Rebalance, Without, DisownFirst, DisownLast;
    SortedAroundRoot(o, t);
    KeysLeftAroundRoot(o, t, key);
    RemoveKeys(o, t.right, key);
    RebalancedKeys(o, t.(right := Remove(o, t.right, key).tree));
  }

  lemma RemoveRootKeys(o: Order, t: Tree, key: string)
    requires t.Node? && Sorted(o, InOrder(t)) && Compare(o, key, t.data.key) == 0
    ensures Keys(o, InOrder(Remove(o, t, key).tree)) == KeysLeft(o, t, key)
    decreases Size(t), 1
  {
    hide Compare, Canon, Sorted, Keys, Rebalance, Without, DisownFirst, DisownLast;
    SortedAroundRoot(o, t);
    KeysLeftAroundRoot(o, t, key);
    if t.left.Nil? && t.right.Nil? {
      assert Keys(o, []) == [];
    } else if t.left.Nil? {
      RemoveMovedKey(o, t.right, false);
      RebalancedKeys(o, t.(data := First(t.right), right := Remove(o, DisownFirst(t.right), First(t.right).key).tree));
    } else {
      RemoveMovedKey(o, t.left, true);
      RebalancedKeys(o, t.(data := Last(t.left), left := Remove(o, DisownLast(t.left), Last(t.left).key).tree));
    }
  }

  /**
   On every weakly sorted tree, duplicates included, removal deletes from the sequence of
   keys the one the search finds and nothing else.
   */
  lemma {:induction false} RemoveKeys(o: Order, t: Tree, key: string)
    requires Sorted(o, InOrder(t))
    ensures var k := Keys(o, InOrder(t)); var f := Find(o, t, key);
      Keys(o, InOrder(Remove(o, t, key).tree)) == if f.Some? then Without(k, f.value) else k
    decreases Size(t), 2
  {
    if t.Node? {
      hide Compare, Sorted, Keys, Without, Remove, InOrder, Find;
      var cmp := Compare(o, key, t.data.key);
      if cmp < 0 {
        RemoveLeftKeys(o, t, key);
      } else if cmp > 0 {
        RemoveRightKeys(o, t, key);
      } else {
        RemoveRootKeys(o, t, key);
      }
    }
  }

  lemma Ends<T>(k: seq<T>)
    requires k != []
    ensures k[..|k| - 1] + [k[|k| - 1]] == k == [k[0]] + k[1..]
  {
  }

  /** The moved entry's key, and what taking it out of the subtree it came from leaves, make up that subtree. */
  lemma {:induction false} RemoveMovedKey(o: Order, t: Tree, last: bool)
    requires t.Node? && Sorted(o, InOrder(t))
    ensures var k := Keys(o, InOrder(t));
      if last then Keys(o, InOrder(Remove(o, DisownLast(t), Last(t).key).tree)) + [Canon(o, Last(t).key)] == k
      else [Canon(o, First(t).key)] + Keys(o, InOrder(Remove(o, DisownFirst(t), First(t).key).tree)) == k
    decreases Size(t), 3
  {
    hide *;
    var d := if last then DisownLast(t) else DisownFirst(t);
    var m := if last then Last(t) else First(t);
    DisownFirstInOrder(t);
    DisownLastInOrder(t);
    Ends(Keys(o, InOrder(t)));
    SameKeysSorted(o, InOrder(t), InOrder(d));
    FindFirstLast(o, t);
    FindIgnoresFlags(o, t, last, m.key);
    RunOfEquals(o, t, last, Find(o, t, m.key).value);
    assert Size(d) == Size(t);
    RemoveKeys(o, d, m.key);
  }
}
