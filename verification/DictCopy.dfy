/** `onion_dict_hard_dup`: a deep copy made by adding the entries, in order, to a new dictionary. */
module DictCopy {
  import opened DictKeys
  import opened AATree
  import opened DictOrder

  /** What a dictionary stores, without the memory it is stored in. */
  datatype Item = TextItem(key: string, text: string) | DictItem(key: string, items: seq<Item>)

  function EntryItem(e: Entry): Item {
    match e.value
    case Text(s) => TextItem(e.key, s)
    case Nested(root) => DictItem(e.key, Items(root))
  }

  function Items(t: Tree): (r: seq<Item>)
    ensures |r| == Size(t)
  {
    if t.Nil? then [] else Items(t.left) + [EntryItem(t.data)] + Items(t.right)
  }

  /** OD_DICT is set on exactly the entries whose value is a dictionary, at every depth. */
  ghost predicate WellTyped(t: Tree) {
    t.Node? ==>
      && WellTyped(t.left) && WellTyped(t.right)
      && (t.data.flags.isDict <==> t.data.value.Nested?)
      && (t.data.value.Nested? ==> WellTyped(t.data.value.root))
  }

  /** The tree, and every tree nested in it, is in strcmp order. */
  ghost predicate DeepSorted(t: Tree) {
    Sorted(CaseSensitive, InOrder(t)) && NestedSorted(t)
  }

  ghost predicate NestedSorted(t: Tree) {
    t.Node? ==>
      && NestedSorted(t.left) && NestedSorted(t.right)
      && (t.data.value.Nested? ==> Sorted(CaseSensitive, InOrder(t.data.value.root)) && NestedSorted(t.data.value.root))
  }

  /**
   Add a copy of every entry of `src`, in order, to `dst`; `next` is the first cell not yet
   handed out.  `onion_dict_preorder` with `onion_dict_hard_dup_helper`.
   */
  function DupInto(src: Tree, dst: Tree, next: Cell): (Tree, Cell) {
    if src.Nil? then (dst, next)
    else
      var (d1, n1) := DupInto(src.left, dst, next);
      var (e, n2) := DupEntry(src.data, n1);
      DupInto(src.right, Add(CaseSensitive, d1, e), n2)
  }

  /** `onion_dict_set_node_data` under OD_DUP_ALL: key and value are copied into new cells. */
  function DupEntry(e: Entry, next: Cell): (Entry, Cell) {
    var flags := Flags(true, true, false, e.flags.isDict);
    match e.value
    case Text(s) => (Entry(e.key, next, Text(s), next + 1, flags), next + 2)
    case Nested(root) =>
      var (copy, n) := DupInto(root, Nil, next + 1);
      (Entry(e.key, next, Nested(copy), n, flags), n + 1)
  }

  function HardDup(t: Tree, next: Cell): Tree {
    DupInto(t, Nil, next).0
  }

  // ------------------------------------------------------------------ storage

  lemma RotationsKeepCells(t: Tree)
    ensures Cells(Skew(t)) == Cells(t) && Cells(Split(t)) == Cells(t)
  {
    hide EntryCells;
    if Skew(t) != t {
      var l, d, r := t.left, t.data, t.right;
      assert Cells(t) == Cells(l.left) + EntryCells(l.data) + Cells(l.right) + EntryCells(d) + Cells(r);
    }
    if Split(t) != t {
      var l, d, r := t.left, t.data, t.right;
      assert Cells(t) == Cells(l) + EntryCells(d) + (Cells(r.left) + EntryCells(r.data) + Cells(r.right));
    }
  }

  lemma {:induction false} AddCells(t: Tree, e: Entry)
    requires !e.flags.replace
    ensures Cells(Add(CaseSensitive, t, e)) == Cells(t) + EntryCells(e)
  {
    hide EntryCells, Compare, Skew, Split;
    if t.Nil? {
    } else {
      if Compare(CaseSensitive, e.key, t.data.key) < 0 {
        AddCells(t.left, e);
        var n := t.(left := Add(CaseSensitive, t.left, e));
        RotationsKeepCells(n);
        RotationsKeepCells(Skew(n));
      } else {
        AddCells(t.right, e);
        var n := t.(right := Add(CaseSensitive, t.right, e));
        RotationsKeepCells(n);
        RotationsKeepCells(Skew(n));
      }
    }
  }

  /** The cells `lo`, `lo+1`, ..., `hi-1`, once each. */
  ghost predicate Exactly(m: multiset<Cell>, lo: Cell, hi: Cell) {
    forall c: Cell :: m[c] == if lo <= c < hi then 1 else 0
  }

  lemma CellsAppend(m0: multiset<Cell>, f1: multiset<Cell>, e: multiset<Cell>, f3: multiset<Cell>,
                    lo: Cell, a: Cell, b: Cell, hi: Cell)
    requires lo <= a <= b <= hi && Exactly(f1, lo, a) && Exactly(e, a, b) && Exactly(f3, b, hi)
    ensures Exactly(f1 + e + f3, lo, hi)
    ensures m0 + f1 + e + f3 == m0 + (f1 + e + f3)
  {
  }

  lemma {:induction false} DupIntoCells(src: Tree, dst: Tree, next: Cell) returns (f: multiset<Cell>)
    ensures var (d, n) := DupInto(src, dst, next);
      n >= next && Exactly(f, next, n) && Cells(d) == Cells(dst) + f
    decreases src
  {
    hide Add, Cells, EntryCells, Exactly;
    if src.Nil? {
      f := multiset{};
      assert Exactly(f, next, next) by { NothingExactly(next); }
      assert Cells(dst) + f == Cells(dst);
    } else {
      var (d1, n1) := DupInto(src.left, dst, next);
      var (e, n2) := DupEntry(src.data, n1);
      var d2 := Add(CaseSensitive, d1, e);
      var (d, n) := DupInto(src.right, d2, n2);
      var f1 := DupIntoCells(src.left, dst, next);
      DupEntryCells(src.data, n1);
      AddCells(d1, e);
      var f3 := DupIntoCells(src.right, d2, n2);
      CellsAppend(Cells(dst), f1, EntryCells(e), f3, next, n1, n2, n);
      f := f1 + EntryCells(e) + f3;
    }
  }

  lemma NothingExactly(n: Cell)
    ensures Exactly(multiset{}, n, n)
  {
  }

  lemma {:induction false} DupEntryCells(e: Entry, next: Cell)
    ensures var (c, n) := DupEntry(e, next);
      n > next && Exactly(EntryCells(c), next, n) && !c.flags.replace && c.key == e.key
    decreases e
  {
    if e.value.Nested? {
      var f := DupIntoCells(e.value.root, Nil, next + 1);
      assert Cells(Nil) + f == f;
    }
  }

  /** The copy lives in new cells only, each used once, so it shares nothing with the original. */
  lemma HardDupSharesNothing(t: Tree, next: Cell)
    requires forall c :: c in Cells(t) ==> c < next
    ensures var d := HardDup(t, next);
      && Cells(d) !! Cells(t)
      && forall c :: Cells(d)[c] <= 1 && (c in Cells(d) ==> c >= next)
  {
    var f := DupIntoCells(t, Nil, next);
    assert Cells(Nil) + f == f;
  }

  /** Every entry, at every depth, owns its key and its value. */
  ghost predicate OwnsAll(t: Tree) {
    t.Node? ==> OwnsAll(t.left) && EntryOwnsAll(t.data) && OwnsAll(t.right)
  }

  ghost predicate EntryOwnsAll(e: Entry) {
    e.flags.freeKey && e.flags.freeValue && (e.value.Nested? ==> e.flags.isDict && OwnsAll(e.value.root))
  }

  lemma {:induction false} OwnsAllGivesAll(t: Tree)
    requires OwnsAll(t)
    ensures FreeAll(t) == Cells(t)
    decreases t
  {
    hide Owned, EntryCells, EntryOwnsAll;
    if t.Nil? {
    } else {
      OwnsAllGivesAll(t.left);
      EntryOwnsAllGivesAll(t.data);
      OwnsAllGivesAll(t.right);
    }
  }

  lemma {:induction false} EntryOwnsAllGivesAll(e: Entry)
    requires EntryOwnsAll(e)
    ensures Owned(e) == EntryCells(e)
    decreases e
  {
    hide FreeAll, Cells, OwnsAll;
    if e.value.Nested? {
      OwnsAllGivesAll(e.value.root);
    }
  }

  lemma {:induction false} AddOwnsAll(t: Tree, e: Entry)
    requires OwnsAll(t) && EntryOwnsAll(e)
    ensures OwnsAll(Add(CaseSensitive, t, e))
  {
    hide Compare, EntryOwnsAll;
    if t.Nil? {
    } else {
      AddOwnsAll(t.left, e);
      AddOwnsAll(t.right, e);
    }
  }

  lemma {:induction false} DupIntoOwnsAll(src: Tree, dst: Tree, next: Cell)
    requires WellTyped(src) && OwnsAll(dst)
    ensures OwnsAll(DupInto(src, dst, next).0)
    decreases src
  {
    hide OwnsAll, Add;
    if src.Nil? {
    } else {
      var (d1, n1) := DupInto(src.left, dst, next);
      var (e, n2) := DupEntry(src.data, n1);
      DupIntoOwnsAll(src.left, dst, next);
      DupEntryOwnsAll(src.data, n1);
      AddOwnsAll(d1, e);
      DupIntoOwnsAll(src.right, Add(CaseSensitive, d1, e), n2);
    }
  }

  lemma {:induction false} DupEntryOwnsAll(e: Entry, next: Cell)
    requires (e.flags.isDict <==> e.value.Nested?) && (e.value.Nested? ==> WellTyped(e.value.root))
    ensures EntryOwnsAll(DupEntry(e, next).0)
    decreases e
  {
    if e.value.Nested? {
      DupIntoOwnsAll(e.value.root, Nil, next + 1);
    }
  }

  /** Freeing a deep copy gives back every cell it is made of, at every depth. */
  lemma FreeingACopyGivesAll(t: Tree, next: Cell)
    requires WellTyped(t)
    ensures FreeAll(HardDup(t, next)) == Cells(HardDup(t, next))
  {
    DupIntoOwnsAll(t, Nil, next);
    OwnsAllGivesAll(HardDup(t, next));
  }

  // ------------------------------------------------------------------ content

  lemma {:induction false} ItemsInOrder(t: Tree)
    ensures forall i :: 0 <= i < Size(t) ==> Items(t)[i] == EntryItem(InOrder(t)[i])
  {
    if t.Nil? {
    } else {
      ItemsInOrder(t.left);
      ItemsInOrder(t.right);
      forall i | 0 <= i < Size(t) ensures Items(t)[i] == EntryItem(InOrder(t)[i]) {
        if i > Size(t.left) {
          assert InOrder(t)[i] == InOrder(t.right)[i - Size(t.left) - 1];
          assert Items(t)[i] == Items(t.right)[i - Size(t.left) - 1];
        }
      }
    }
  }

  ghost predicate SortedItems(s: seq<Item>) {
    forall i, j :: 0 <= i < j < |s| ==> Compare(CaseSensitive, s[i].key, s[j].key) <= 0
  }

  /** Everything nested in the item is sorted. */
  ghost predicate ItemSorted(x: Item) {
    x.DictItem? ==> SortedItems(x.items) && forall y :: y in x.items ==> ItemSorted(y)
  }

  lemma SortedAsItems(t: Tree)
    ensures Sorted(CaseSensitive, InOrder(t)) <==> SortedItems(Items(t))
  {
    hide Compare;
    ItemsInOrder(t);
    var s, u := InOrder(t), Items(t);
    assert forall i :: 0 <= i < |s| ==> u[i].key == s[i].key;
  }

  lemma {:induction false} NestedAsItems(t: Tree)
    ensures NestedSorted(t) <==> forall y :: y in Items(t) ==> ItemSorted(y)
  {
    hide Compare, Sorted, SortedItems;
    if t.Nil? {
    } else {
      NestedAsItems(t.left);
      NestedAsItems(t.right);
      if t.data.value.Nested? {
        SortedAsItems(t.data.value.root);
        NestedAsItems(t.data.value.root);
      }
      var l, x, r := Items(t.left), EntryItem(t.data), Items(t.right);
      assert ItemSorted(x) <==>
        (t.data.value.Nested? ==> Sorted(CaseSensitive, InOrder(t.data.value.root)) && NestedSorted(t.data.value.root));
      assert x in Items(t) && (forall y :: y in l || y in r ==> y in Items(t));
      forall y | y in Items(t) ensures y in l || y == x || y in r {}
    }
  }

  lemma {:induction false} AddKeepsNested(t: Tree, e: Entry)
    requires NestedSorted(t) && (e.value.Nested? ==> DeepSorted(e.value.root))
    ensures NestedSorted(Add(CaseSensitive, t, e))
  {
    hide Compare, Sorted;
    if t.Nil? {
    } else {
      AddKeepsNested(t.left, e);
      AddKeepsNested(t.right, e);
    }
  }

  /** Whatever the source's order, a copy is in strcmp order at every depth. */
  lemma {:induction false} DupIntoSorts(src: Tree, dst: Tree, next: Cell)
    requires DeepSorted(dst)
    ensures DeepSorted(DupInto(src, dst, next).0)
    decreases src
  {
    hide Sorted, NestedSorted, Add;
    if src.Nil? {
    } else {
      var (d1, n1) := DupInto(src.left, dst, next);
      var (e, n2) := DupEntry(src.data, n1);
      DupIntoSorts(src.left, dst, next);
      DupEntrySorts(src.data, n1);
      AddKeepsOrder(CaseSensitive, d1, e);
      AddKeepsNested(d1, e);
      DupIntoSorts(src.right, Add(CaseSensitive, d1, e), n2);
    }
  }

  lemma {:induction false} DupEntrySorts(e: Entry, next: Cell)
    ensures var c := DupEntry(e, next).0; c.value.Nested? ==> DeepSorted(c.value.root)
    decreases e
  {
    if e.value.Nested? {
      DupIntoSorts(e.value.root, Nil, next + 1);
    }
  }

  lemma SortedItemsPrefix(a: seq<Item>, b: seq<Item>)
    requires SortedItems(a + b)
    ensures SortedItems(a)
  {
    hide Compare;
    assert forall i :: 0 <= i < |a| ==> (a + b)[i] == a[i];
  }

  lemma NoKeyExceeds(d: Tree, e: Entry)
    requires SortedItems(Items(d) + [EntryItem(e)])
    ensures Sorted(CaseSensitive, InOrder(d))
    ensures forall i :: 0 <= i < Size(d) ==> Compare(CaseSensitive, InOrder(d)[i].key, e.key) <= 0
  {
    hide Compare, InOrder, Items, Sorted;
    var u := Items(d) + [EntryItem(e)];
    ItemsInOrder(d);
    SortedItemsPrefix(Items(d), [EntryItem(e)]);
    SortedAsItems(d);
    forall i | 0 <= i < Size(d) ensures Compare(CaseSensitive, InOrder(d)[i].key, e.key) <= 0 {
      assert u[i] == Items(d)[i] && u[Size(d)].key == e.key;
    }
  }

  lemma ItemsOfAppended(d: Tree, e: Entry, n: Tree)
    requires InOrder(n) == InOrder(d) + [e]
    ensures Items(n) == Items(d) + [EntryItem(e)]
  {
    hide InOrder, Items, EntryItem;
    ItemsInOrder(d);
    ItemsInOrder(n);
    assert |InOrder(n)| == Size(n) && |InOrder(d)| == Size(d);
  }

  /** Adding an entry that no stored key exceeds appends its item. */
  lemma AddAppends(d: Tree, e: Entry)
    requires !e.flags.replace && SortedItems(Items(d) + [EntryItem(e)])
    ensures Items(Add(CaseSensitive, d, e)) == Items(d) + [EntryItem(e)]
  {
    hide Compare, Add, Items, InOrder, SortedItems, Sorted;
    NoKeyExceeds(d, e);
    CountLeAll(CaseSensitive, InOrder(d), e.key);
    AddInOrder(CaseSensitive, d, e);
    assert InsertedAt(InOrder(d), Size(d), e) == InOrder(d) + [e];
    ItemsOfAppended(d, e, Add(CaseSensitive, d, e));
  }

  lemma {:induction false} DupIntoAppends(src: Tree, dst: Tree, next: Cell)
    requires NestedSorted(src) && SortedItems(Items(dst) + Items(src))
    ensures Items(DupInto(src, dst, next).0) == Items(dst) + Items(src)
    decreases src
  {
    hide Sorted, SortedItems, Add;
    if src.Node? {
      var (d1, n1) := DupInto(src.left, dst, next);
      var (e, n2) := DupEntry(src.data, n1);
      var l, x, r := Items(src.left), EntryItem(src.data), Items(src.right);
      assert Items(dst) + Items(src) == Items(dst) + l + [x] + r == (Items(dst) + l) + ([x] + r);
      SortedItemsPrefix(Items(dst) + l + [x], r);
      SortedItemsPrefix(Items(dst) + l, [x]);
      DupIntoAppends(src.left, dst, next);
      DupEntryItem(src.data, n1);
      AddAppends(d1, e);
      DupIntoAppends(src.right, Add(CaseSensitive, d1, e), n2);
    } else {
      assert Items(dst) + Items(src) == Items(dst);
    }
  }

  lemma {:induction false} DupEntryItem(e: Entry, next: Cell)
    requires e.value.Nested? ==> DeepSorted(e.value.root)
    ensures EntryItem(DupEntry(e, next).0) == EntryItem(e) && !DupEntry(e, next).0.flags.replace
    decreases e
  {
    hide Compare, Sorted, SortedItems, NestedSorted, InOrder;
    if e.value.Nested? {
      var root := e.value.root;
      SortedAsItems(root);
      assert Items(Nil) + Items(root) == Items(root);
      DupIntoAppends(root, Nil, next + 1);
      hide DupInto, Items;
    }
  }

  /**
   A deep copy has the same entries in the same order, at every depth, exactly when the
   original is in strcmp order throughout: the copy forgets OD_ICASE.
   */
  lemma HardDupCopies(t: Tree, next: Cell)
    requires WellTyped(t)
    ensures Items(HardDup(t, next)) == Items(t) <==> DeepSorted(t)
  {
    var d := HardDup(t, next);
    if DeepSorted(t) {
      SortedAsItems(t);
      assert Items(Nil) + Items(t) == Items(t);
      DupIntoAppends(t, Nil, next);
    }
    if Items(d) == Items(t) {
      DupIntoSorts(t, Nil, next);
      SortedAsItems(d);
      SortedAsItems(t);
      NestedAsItems(d);
      NestedAsItems(t);
    }
  }

  /** A dictionary that ignores case and holds "a" and "B": the copy has them the other way round. */
  lemma CaseIsForgotten(a: Entry, b: Entry, next: Cell)
    requires a.key == "a" && b.key == "B" && a.value.Text? && b.value.Text?
    ensures var t := Add(CaseInsensitive, Add(CaseInsensitive, Nil, a), b);
      Items(t) == [EntryItem(a), EntryItem(b)] && Items(HardDup(t, next)) == [EntryItem(b), EntryItem(a)]
  {
    KeysInBothOrders();
    hide Compare;
    var leaf := Node(Nil, b, 1, Nil);
    var t := Node(Nil, a, 1, leaf);
    assert Add(CaseInsensitive, Nil, a) == Node(Nil, a, 1, Nil);
    assert Add(CaseInsensitive, Node(Nil, a, 1, Nil), b) == t;
    var (x, n) := DupEntry(a, next);
    var (y, m) := DupEntry(b, n);
    var d := Node(Nil, x, 1, Nil);
    var r := Node(Nil, y, 1, d);
    assert Add(CaseSensitive, Nil, x) == d && Add(CaseSensitive, Nil, y) == Node(Nil, y, 1, Nil);
    assert Add(CaseSensitive, d, y) == r;
    assert DupInto(Nil, Nil, next) == (Nil, next) && DupInto(Nil, d, n) == (d, n) && DupInto(Nil, r, m) == (r, m);
    assert DupInto(leaf, d, n) == (r, m);
    assert HardDup(t, next) == DupInto(leaf, d, n).0;
    TwoItems(a, b);
    TwoItems(y, x);
  }

  lemma KeysInBothOrders()
    ensures Compare(CaseInsensitive, "B", "a") > 0 && Compare(CaseSensitive, "B", "a") < 0
  {
  }

  lemma TwoItems(a: Entry, b: Entry)
    ensures Items(Node(Nil, a, 1, Node(Nil, b, 1, Nil))) == [EntryItem(a), EntryItem(b)]
  {
    hide EntryItem;
    assert Items(Node(Nil, b, 1, Nil)) == [EntryItem(b)];
  }
}
