/**
 The dictionary as onion/dict.c stores it: nodes on the heap, rewritten in place.  Every
 method is proved equal to the value-level operation of AATree.dfy.
 */
module DictHeap {
  import opened Wrappers
  import opened DictKeys
  import opened AATree
  import opened DictOrder
  import opened DictRuns

  class DictNode {
    var data: Entry
    var level: int
    var left: DictNode?
    var right: DictNode?

    constructor (e: Entry)
      ensures data == e && level == 1 && left == null && right == null
    {
      data, level, left, right := e, 1, null, null;
    }
  }

  /** Which nodes hang where: the ghost skeleton of a subtree. */
  datatype Shape = Leaf | At(l: Shape, node: DictNode, r: Shape)

  ghost function Nodes(s: Shape): set<DictNode> {
    if s.Leaf? then {} else Nodes(s.l) + {s.node} + Nodes(s.r)
  }

  /** `n` is the root of a tree (no sharing, no cycles) whose skeleton is `s`. */
  ghost predicate Linked(n: DictNode?, s: Shape)
    reads Nodes(s)
  {
    if s.Leaf? then n == null
    else
      && n == s.node
      && s.node !in Nodes(s.l) && s.node !in Nodes(s.r) && Nodes(s.l) !! Nodes(s.r)
      && Linked(s.node.left, s.l) && Linked(s.node.right, s.r)
  }

  /** The tree value stored in those nodes. */
  ghost function Abs(s: Shape): Tree
    reads Nodes(s)
  {
    if s.Leaf? then Nil else Node(Abs(s.l), s.node.data, s.node.level, Abs(s.r))
  }

  /** The nodes of a skeleton exist, so a call that only allocates leaves them alone. */
  lemma NodesExist(s: Shape)
    ensures forall x :: x in Nodes(s) ==> allocated(x)
  {
    if s.Leaf? {
    } else {
      NodesExist(s.l);
      NodesExist(s.r);
    }
  }

  lemma Unfold(n: DictNode?, s: Shape)
    requires Linked(n, s)
    ensures forall x :: x in Nodes(s) ==> allocated(x)
    ensures n == null <==> s.Leaf?
    ensures n != null ==>
      && n == s.node && Linked(n.left, s.l) && Linked(n.right, s.r)
      && (n.left == null <==> s.l.Leaf?) && (n.right == null <==> s.r.Leaf?)
      && n !in Nodes(s.l) && n !in Nodes(s.r) && Nodes(s.l) !! Nodes(s.r)
  {
    NodesExist(s);
  }

  method SkewNode(n: DictNode?, ghost s: Shape) returns (t: DictNode?, ghost s': Shape)
    requires Linked(n, s)
    modifies Nodes(s)
    ensures Linked(t, s') && Nodes(s') == Nodes(s)
    ensures Abs(s') == Skew(old(Abs(s)))
  {
    if n == null || n.left == null || n.left.level != n.level {
      return n, s;
    }
    t := n.left;
    n.left := t.right;
    t.right := n;
    s' := At(s.l.l, t, At(s.l.r, n, s.r));
  }

  lemma SplitRests(n: DictNode?, s: Shape)
    requires Linked(n, s)
    requires n == null || n.right == null || n.right.right == null || n.level != n.right.right.level
    ensures Split(Abs(s)) == Abs(s)
  {
    Unfold(n, s);
    if n != null && n.right != null {
      Unfold(n.right, s.r);
      Unfold(n.right.right, s.r.r);
      hide Linked;
      assert Abs(s).right == Abs(s.r) && Abs(s.r).right == Abs(s.r.r);
    }
  }

  method SplitNode(n: DictNode?, ghost s: Shape) returns (t: DictNode?, ghost s': Shape)
    requires Linked(n, s)
    modifies Nodes(s)
    ensures Linked(t, s') && Nodes(s') == Nodes(s)
    ensures Abs(s') == Split(old(Abs(s)))
  {
    if n == null || n.right == null || n.right.right == null || n.level != n.right.right.level {
      SplitRests(n, s);
      return n, s;
    }
    Unfold(n, s);
    Unfold(n.right, s.r);
    ghost var a, b, c := Abs(s.l), Abs(s.r.l), Abs(s.r.r);
    t := n.right;
    n.right := t.left;
    t.left := n;
    t.level := t.level + 1;
    s' := At(At(s.l, n, s.r.l), t, s.r.r);
    assert Abs(s.l) == a && Abs(s.r.l) == b && Abs(s.r.r) == c;
  }

  method DecreaseLevelNode(n: DictNode, ghost s: Shape)
    requires Linked(n, s)
    modifies Nodes(s)
    ensures Linked(n, s)
    ensures Abs(s) == DecreaseLevel(old(Abs(s)))
  {
    var levelLeft := if n.left != null then n.left.level else 0;
    var levelRight := if n.right != null then n.right.level else 0;
    var shouldBe := (if levelLeft < levelRight then levelLeft else levelRight) + 1;
    if shouldBe < n.level {
      n.level := shouldBe;
      if n.right != null && shouldBe < n.right.level {
        n.right.level := shouldBe;
      }
    }
  }

  method SkewRight(n: DictNode, ghost s: Shape) returns (ghost s': Shape)
    requires Linked(n, s)
    modifies Nodes(s)
    ensures Linked(n, s') && Nodes(s') == Nodes(s) && s'.At?
    ensures n.left == old(n.left) && s'.l == s.l && n.data == old(n.data) && n.level == old(n.level)
    ensures Abs(s'.l) == old(Abs(s.l)) && Abs(s'.r) == Skew(old(Abs(s.r)))
  {
    hide Skew;
    Unfold(n, s);
    var r, sr := SkewNode(n.right, s.r);
    n.right := r;
    s' := s.(r := sr);
  }

  /** `node->right=skew(node->right)`, and the same one link further down. */
  method SkewSpine(n: DictNode, ghost s: Shape) returns (ghost s': Shape)
    requires Linked(n, s)
    modifies Nodes(s)
    ensures Linked(n, s') && Nodes(s') == Nodes(s)
    ensures var t := old(Abs(s));
      Abs(s') == if t.right.Node? then t.(right := SkewRightSpine(t.right)) else t
  {
    s' := s;
    Unfold(n, s);
    if n.right != null {
      s' := SkewRight(n, s);
      Unfold(n, s');
      Unfold(n.right, s'.r);
      ghost var r1 := Abs(s'.r);
      if n.right.right != null {
        ghost var sr := SkewRight(n.right, s'.r);
        s' := s'.(r := sr);
      }
    }
  }

  method SplitRight(n: DictNode, ghost s: Shape) returns (ghost s': Shape)
    requires Linked(n, s)
    modifies Nodes(s)
    ensures Linked(n, s') && Nodes(s') == Nodes(s)
    ensures var t := old(Abs(s));
      Abs(s') == if t.right.Node? then t.(right := Split(t.right)) else t
  {
    s' := s;
    Unfold(n, s);
    if n.right != null {
      var r, sr := SplitNode(n.right, s.r);
      n.right := r;
      s' := s.(r := sr);
    }
  }

  method RebalanceNode(n: DictNode, ghost s: Shape) returns (t: DictNode, ghost s': Shape)
    requires Linked(n, s)
    modifies Nodes(s)
    ensures Linked(t, s') && Nodes(s') == Nodes(s)
    ensures Abs(s') == Rebalance(old(Abs(s)))
  {
    DecreaseLevelNode(n, s);
    var t1: DictNode?;
    t1, s' := SkewNode(n, s);
    s' := SkewSpine(t1, s');
    t1, s' := SplitNode(t1, s');
    s' := SplitRight(t1, s');
    t := t1;
  }

  /** `onion_dict_node_data_free`: the cells given back, those of a nested dictionary included. */
  method NodeDataFree(e: Entry) returns (ghost freed: multiset<Cell>)
    ensures freed == Owned(e)
  {
    freed := multiset{};
    if e.flags.freeKey {
      freed := freed + multiset{e.keyCell};
    }
    if e.flags.freeValue {
      if e.flags.isDict && e.value.Nested? {
        freed := freed + FreeAll(e.value.root);
      }
      freed := freed + multiset{e.valueCell};
    }
  }

  method GrowRepairNode(n: DictNode, ghost s: Shape) returns (t: DictNode, ghost s': Shape)
    requires Linked(n, s)
    modifies Nodes(s)
    ensures Linked(t, s') && Nodes(s') == Nodes(s)
    ensures Abs(s') == Split(Skew(old(Abs(s))))
  {
    var t1: DictNode?;
    t1, s' := SkewNode(n, s);
    t1, s' := SplitNode(t1, s');
    t := t1;
  }

  /** Hang another subtree on the left of `n`. */
  method SetLeft(n: DictNode, l: DictNode?, ghost sl: Shape, ghost sr: Shape)
    requires Linked(l, sl) && Linked(n.right, sr) && Nodes(sl) !! Nodes(sr)
    requires n !in Nodes(sl) && n !in Nodes(sr)
    modifies n
    ensures Linked(n, At(sl, n, sr))
    ensures Abs(At(sl, n, sr)) == Node(old(Abs(sl)), old(n.data), old(n.level), old(Abs(sr)))
  {
    n.left := l;
  }

  method SetRight(n: DictNode, r: DictNode?, ghost sl: Shape, ghost sr: Shape)
    requires Linked(n.left, sl) && Linked(r, sr) && Nodes(sl) !! Nodes(sr)
    requires n !in Nodes(sl) && n !in Nodes(sr)
    modifies n
    ensures Linked(n, At(sl, n, sr))
    ensures Abs(At(sl, n, sr)) == Node(old(Abs(sl)), old(n.data), old(n.level), old(Abs(sr)))
  {
    n.right := r;
  }

  /** Free the entry of the root of a subtree and put another in its place. */
  method ReplaceData(n: DictNode, ghost s: Shape, e: Entry) returns (ghost freed: multiset<Cell>)
    requires Linked(n, s) && s.At?
    modifies n
    ensures Linked(n, s) && Abs(s) == Node(old(Abs(s.l)), e, old(n.level), old(Abs(s.r)))
    ensures freed == Owned(old(n.data))
  {
    hide Owned;
    Unfold(n, s);
    freed := NodeDataFree(n.data);
    n.data := e;
  }

  /** The value-level insertion, one unfolding. */
  lemma AddUnfolds(o: Order, t: Tree, e: Entry)
    ensures t.Nil? ==> Add(o, t, e) == Node(Nil, e, 1, Nil) && Overwritten(o, t, e) == multiset{}
    ensures t.Node? ==> var cmp := Compare(o, e.key, t.data.key);
      if cmp == 0 && e.flags.replace then
        Add(o, t, e) == Node(t.left, e, t.level, t.right) && Overwritten(o, t, e) == Owned(t.data)
      else if cmp < 0 then
        && Add(o, t, e) == Split(Skew(Node(Add(o, t.left, e), t.data, t.level, t.right)))
        && Overwritten(o, t, e) == Overwritten(o, t.left, e)
      else
        && Add(o, t, e) == Split(Skew(Node(t.left, t.data, t.level, Add(o, t.right, e))))
        && Overwritten(o, t, e) == Overwritten(o, t.right, e)
  {
  }

  /** `onion_dict_node_add` */
  method AddNode(o: Order, n: DictNode?, ghost s: Shape, nnode: DictNode)
    returns (t: DictNode, ghost s': Shape, ghost freed: multiset<Cell>)
    requires Linked(n, s) && nnode !in Nodes(s)
    requires nnode.level == 1 && nnode.left == null && nnode.right == null
    modifies Nodes(s), nnode
    ensures Linked(t, s') && Nodes(s') <= Nodes(s) + {nnode}
    ensures Abs(s') == Add(o, old(Abs(s)), old(nnode.data))
    ensures freed == Overwritten(o, old(Abs(s)), old(nnode.data))
    decreases s, 1
  {
    hide Compare, Skew, Split, Owned, Add, Overwritten;
    AddUnfolds(o, Abs(s), nnode.data);
    freed := multiset{};
    if n == null {
      s' := At(Leaf, nnode, Leaf);
      return nnode, s', freed;
    }
    Unfold(n, s);
    var cmp := Compare(o, nnode.data.key, n.data.key);
    if cmp == 0 && nnode.data.flags.replace {
      freed := ReplaceData(n, s, nnode.data);
      return n, s, freed;
    } else if cmp < 0 {
      t, s', freed := AddLeft(o, n, s, nnode);
    } else {
      t, s', freed := AddRight(o, n, s, nnode);
    }
  }

  method AddLeft(o: Order, n: DictNode, ghost s: Shape, nnode: DictNode)
    returns (t: DictNode, ghost s': Shape, ghost freed: multiset<Cell>)
    requires Linked(n, s) && nnode !in Nodes(s) && s.At?
    requires nnode.level == 1 && nnode.left == null && nnode.right == null
    modifies Nodes(s), nnode
    ensures Linked(t, s') && Nodes(s') <= Nodes(s) + {nnode}
    ensures var a, d := old(Abs(s)), old(nnode.data);
      && Abs(s') == Split(Skew(a.(left := Add(o, a.left, d))))
      && freed == Overwritten(o, a.left, d)
    decreases s, 0
  {
    hide Compare, Skew, Split, Owned, Add, Overwritten;
    Unfold(n, s);
    var l: DictNode?;
    l, s', freed := AddNode(o, n.left, s.l, nnode);
    SetLeft(n, l, s', s.r);
    t, s' := GrowRepairNode(n, At(s', n, s.r));
  }

  method AddRight(o: Order, n: DictNode, ghost s: Shape, nnode: DictNode)
    returns (t: DictNode, ghost s': Shape, ghost freed: multiset<Cell>)
    requires Linked(n, s) && nnode !in Nodes(s) && s.At?
    requires nnode.level == 1 && nnode.left == null && nnode.right == null
    modifies Nodes(s), nnode
    ensures Linked(t, s') && Nodes(s') <= Nodes(s) + {nnode}
    ensures var a, d := old(Abs(s)), old(nnode.data);
      && Abs(s') == Split(Skew(a.(right := Add(o, a.right, d))))
      && freed == Overwritten(o, a.right, d)
    decreases s, 0
  {
    hide Compare, Skew, Split, Owned, Add, Overwritten;
    Unfold(n, s);
    var r: DictNode?;
    r, s', freed := AddNode(o, n.right, s.r, nnode);
    SetRight(n, r, s.l, s');
    t, s' := GrowRepairNode(n, At(s.l, n, s'));
  }

  ghost function LastNode(s: Shape): (x: DictNode)
    requires s.At?
    ensures x in Nodes(s)
  {
    if s.r.Leaf? then s.node else LastNode(s.r)
  }

  ghost function FirstNode(s: Shape): (x: DictNode)
    requires s.At?
    ensures x in Nodes(s)
  {
    if s.l.Leaf? then s.node else FirstNode(s.l)
  }

  /** A picture of some nodes' fields, to compare two states of the heap. */
  datatype Image = Image(data: map<DictNode, Entry>, level: map<DictNode, int>,
                         left: map<DictNode, DictNode?>, right: map<DictNode, DictNode?>)

  ghost function Capture(nodes: set<DictNode>): Image
    reads nodes
  {
    Image(map x | x in nodes :: x.data, map x | x in nodes :: x.level,
          map x | x in nodes :: x.left, map x | x in nodes :: x.right)
  }

  ghost predicate Covers(m: Image, s: Shape) {
    Nodes(s) <= m.data.Keys && Nodes(s) <= m.level.Keys && Nodes(s) <= m.left.Keys && Nodes(s) <= m.right.Keys
  }

  ghost predicate LinkedIn(m: Image, n: DictNode?, s: Shape)
    requires Covers(m, s)
  {
    if s.Leaf? then n == null
    else
      && n == s.node
      && s.node !in Nodes(s.l) && s.node !in Nodes(s.r) && Nodes(s.l) !! Nodes(s.r)
      && LinkedIn(m, m.left[s.node], s.l) && LinkedIn(m, m.right[s.node], s.r)
  }

  ghost function AbsIn(m: Image, s: Shape): Tree
    requires Covers(m, s)
  {
    if s.Leaf? then Nil else Node(AbsIn(m, s.l), m.data[s.node], m.level[s.node], AbsIn(m, s.r))
  }

  lemma {:induction false} CaptureFaithful(nodes: set<DictNode>, n: DictNode?, s: Shape)
    requires Nodes(s) <= nodes
    ensures Covers(Capture(nodes), s)
    ensures LinkedIn(Capture(nodes), n, s) <==> Linked(n, s)
    ensures AbsIn(Capture(nodes), s) == Abs(s)
    decreases s
  {
    if s.Leaf? {
    } else {
      CaptureFaithful(nodes, s.node.left, s.l);
      CaptureFaithful(nodes, s.node.right, s.r);
    }
  }

  ghost function ClearFlags(m: Image, x: DictNode): Image
    requires x in m.data
  {
    m.(data := m.data[x := m.data[x].(flags := NO_FLAGS)])
  }

  lemma {:induction false} ClearElsewhere(m: Image, n: DictNode?, s: Shape, x: DictNode)
    requires Covers(m, s) && LinkedIn(m, n, s) && x in m.data && x !in Nodes(s)
    ensures LinkedIn(ClearFlags(m, x), n, s) && AbsIn(ClearFlags(m, x), s) == AbsIn(m, s)
  {
    if s.Leaf? {
    } else {
      ClearElsewhere(m, m.left[s.node], s.l, x);
      ClearElsewhere(m, m.right[s.node], s.r, x);
    }
  }

  lemma {:induction false} ClearLast(m: Image, n: DictNode?, s: Shape)
    requires s.At? && Covers(m, s) && LinkedIn(m, n, s)
    ensures LinkedIn(ClearFlags(m, LastNode(s)), n, s)
    ensures AbsIn(ClearFlags(m, LastNode(s)), s) == DisownLast(AbsIn(m, s))
  {
    ClearElsewhere(m, m.left[s.node], s.l, LastNode(s));
    if s.r.Leaf? {
    } else {
      ClearLast(m, m.right[s.node], s.r);
    }
  }

  lemma {:induction false} ClearFirst(m: Image, n: DictNode?, s: Shape)
    requires s.At? && Covers(m, s) && LinkedIn(m, n, s)
    ensures LinkedIn(ClearFlags(m, FirstNode(s)), n, s)
    ensures AbsIn(ClearFlags(m, FirstNode(s)), s) == DisownFirst(AbsIn(m, s))
  {
    ClearElsewhere(m, m.right[s.node], s.r, FirstNode(s));
    if s.l.Leaf? {
    } else {
      ClearFirst(m, m.left[s.node], s.l);
    }
  }

  /** `t->data.flags=0` */
  method Disown(t: DictNode, ghost nodes: set<DictNode>)
    requires t in nodes
    modifies t
    ensures Capture(nodes) == ClearFlags(old(Capture(nodes)), t)
  {
    t.data := t.data.(flags := NO_FLAGS);
  }

  method WalkLast(n: DictNode, ghost s: Shape) returns (t: DictNode)
    requires Linked(n, s)
    ensures s.At? && t == LastNode(s) && t.data == Last(Abs(s))
  {
    t := n;
    ghost var st := s;
    while t.right != null
      invariant Linked(t, st) && st.At? && s.At?
      invariant LastNode(st) == LastNode(s) && Last(Abs(st)) == Last(Abs(s))
      decreases st
    {
      Unfold(t, st);
      t := t.right;
      st := st.r;
    }
    Unfold(t, st);
  }

  /** Take the entry of the last node of the subtree and clear the flags left behind. */
  method TakeLast(n: DictNode, ghost s: Shape) returns (e: Entry)
    requires Linked(n, s)
    modifies Nodes(s)
    ensures Linked(n, s) && Abs(s) == DisownLast(old(Abs(s)))
    ensures e == Last(old(Abs(s)))
  {
    hide Abs, DisownLast, Last, Capture, ClearFlags, AbsIn;
    NodesExist(s);
    var t := WalkLast(n, s);
    e := t.data;
    ghost var m := Capture(Nodes(s));
    CaptureFaithful(Nodes(s), n, s);
    Disown(t, Nodes(s));
    ClearLast(m, n, s);
    CaptureFaithful(Nodes(s), n, s);
  }

  method WalkFirst(n: DictNode, ghost s: Shape) returns (t: DictNode)
    requires Linked(n, s)
    ensures s.At? && t == FirstNode(s) && t.data == First(Abs(s))
  {
    t := n;
    ghost var st := s;
    while t.left != null
      invariant Linked(t, st) && st.At? && s.At?
      invariant FirstNode(st) == FirstNode(s) && First(Abs(st)) == First(Abs(s))
      decreases st
    {
      Unfold(t, st);
      t := t.left;
      st := st.l;
    }
    Unfold(t, st);
  }

  /** Take the entry of the first node of the subtree and clear the flags left behind. */
  method TakeFirst(n: DictNode, ghost s: Shape) returns (e: Entry)
    requires Linked(n, s)
    modifies Nodes(s)
    ensures Linked(n, s) && Abs(s) == DisownFirst(old(Abs(s)))
    ensures e == First(old(Abs(s)))
  {
    hide Abs, DisownFirst, First, Capture, ClearFlags, AbsIn;
    NodesExist(s);
    var t := WalkFirst(n, s);
    e := t.data;
    ghost var m := Capture(Nodes(s));
    CaptureFaithful(Nodes(s), n, s);
    Disown(t, Nodes(s));
    ClearFirst(m, n, s);
    CaptureFaithful(Nodes(s), n, s);
  }

  /** The value-level removal, one unfolding. */
  lemma RemoveUnfolds(o: Order, t: Tree, key: string)
    requires t.Node?
    ensures var cmp := Compare(o, key, t.data.key); var r := Remove(o, t, key);
      if cmp < 0 then
        var q := Remove(o, t.left, key);
        r == Removal(Rebalance(Node(q.tree, t.data, t.level, t.right)), q.freed)
      else if cmp > 0 then
        var q := Remove(o, t.right, key);
        r == Removal(Rebalance(Node(t.left, t.data, t.level, q.tree)), q.freed)
      else if t.left.Nil? && t.right.Nil? then r == Removal(Nil, Owned(t.data))
      else if t.left.Nil? then
        var q := Remove(o, DisownFirst(t.right), First(t.right).key);
        r == Removal(Rebalance(Node(t.left, First(t.right), t.level, q.tree)), Owned(t.data) + q.freed)
      else
        var q := Remove(o, DisownLast(t.left), Last(t.left).key);
        r == Removal(Rebalance(Node(q.tree, Last(t.left), t.level, t.right)), Owned(t.data) + q.freed)
  {
  }

  /** `onion_dict_node_remove` */
  method RemoveNode(o: Order, n: DictNode?, ghost s: Shape, key: string)
    returns (t: DictNode?, ghost s': Shape, ghost freed: multiset<Cell>)
    requires Linked(n, s)
    modifies Nodes(s)
    ensures Linked(t, s') && Nodes(s') <= Nodes(s)
    ensures Removal(Abs(s'), freed) == Remove(o, old(Abs(s)), key)
    decreases s, 1
  {
    hide Compare, Rebalance, Owned, Remove, DisownFirst, DisownLast, First, Last;
    freed := multiset{};
    if n == null {
      RemoveNothing(o, key);
      return null, s, freed;
    }
    Unfold(n, s);
    RemoveUnfolds(o, Abs(s), key);
    var cmp := Compare(o, key, n.data.key);
    if cmp < 0 {
      var l: DictNode?;
      l, s', freed := RemoveNode(o, n.left, s.l, key);
      SetLeft(n, l, s', s.r);
      t, s' := RebalanceNode(n, At(s', n, s.r));
    } else if cmp > 0 {
      var r: DictNode?;
      r, s', freed := RemoveNode(o, n.right, s.r, key);
      SetRight(n, r, s.l, s');
      t, s' := RebalanceNode(n, At(s.l, n, s'));
    } else {
      t, s', freed := RemoveHere(o, n, s, key);
    }
  }

  /** The branch of `onion_dict_node_remove` that has found the key. */
  method RemoveHere(o: Order, n: DictNode, ghost s: Shape, ghost key: string)
    returns (t: DictNode?, ghost s': Shape, ghost freed: multiset<Cell>)
    requires Linked(n, s) && Compare(o, key, n.data.key) == 0
    modifies Nodes(s)
    ensures Linked(t, s') && Nodes(s') <= Nodes(s)
    ensures Removal(Abs(s'), freed) == Remove(o, old(Abs(s)), key)
    decreases s, 0
  {
    hide Compare, Rebalance, Owned, Remove, DisownFirst, DisownLast, First, Last;
    Unfold(n, s);
    RemoveUnfolds(o, Abs(s), key);
    freed := NodeDataFree(n.data);
    if n.left == null && n.right == null {
      return null, Leaf, freed;
    }
    ghost var freedBelow;
    if n.left == null {
      s', freedBelow := PullNext(o, n, s);
    } else {
      s', freedBelow := PullPrevious(o, n, s);
    }
    t, s' := RebalanceNode(n, s');
    freed := freed + freedBelow;
  }

  /** Overwrite `n` with the entry that follows it and remove that entry's key from the right. */
  method PullNext(o: Order, n: DictNode, ghost s: Shape) returns (ghost s': Shape, ghost freed: multiset<Cell>)
    requires Linked(n, s) && s.At? && n.right != null
    modifies Nodes(s)
    ensures Linked(n, s') && Nodes(s') <= Nodes(s) && old(Abs(s.r)).Node?
    ensures var t := old(Abs(s)); var q := Remove(o, DisownFirst(t.right), First(t.right).key);
      Abs(s') == Node(t.left, First(t.right), t.level, q.tree) && freed == q.freed
    decreases s.r, 2
  {
    hide Compare, Remove, DisownFirst, First;
    Unfold(n, s);
    var e := TakeFirst(n.right, s.r);
    n.data := e;
    var r: DictNode?;
    ghost var sr, left := s.r, Abs(s.l);
    r, sr, freed := RemoveNode(o, n.right, s.r, e.key);
    assert Linked(n.left, s.l) && Abs(s.l) == left;
    SetRight(n, r, s.l, sr);
    s' := At(s.l, n, sr);
  }

  method PullPrevious(o: Order, n: DictNode, ghost s: Shape) returns (ghost s': Shape, ghost freed: multiset<Cell>)
    requires Linked(n, s) && s.At? && n.left != null
    modifies Nodes(s)
    ensures Linked(n, s') && Nodes(s') <= Nodes(s) && old(Abs(s.l)).Node?
    ensures var t := old(Abs(s)); var q := Remove(o, DisownLast(t.left), Last(t.left).key);
      Abs(s') == Node(q.tree, Last(t.left), t.level, t.right) && freed == q.freed
    decreases s.l, 2
  {
    hide Compare, Remove, DisownLast, Last;
    Unfold(n, s);
    var e := TakeLast(n.left, s.l);
    n.data := e;
    var l: DictNode?;
    ghost var sl, right := s.l, Abs(s.r);
    l, sl, freed := RemoveNode(o, n.left, s.l, e.key);
    assert Linked(n.right, s.r) && Abs(s.r) == right;
    SetLeft(n, l, sl, s.r);
    s' := At(sl, n, s.r);
  }

  lemma RemoveNothing(o: Order, key: string)
    ensures Remove(o, Nil, key) == Removal(Nil, multiset{})
  {
  }

  /** `onion_dict_find_node` */
  function FindNode(o: Order, n: DictNode?, ghost s: Shape, key: string): (r: DictNode?)
    requires Linked(n, s)
    reads Nodes(s)
    ensures r == null <==> Find(o, Abs(s), key) == None
    ensures r != null ==> r in Nodes(s) && r.data == InOrder(Abs(s))[Find(o, Abs(s), key).value]
    decreases s
  {
    if n == null then null
    else
      assert InOrder(Abs(s)) == InOrder(Abs(s.l)) + [n.data] + InOrder(Abs(s.r));
      var cmp := Compare(o, key, n.data.key);
      if cmp == 0 then n
      else if cmp < 0 then FindNode(o, n.left, s.l, key)
      else FindNode(o, n.right, s.r, key)
  }

  /** `onion_dict_node_count` */
  function NodeCount(n: DictNode, ghost s: Shape): (c: nat)
    requires Linked(n, s)
    reads Nodes(s)
    ensures c == Size(Abs(s))
    decreases s
  {
    Unfold(n, s);
    1 + (if n.left != null then NodeCount(n.left, s.l) else 0)
      + (if n.right != null then NodeCount(n.right, s.r) else 0)
  }

  lemma FreeNothing()
    ensures FreeAll(Nil) == multiset{}
  {
  }

  lemma FreeAllUnfolds(l: Tree, d: Entry, level: int, r: Tree)
    ensures FreeAll(Node(l, d, level, r)) == FreeAll(l) + FreeAll(r) + Owned(d)
  {
  }

  /** `onion_dict_node_free` */
  method NodeFree(n: DictNode, ghost s: Shape) returns (ghost freed: multiset<Cell>)
    requires Linked(n, s)
    ensures freed == FreeAll(old(Abs(s)))
    decreases s
  {
    Unfold(n, s);
    NodesExist(s.l);
    NodesExist(s.r);
    FreeNothing();
    FreeAllUnfolds(Abs(s.l), n.data, n.level, Abs(s.r));
    hide Owned, FreeAll;
    freed := multiset{};
    if n.left != null {
      freed := NodeFree(n.left, s.l);
    }
    assert freed == FreeAll(old(Abs(s.l)));
    if n.right != null {
      ghost var r := NodeFree(n.right, s.r);
      freed := freed + r;
    }
    assert freed == FreeAll(old(Abs(s.l))) + FreeAll(old(Abs(s.r)));
    ghost var own := NodeDataFree(n.data);
    freed := freed + own;
  }

  class Dict {
    var order: Order
    var root: DictNode?
    var refcount: int
    ghost var shape: Shape
    /** The tree with the account of the cells its entries took over and gave back. */
    ghost var store: Store

    ghost predicate Valid()
      reads this, Nodes(shape)
    {
      Linked(root, shape) && store.root == Abs(shape) && refcount >= 1
    }

    constructor ()
      ensures Valid() && fresh(Nodes(shape)) && store == EMPTY && order == CaseSensitive && refcount == 1
    {
      order, root, refcount := CaseSensitive, null, 1;
      shape, store := Leaf, EMPTY;
    }

    /** `onion_dict_set_flags` with OD_ICASE */
    method IgnoreCase()
      requires Valid()
      modifies this`order
      ensures Valid() && order == CaseInsensitive && store == old(store)
    {
      order := CaseInsensitive;
    }

    method Add(e: Entry)
      requires Valid()
      modifies this, Nodes(shape)
      ensures Valid() && fresh(Nodes(shape) - old(Nodes(shape)))
      ensures order == old(order) && refcount == old(refcount)
      ensures store == Step(order, old(store), Put(e))
    {
      hide Compare, AATree.Add, Overwritten, Owned, Abs, Linked, Nodes;
      NodesExist(shape);
      var node := new DictNode(e);
      var r: DictNode?;
      ghost var s, freed;
      r, s, freed := AddNode(order, root, shape, node);
      root, shape := r, s;
      store := Store(Abs(s), store.adopted + Owned(e), store.released + freed);
    }

    method Remove(key: string)
      requires Valid()
      modifies this, Nodes(shape)
      ensures Valid() && Nodes(shape) <= old(Nodes(shape))
      ensures order == old(order) && refcount == old(refcount)
      ensures store == Step(order, old(store), Drop(key))
    {
      hide Compare, AATree.Remove, Owned;
      var r: DictNode?;
      ghost var s, freed;
      r, s, freed := RemoveNode(order, root, shape, key);
      root, shape := r, s;
      store := Store(Abs(s), store.adopted, store.released + freed);
    }

    /** `onion_dict_get`: the text stored under the key, nothing for a nested dictionary. */
    function Get(key: string): (r: Option<Value>)
      requires Valid()
      reads this, Nodes(shape)
      ensures var f := Find(order, store.root, key);
        r == if f.Some? && !InOrder(store.root)[f.value].flags.isDict then Some(InOrder(store.root)[f.value].value)
             else None
    {
      var n := FindNode(order, root, shape, key);
      if n != null && !n.data.flags.isDict then Some(n.data.value) else None
    }

    /** `onion_dict_get_dict` */
    function GetDict(key: string): (r: Option<Value>)
      requires Valid()
      reads this, Nodes(shape)
      ensures var f := Find(order, store.root, key);
        r == if f.Some? && InOrder(store.root)[f.value].flags.isDict then Some(InOrder(store.root)[f.value].value)
             else None
    {
      var n := FindNode(order, root, shape, key);
      if n != null && n.data.flags.isDict then Some(n.data.value) else None
    }

    function Count(): (c: nat)
      requires Valid()
      reads this, Nodes(shape)
      ensures c == Size(store.root)
    {
      if root != null then NodeCount(root, shape) else 0
    }

    /** `onion_dict_dup`: one more holder of the same dictionary. */
    method Dup()
      requires Valid()
      modifies this`refcount
      ensures Valid() && refcount == old(refcount) + 1
    {
      refcount := refcount + 1;
    }

    /** `onion_dict_free`: the last holder gives every remaining cell back. */
    method Free()
      requires Valid()
      modifies this`refcount, this`root, this`shape, this`store
      ensures refcount == old(refcount) - 1
      ensures refcount > 0 ==> Valid() && store == old(store)
      ensures refcount == 0 ==>
        store == Store(Nil, old(store.adopted), old(store.released) + FreeAll(old(store.root)))
    {
      hide FreeAll, Owned;
      NodesExist(shape);
      refcount := refcount - 1;
      if refcount == 0 {
        ghost var freed := multiset{};
        if root != null {
          freed := NodeFree(root, shape);
        }
        FreeNothing();
        root, shape := null, Leaf;
        store := Store(Nil, store.adopted, store.released + freed);
      }
    }
  }
}
