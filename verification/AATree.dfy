/**
 The AA tree of onion/dict.c as a value: rotations, insertion, removal and search,
 branch for branch, and the level rules they keep.  DictHeap.dfy proves the in-place
 code equal to these functions.
 */
module AATree {
  import opened Wrappers
  import opened DictKeys

  /** An identifier of a heap cell (a `malloc`ed string or nested dictionary). */
  type Cell = nat

  /** The flag bits that matter once an entry is stored (onion/dict.h). */
  datatype Flags = Flags(freeKey: bool, freeValue: bool, replace: bool, isDict: bool)

  const NO_FLAGS := Flags(false, false, false, false)

  datatype Value = Text(text: string) | Nested(root: Tree)

  datatype Entry = Entry(key: string, keyCell: Cell, value: Value, valueCell: Cell, flags: Flags)

  datatype Tree = Nil | Node(left: Tree, data: Entry, level: int, right: Tree)

  function Level(t: Tree): int {
    if t.Nil? then 0 else t.level
  }

  function Size(t: Tree): nat {
    if t.Nil? then 0 else Size(t.left) + 1 + Size(t.right)
  }

  function Height(t: Tree): nat {
    if t.Nil? then 0
    else 1 + if Height(t.left) < Height(t.right) then Height(t.right) else Height(t.left)
  }

  function InOrder(t: Tree): (s: seq<Entry>)
    ensures |s| == Size(t)
  {
    if t.Nil? then [] else InOrder(t.left) + [t.data] + InOrder(t.right)
  }

  // ------------------------------------------------------------------ rotations

  function Skew(t: Tree): Tree {
    if t.Nil? || t.left.Nil? || t.left.level != t.level then t
    else Node(t.left.left, t.left.data, t.left.level, Node(t.left.right, t.data, t.level, t.right))
  }

  function Split(t: Tree): Tree {
    if t.Nil? || t.right.Nil? || t.right.right.Nil? || t.level != t.right.right.level then t
    else Node(Node(t.left, t.data, t.level, t.right.left), t.right.data, t.right.level + 1, t.right.right)
  }

  function Min(a: int, b: int): int {
    if a < b then a else b
  }

  function DecreaseLevel(t: Tree): Tree
    requires t.Node?
  {
    var shouldBe := Min(Level(t.left), Level(t.right)) + 1;
    if shouldBe < t.level then
      var right := if t.right.Node? && shouldBe < t.right.level then t.right.(level := shouldBe) else t.right;
      t.(level := shouldBe, right := right)
    else t
  }

  /** The fixed sequence of repairs after a removal below `t`. */
  function Rebalance(t: Tree): Tree
    requires t.Node?
  {
    var t1 := Skew(DecreaseLevel(t));
    var t2 := if t1.right.Node? then t1.(right := SkewRightSpine(t1.right)) else t1;
    var t3 := Split(t2);
    if t3.right.Node? then t3.(right := Split(t3.right)) else t3
  }

  function SkewRightSpine(r: Tree): (t: Tree)
    requires r.Node?
    ensures t.Node?
  {
    var r1 := Skew(r);
    if r1.right.Node? then r1.(right := Skew(r1.right)) else r1
  }

  // ------------------------------------------------------------------ operations

  function Add(o: Order, t: Tree, e: Entry): Tree {
    if t.Nil? then Node(Nil, e, 1, Nil)
    else
      var cmp := Compare(o, e.key, t.data.key);
      if cmp == 0 && e.flags.replace then t.(data := e)
      else if cmp < 0 then Split(Skew(t.(left := Add(o, t.left, e))))
      else Split(Skew(t.(right := Add(o, t.right, e))))
  }

  /** In-order position of the node the search ends at. */
  function Find(o: Order, t: Tree, key: string): (r: Option<nat>)
    ensures r.Some? ==> r.value < Size(t)
  {
    if t.Nil? then None
    else
      var cmp := Compare(o, key, t.data.key);
      if cmp == 0 then Some(Size(t.left))
      else if cmp < 0 then Find(o, t.left, key)
      else
        var r := Find(o, t.right, key);
        if r.None? then None else Some(Size(t.left) + 1 + r.value)
  }

  /** How many nodes the search visits. */
  function FindDepth(o: Order, t: Tree, key: string): nat {
    if t.Nil? then 0
    else
      var cmp := Compare(o, key, t.data.key);
      if cmp == 0 then 1
      else if cmp < 0 then 1 + FindDepth(o, t.left, key)
      else 1 + FindDepth(o, t.right, key)
  }

  function First(t: Tree): Entry
    requires t.Node?
  {
    if t.left.Nil? then t.data else First(t.left)
  }

  function Last(t: Tree): Entry
    requires t.Node?
  {
    if t.right.Nil? then t.data else Last(t.right)
  }

  /** `t->data.flags=0` on the leftmost node: its key and value now belong to another node. */
  function DisownFirst(t: Tree): (r: Tree)
    requires t.Node?
    ensures Size(r) == Size(t) && r.Node?
  {
    if t.left.Nil? then t.(data := t.data.(flags := NO_FLAGS)) else t.(left := DisownFirst(t.left))
  }

  function DisownLast(t: Tree): (r: Tree)
    requires t.Node?
    ensures Size(r) == Size(t) && r.Node?
  {
    if t.right.Nil? then t.(data := t.data.(flags := NO_FLAGS)) else t.(right := DisownLast(t.right))
  }

  /**
   The cells `onion_dict_node_data_free` gives back: an owned value that is a dictionary goes
   with all that its entries own, at every depth.
   */
  function Owned(e: Entry): multiset<Cell> {
    (if e.flags.freeKey then multiset{e.keyCell} else multiset{}) +
    (if !e.flags.freeValue then multiset{}
     else if e.flags.isDict && e.value.Nested? then FreeAll(e.value.root) + multiset{e.valueCell}
     else multiset{e.valueCell})
  }

  /** `onion_dict_node_free`: the whole subtree, children first. */
  function FreeAll(t: Tree): multiset<Cell> {
    if t.Nil? then multiset{} else FreeAll(t.left) + FreeAll(t.right) + Owned(t.data)
  }

  /** Every cell reachable from a tree, nested dictionaries included. */
  function Cells(t: Tree): multiset<Cell> {
    if t.Nil? then multiset{} else Cells(t.left) + EntryCells(t.data) + Cells(t.right)
  }

  function EntryCells(e: Entry): multiset<Cell> {
    multiset{e.keyCell, e.valueCell} + if e.value.Nested? then Cells(e.value.root) else multiset{}
  }

  datatype Removal = Removal(tree: Tree, freed: multiset<Cell>)

  function Remove(o: Order, t: Tree, key: string): Removal
    decreases Size(t)
  {
    if t.Nil? then Removal(Nil, multiset{})
    else
      var cmp := Compare(o, key, t.data.key);
      if cmp < 0 then
        var r := Remove(o, t.left, key);
        Removal(Rebalance(t.(left := r.tree)), r.freed)
      else if cmp > 0 then
        var r := Remove(o, t.right, key);
        Removal(Rebalance(t.(right := r.tree)), r.freed)
      else if t.left.Nil? && t.right.Nil? then
        Removal(Nil, Owned(t.data))
      else if t.left.Nil? then
        var m := First(t.right);
        var r := Remove(o, DisownFirst(t.right), m.key);
        Removal(Rebalance(t.(data := m, right := r.tree)), Owned(t.data) + r.freed)
      else
        var m := Last(t.left);
        var r := Remove(o, DisownLast(t.left), m.key);
        Removal(Rebalance(t.(data := m, left := r.tree)), Owned(t.data) + r.freed)
  }

  // ------------------------------------------------------------------ the level rules

  ghost predicate AA(t: Tree) {
    t.Nil? ||
    (&& AA(t.left) && AA(t.right)
     && Level(t.left) == t.level - 1
     && t.level - 1 <= Level(t.right) <= t.level
     && (t.right.Node? ==> Level(t.right.right) < t.level))
  }

  /** The top node has no right child on its own level. */
  ghost predicate Single(t: Tree) {
    t.Nil? || Level(t.right) < t.level
  }

  lemma {:induction false} LevelNonNegative(t: Tree)
    requires AA(t)
    ensures Level(t) >= 0 && (t.Node? ==> t.level >= 1)
  {
    if t.Nil? {
    } else {
      LevelNonNegative(t.left);
    }
  }

  /** What skew-then-split makes of a node one of whose children has grown. */
  lemma GrowRepair(t: Tree)
    requires t.Node? && t.level >= 1 && AA(t.left) && AA(t.right)
    requires
      || (Level(t.left) == t.level - 1 && t.level - 1 <= Level(t.right) <= t.level)
      || (Level(t.left) == t.level && Single(t.left) && AA(t.right)
          && t.level - 1 <= Level(t.right) <= t.level && (Level(t.right) == t.level ==> Single(t.right)))
    ensures var r := Split(Skew(t));
      && r.Node? && AA(r) && t.level <= r.level <= t.level + 1
      && (r.level == t.level + 1 ==> Single(r))
      && (Level(t.left) == t.level - 1 && (Level(t.right) < t.level || Single(t.right)) ==> r.level == t.level)
      && (Level(t.right) < t.level ==> r.level == t.level)
  {
    LevelNonNegative(t.left);
    LevelNonNegative(t.right);
    if t.right.Node? { LevelNonNegative(t.right.right); LevelNonNegative(t.right.left); }
    if t.left.Node? && t.left.level == t.level {
      LevelNonNegative(t.left.right);
      LevelNonNegative(t.left.left);
      assert AA(t.left.left) && AA(t.left.right);
      var inner := Node(t.left.right, t.data, t.level, t.right);
      assert Level(inner.left) == t.level - 1;
      assert AA(inner);
      var lower := Node(t.left.left, t.left.data, t.level, inner.left);
      assert AA(lower);
      if Level(t.right) == t.level {
        assert Split(Skew(t)) == Node(lower, t.data, t.level + 1, t.right);
        assert AA(Node(lower, t.data, t.level + 1, t.right));
      } else {
        assert Split(Skew(t)) == Node(t.left.left, t.left.data, t.level, inner);
        assert AA(Node(t.left.left, t.left.data, t.level, inner));
      }
    } else if t.right.Node? && Level(t.right.right) == t.level {
      assert AA(Node(t.left, t.data, t.level, t.right.left));
    } else {
      assert Split(Skew(t)) == t;
    }
  }

  lemma {:induction false} AddKeepsLevels(o: Order, t: Tree, e: Entry)
    requires AA(t)
    ensures var r := Add(o, t, e);
      && r.Node? && AA(r) && Level(t) <= Level(r) <= Level(t) + 1
      && (Level(r) == Level(t) + 1 ==> Single(r))
      && (t.Node? && Single(t) ==> Level(r) == Level(t))
  {
    LevelNonNegative(t);
    if t.Nil? {
    } else {
      var cmp := Compare(o, e.key, t.data.key);
      if cmp == 0 && e.flags.replace {
      } else if cmp < 0 {
        AddKeepsLevels(o, t.left, e);
        GrowRepair(t.(left := Add(o, t.left, e)));
      } else {
        AddKeepsLevels(o, t.right, e);
        GrowRepair(t.(right := Add(o, t.right, e)));
      }
    }
  }

  lemma RotationsRest(t: Tree)
    requires AA(t)
    ensures Skew(t) == t && Split(t) == t
  {
  }

  /** Neither child has dropped: nothing to repair. */
  lemma RebalanceRests(t: Tree)
    requires t.Node? && AA(t)
    ensures Rebalance(t) == t
  {
    RotationsRest(t);
    RotationsRest(t.right);
    if t.right.Node? { RotationsRest(t.right.right); }
    assert DecreaseLevel(t) == t;
  }

  /** The left child dropped; the right child is on the level below. */
  lemma RepairLeftDropped(t: Tree)
    requires t.Node? && AA(t.left) && AA(t.right)
    requires Level(t.left) == t.level - 2 && Level(t.right) == t.level - 1
    ensures var r := Rebalance(t);
      && r.Node? && AA(r) && t.level - 1 <= r.level <= t.level && (r.level == t.level ==> Single(r))
  {
    LevelNonNegative(t.left);
    LevelNonNegative(t.right);
    var n := t.(level := t.level - 1);
    assert DecreaseLevel(t) == n && Skew(n) == n;
    RotationsRest(t.right);
    RotationsRest(t.right.right);
    assert SkewRightSpine(t.right) == t.right;
    RotationsRest(t.right.left);
    if Level(t.right.right) == n.level {
      assert AA(Node(t.left, t.data, n.level, t.right.left));
      assert Rebalance(t) == Node(Node(t.left, t.data, n.level, t.right.left), t.right.data, t.level, t.right.right);
    } else {
      assert Rebalance(t) == n;
    }
  }

  /** The left child dropped under a double node: two skews and two splits. */
  lemma RepairLeftDroppedDouble(t: Tree)
    requires t.Node? && AA(t.left) && AA(t.right) && Single(t.right)
    requires Level(t.left) == t.level - 2 && Level(t.right) == t.level
    ensures var r := Rebalance(t); r.Node? && AA(r) && r.level == t.level
  {
    LevelNonNegative(t.left);
    var l, d := t.level - 1, t.data;
    var x, z := t.right.left, t.right.right;
    assert AA(x) && AA(z) && x.Node? && z.Node? && x.level == l && z.level == l;
    var n := Node(t.left, d, l, t.right.(level := l));
    assert DecreaseLevel(t) == n && Skew(n) == n;
    RotationsRest(z);
    var low := Node(t.left, d, l, x.left);
    assert AA(x.left) && AA(t.left) && AA(low);
    if Level(x.right) == l {
      var y := x.right;
      assert AA(y) && Single(y);
      var spine := Node(x.left, x.data, l, Node(y.left, y.data, l, Node(y.right, t.right.data, l, z)));
      assert SkewRightSpine(n.right) == spine;
      assert Split(n.(right := spine)) == Node(low, x.data, l + 1, spine.right);
      assert Split(spine.right) == Node(y, t.right.data, l + 1, z);
      assert AA(Node(y, t.right.data, l + 1, z));
      assert Rebalance(t) == Node(low, x.data, l + 1, Node(y, t.right.data, l + 1, z));
    } else {
      var inner := Node(x.right, t.right.data, l, z);
      var spine := Node(x.left, x.data, l, inner);
      assert SkewRightSpine(n.right) == spine;
      assert Split(n.(right := spine)) == Node(low, x.data, l + 1, inner);
      assert Rebalance(t) == Node(low, x.data, l + 1, Split(inner));
      GrowRepair(inner);
      assert Skew(inner) == inner;
      if Level(z.right) == l {
        assert AA(Node(x.right, t.right.data, l, z.left));
      }
    }
  }

  /** The right child dropped. */
  lemma RepairRightDropped(t: Tree)
    requires t.Node? && AA(t.left) && AA(t.right)
    requires Level(t.left) == t.level - 1 && Level(t.right) == t.level - 2
    ensures var r := Rebalance(t);
      && r.Node? && AA(r) && t.level - 1 <= r.level <= t.level && (r.level == t.level ==> Single(r))
  {
    LevelNonNegative(t.right);
    var l, d, x := t.level - 1, t.data, t.left;
    var n := t.(level := l);
    assert DecreaseLevel(t) == n;
    var inner := Node(x.right, d, l, t.right);
    assert Skew(n) == Node(x.left, x.data, l, inner);
    RotationsRest(t.right);
    if Level(x.right) == l {
      var y := x.right;
      assert AA(y) && Single(y);
      var tail := Node(y.right, d, l, t.right);
      assert AA(tail);
      RotationsRest(tail);
      assert SkewRightSpine(inner) == Node(y.left, y.data, l, tail);
      assert AA(x.left) && AA(y.left) && AA(Node(x.left, x.data, l, y.left));
      assert Rebalance(t) == Node(Node(x.left, x.data, l, y.left), y.data, l + 1, tail);
    } else {
      assert AA(inner);
      RotationsRest(inner);
      assert SkewRightSpine(inner) == inner;
      assert Rebalance(t) == Node(x.left, x.data, l, inner);
    }
  }

  lemma RebalanceRepairs(t: Tree)
    requires t.Node? && t.level >= 1 && AA(t.left) && AA(t.right)
    requires t.level - 2 <= Level(t.left) <= t.level - 1
    requires t.level - 2 <= Level(t.right) <= t.level
    requires Level(t.left) == t.level - 2 ==> Level(t.right) >= t.level - 1
    requires Level(t.right) == t.level ==> Single(t.right)
    ensures var r := Rebalance(t);
      && r.Node? && AA(r) && t.level - 1 <= r.level <= t.level
      && (Level(t.right) < t.level && r.level == t.level ==> Single(r))
  {
    if Level(t.left) == t.level - 1 && Level(t.right) >= t.level - 1 {
      assert AA(t);
      RebalanceRests(t);
    } else if Level(t.left) == t.level - 1 {
      RepairRightDropped(t);
    } else if Level(t.right) == t.level - 1 {
      RepairLeftDropped(t);
    } else {
      RepairLeftDroppedDouble(t);
    }
  }

  lemma {:induction false} DisownKeepsLevels(t: Tree)
    requires t.Node? && AA(t)
    ensures AA(DisownFirst(t)) && Level(DisownFirst(t)) == t.level
    ensures Level(DisownFirst(t).right) == Level(t.right)
    ensures AA(DisownLast(t)) && Level(DisownLast(t)) == t.level
    ensures Level(DisownLast(t).right) == Level(t.right)
  {
    if t.left.Node? { DisownKeepsLevels(t.left); }
    if t.right.Nil? {
    } else {
      DisownKeepsLevels(t.right);
    }
  }

  /**
   Removal keeps the level rules and costs the subtree at most one level; a single node
   that keeps its level stays single, which is what the parent's repair relies on.
   */
  lemma {:induction false} RemoveKeepsLevels(o: Order, t: Tree, key: string)
    requires AA(t)
    ensures var r := Remove(o, t, key).tree;
      && AA(r) && Level(t) - 1 <= Level(r) <= Level(t)
      && (Single(t) && Level(r) == Level(t) ==> Single(r))
    decreases Size(t)
  {
    LevelNonNegative(t);
    if t.Nil? {
    } else {
      LevelNonNegative(t.left);
      LevelNonNegative(t.right);
      var cmp := Compare(o, key, t.data.key);
      if cmp < 0 {
        RemoveKeepsLevels(o, t.left, key);
        RebalanceRepairs(t.(left := Remove(o, t.left, key).tree));
      } else if cmp > 0 {
        RemoveKeepsLevels(o, t.right, key);
        RebalanceRepairs(t.(right := Remove(o, t.right, key).tree));
      } else if t.left.Nil? && t.right.Nil? {
      } else if t.left.Nil? {
        var m := First(t.right);
        DisownKeepsLevels(t.right);
        RemoveKeepsLevels(o, DisownFirst(t.right), m.key);
        RebalanceRepairs(t.(data := m, right := Remove(o, DisownFirst(t.right), m.key).tree));
      } else {
        var m := Last(t.left);
        DisownKeepsLevels(t.left);
        RemoveKeepsLevels(o, DisownLast(t.left), m.key);
        RebalanceRepairs(t.(data := m, left := Remove(o, DisownLast(t.left), m.key).tree));
      }
    }
  }

  // ------------------------------------------------------------------ depth

  lemma {:induction false} Pow2Adds(a: nat, b: nat)
    ensures Pow2(a + b) == Pow2(a) * Pow2(b)
  {
    if a == 0 {
    } else {
      Pow2Adds(a - 1, b);
      calc {
        Pow2(a + b);
        2 * Pow2(a - 1 + b);
        2 * (Pow2(a - 1) * Pow2(b));
        Pow2(a) * Pow2(b);
      }
    }
  }

  lemma {:induction false} Pow2Monotone(a: nat, b: nat)
    requires a <= b
    ensures Pow2(a) <= Pow2(b)
    decreases b - a
  {
    if a == b {
    } else {
      Pow2Monotone(a + 1, b);
    }
  }

  lemma {:induction false} LevelBounds(t: Tree)
    requires AA(t)
    ensures Level(t) >= 0
    ensures Pow2(Level(t)) <= Size(t) + 1
    ensures Height(t) <= 2 * Level(t)
    ensures t.Node? && Single(t) ==> Height(t) <= 2 * t.level - 1
  {
    LevelNonNegative(t);
    if t.Nil? {
    } else {
      LevelBounds(t.left);
      LevelBounds(t.right);
      Pow2Monotone(t.level - 1, Level(t.right));
    }
  }

  lemma {:induction false} FindDepthWithinHeight(o: Order, t: Tree, key: string)
    ensures FindDepth(o, t, key) <= Height(t)
  {
    if t.Nil? {
    } else {
      FindDepthWithinHeight(o, t.left, key);
      FindDepthWithinHeight(o, t.right, key);
    }
  }

  lemma SquareMonotone(p: nat, n: nat)
    requires p <= n
    ensures p * p <= n * n
  {
    assert p * p <= p * n <= n * n;
  }

  /** A search visits at most 2*log2(n+1) of the n nodes. */
  lemma FindIsLogarithmic(o: Order, t: Tree, key: string)
    requires AA(t)
    ensures Pow2(FindDepth(o, t, key)) <= (Size(t) + 1) * (Size(t) + 1)
  {
    LevelBounds(t);
    FindDepthWithinHeight(o, t, key);
    Pow2Monotone(FindDepth(o, t, key), Level(t) + Level(t));
    Pow2Adds(Level(t), Level(t));
    SquareMonotone(Pow2(Level(t)), Size(t) + 1);
  }
}
