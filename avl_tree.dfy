/// The self-balancing binary search tree AVLTree<T> used by the visibility
/// graph sweep. The linked nodes (Left, Right, Data, Balance) are modelled as a
/// tree value; the AVLTree object owns the root and replaces it on every
/// operation, as the source does with `this.Root = this.Add(this.Root, ...)`.
/// The `ref bool` flags of the recursive helpers become the fields of Step.
module AvlTree {
  import opened Options

  datatype Tree<T> = Nil | Node(left: Tree<T>, data: T, balance: int, right: Tree<T>)

  /// Result of one recursive step: the new subtree, whether its height changed
  /// (wasAdded / wasDeleted) and whether the operation took effect (wasSuccessful).
  datatype Step<T> = Step(tree: Tree<T>, heightChanged: bool, success: bool)

  function Max(a: int, b: int): int { if a < b then b else a }

  function Height<T>(t: Tree<T>): nat {
    match t
    case Nil => 0
    case Node(l, _, _, r) => 1 + Max(Height(l), Height(r))
  }

  /// In-order sequence of the stored data.
  function Elements<T>(t: Tree<T>): seq<T> {
    match t
    case Nil => []
    case Node(l, x, _, r) => Elements(l) + [x] + Elements(r)
  }

  /// The AVL invariant: every stored Balance is the height of the right
  /// subtree minus the height of the left one, and lies in -1..1.
  predicate Balanced<T>(t: Tree<T>) {
    match t
    case Nil => true
    case Node(l, _, b, r) =>
      Balanced(l) && Balanced(r) && b == Height(r) - Height(l) && -1 <= b <= 1
  }

  /// What the tree assumes of its comparer on the values it meets (S): it is
  /// antisymmetric and its "less than" is transitive.
  ghost predicate ValidComparer<T>(cmp: (T, T) -> int, S: set<T>) {
    (forall a, b :: a in S && b in S ==> (cmp(a, b) < 0 <==> cmp(b, a) > 0)) &&
    (forall a, b, c {:trigger cmp(a, b), cmp(b, c), cmp(a, c)} ::
       a in S && b in S && c in S && cmp(a, b) < 0 && cmp(b, c) < 0 ==> cmp(a, c) < 0)
  }

  ghost predicate Within<T>(s: seq<T>, S: set<T>) {
    forall i :: 0 <= i < |s| ==> s[i] in S
  }

  ghost predicate Sorted<T>(s: seq<T>, cmp: (T, T) -> int) {
    forall i, j :: 0 <= i < j < |s| ==> cmp(s[i], s[j]) < 0
  }

  /// The search-tree property: the in-order sequence is strictly increasing.
  ghost predicate Ordered<T>(t: Tree<T>, cmp: (T, T) -> int) {
    Sorted(Elements(t), cmp)
  }

  /// The tree stores something the comparer considers equal to d.
  ghost predicate Member<T>(t: Tree<T>, d: T, cmp: (T, T) -> int) {
    exists i :: 0 <= i < |Elements(t)| && cmp(d, Elements(t)[i]) == 0
  }

  /// GetHeightLogN: walks the left spine, adding one where the right side is taller.
  function HeightLogN<T>(t: Tree<T>): (h: nat)
    ensures Balanced(t) ==> h == Height(t)
  {
    match t
    case Nil => 0
    case Node(l, _, b, _) => 1 + HeightLogN(l) + (if b == 1 then 1 else 0)
  }

  /// RotateLeft only rewires pointers; the Balance fields are left as they were.
  function RotateLeft<T>(t: Tree<T>): (r: Tree<T>)
    requires t.Node? && t.right.Node?
    ensures r.Node? && r.left.Node?
    ensures Elements(r) == Elements(t)
  {
    var Node(a, x, bx, Node(b, y, bY, c)) := t;
    Node(Node(a, x, bx, b), y, bY, c)
  }

  function RotateRight<T>(t: Tree<T>): (r: Tree<T>)
    requires t.Node? && t.left.Node?
    ensures r.Node? && r.right.Node?
    ensures Elements(r) == Elements(t)
  {
    var Node(Node(a, x, bx, b), y, bY, c) := t;
    Node(a, x, bx, Node(b, y, bY, c))
  }

  /// The rebalancing of a node whose left subtree is two levels taller than
  /// its right one (Balance == -2), shared by Add, Delete, DeleteMin and DeleteMax.
  function FixLeftHeavy<T>(t: Tree<T>): (r: Tree<T>)
    requires t.Node? && Balanced(t.left) && Balanced(t.right)
    requires Height(t.left) == Height(t.right) + 2
    ensures Balanced(r) && r.Node?
    ensures Elements(r) == Elements(t)
    ensures Height(r) == Height(t) - (if t.left.balance == 0 then 0 else 1)
  {
    if t.left.balance == 1 then DoubleRight(t)
    else if t.left.balance == -1 then SingleRight(t)
    else SingleRightEven(t)
  }

  /// RotateLeft on the left child, then RotateRight on the node.
  function DoubleRight<T>(t: Tree<T>): (r: Tree<T>)
    requires t.Node? && Balanced(t.left) && Balanced(t.right)
    requires Height(t.left) == Height(t.right) + 2 && t.left.balance == 1
    ensures Balanced(r) && r.Node?
    ensures Elements(r) == Elements(t)
    ensures Height(r) == Height(t) - 1
  {
    var Node(L, x, _, c) := t;
    var Node(a, y, _, LR) := L;
    assert Balanced(a) && Balanced(LR) && Height(LR) == Height(a) + 1;
    var Node(b1, z, lrb, b2) := LR;
    assert Balanced(b1) && Balanced(b2);
    assert Elements(LR) == Elements(b1) + [z] + Elements(b2);
    assert Elements(L) == Elements(a) + [y] + Elements(LR);
    Regroup(Elements(a), y, Elements(b1), z, Elements(b2), x, Elements(c));
    var n1 := Node(a, y, if lrb == 1 then -1 else 0, b1);
    var n2 := Node(b2, x, if lrb == -1 then 1 else 0, c);
    assert Balanced(n1) && Height(n1) == Height(a) + 1;
    assert Balanced(n2) && Height(n2) == Height(c) + 1;
    Node(n1, z, 0, n2)
  }

  lemma Regroup<T>(a: seq<T>, y: T, b: seq<T>, z: T, c: seq<T>, x: T, d: seq<T>)
    ensures (a + [y] + (b + [z] + c)) + [x] + d == (a + [y] + b) + [z] + (c + [x] + d)
    ensures a + [y] + ((b + [z] + c) + [x] + d) == (a + [y] + b) + [z] + (c + [x] + d)
  {
  }

  /// RotateRight when the left child leans left: both end with Balance 0.
  function SingleRight<T>(t: Tree<T>): (r: Tree<T>)
    requires t.Node? && Balanced(t.left) && Balanced(t.right)
    requires Height(t.left) == Height(t.right) + 2 && t.left.balance == -1
    ensures Balanced(r) && r.Node?
    ensures Elements(r) == Elements(t)
    ensures Height(r) == Height(t) - 1
  {
    var e := RotateRight(t);
    Node(e.left, e.data, 0, e.right.(balance := 0))
  }

  /// RotateRight when the left child is even (only after a deletion):
  /// the height is unchanged and the two nodes lean towards each other.
  function SingleRightEven<T>(t: Tree<T>): (r: Tree<T>)
    requires t.Node? && Balanced(t.left) && Balanced(t.right)
    requires Height(t.left) == Height(t.right) + 2 && t.left.balance == 0
    ensures Balanced(r) && r.Node?
    ensures Elements(r) == Elements(t)
    ensures Height(r) == Height(t)
  {
    var e := RotateRight(t);
    Node(e.left, e.data, 1, e.right.(balance := -1))
  }

  /// The mirror image of FixLeftHeavy (Balance == 2).
  function FixRightHeavy<T>(t: Tree<T>): (r: Tree<T>)
    requires t.Node? && Balanced(t.left) && Balanced(t.right)
    requires Height(t.right) == Height(t.left) + 2
    ensures Balanced(r) && r.Node?
    ensures Elements(r) == Elements(t)
    ensures Height(r) == Height(t) - (if t.right.balance == 0 then 0 else 1)
  {
    if t.right.balance == -1 then DoubleLeft(t)
    else if t.right.balance == 1 then SingleLeft(t)
    else SingleLeftEven(t)
  }

  /// RotateRight on the right child, then RotateLeft on the node.
  function DoubleLeft<T>(t: Tree<T>): (r: Tree<T>)
    requires t.Node? && Balanced(t.left) && Balanced(t.right)
    requires Height(t.right) == Height(t.left) + 2 && t.right.balance == -1
    ensures Balanced(r) && r.Node?
    ensures Elements(r) == Elements(t)
    ensures Height(r) == Height(t) - 1
  {
    var Node(a, x, _, R) := t;
    var Node(RL, y, _, c) := R;
    assert Balanced(c) && Balanced(RL) && Height(RL) == Height(c) + 1;
    var Node(b1, z, rlb, b2) := RL;
    assert Balanced(b1) && Balanced(b2);
    assert Elements(RL) == Elements(b1) + [z] + Elements(b2);
    assert Elements(R) == Elements(RL) + [y] + Elements(c);
    Regroup(Elements(a), x, Elements(b1), z, Elements(b2), y, Elements(c));
    var n1 := Node(a, x, if rlb == 1 then -1 else 0, b1);
    var n2 := Node(b2, y, if rlb == -1 then 1 else 0, c);
    assert Balanced(n1) && Height(n1) == Height(a) + 1;
    assert Balanced(n2) && Height(n2) == Height(c) + 1;
    Node(n1, z, 0, n2)
  }

  function SingleLeft<T>(t: Tree<T>): (r: Tree<T>)
    requires t.Node? && Balanced(t.left) && Balanced(t.right)
    requires Height(t.right) == Height(t.left) + 2 && t.right.balance == 1
    ensures Balanced(r) && r.Node?
    ensures Elements(r) == Elements(t)
    ensures Height(r) == Height(t) - 1
  {
    var e := RotateLeft(t);
    Node(e.left.(balance := 0), e.data, 0, e.right)
  }

  function SingleLeftEven<T>(t: Tree<T>): (r: Tree<T>)
    requires t.Node? && Balanced(t.left) && Balanced(t.right)
    requires Height(t.right) == Height(t.left) + 2 && t.right.balance == 0
    ensures Balanced(r) && r.Node?
    ensures Elements(r) == Elements(t)
    ensures Height(r) == Height(t)
  {
    var e := RotateLeft(t);
    Node(e.left.(balance := 1), e.data, -1, e.right)
  }

  /// Add's handling of a left subtree of Node(_, x, b, r) that grew into nl;
  /// the second component is the new wasAdded.
  function GrowLeft<T>(nl: Tree<T>, x: T, b: int, r: Tree<T>): (res: (Tree<T>, bool))
    requires Balanced(nl) && Balanced(r) && nl.Node?
    requires -1 <= b <= 1 && Height(nl) == Height(r) - b + 1
    requires Height(nl) == 1 || nl.balance != 0
    ensures Balanced(res.0) && res.0.Node?
    ensures Elements(res.0) == Elements(nl) + [x] + Elements(r)
    ensures Height(res.0) == 1 + Max(Height(r) - b, Height(r)) + (if res.1 then 1 else 0)
    ensures res.1 ==> res.0.balance != 0
  {
    if b - 1 == 0 then (Node(nl, x, 0, r), false)
    else if b - 1 == -2 then (FixLeftHeavy(Node(nl, x, -2, r)), false)
    else (Node(nl, x, b - 1, r), true)
  }

  /// Add's handling of a right subtree of Node(l, x, b, _) that grew into nr.
  function GrowRight<T>(l: Tree<T>, x: T, b: int, nr: Tree<T>): (res: (Tree<T>, bool))
    requires Balanced(l) && Balanced(nr) && nr.Node?
    requires -1 <= b <= 1 && Height(nr) == Height(l) + b + 1
    requires Height(nr) == 1 || nr.balance != 0
    ensures Balanced(res.0) && res.0.Node?
    ensures Elements(res.0) == Elements(l) + [x] + Elements(nr)
    ensures Height(res.0) == 1 + Max(Height(l) + b, Height(l)) + (if res.1 then 1 else 0)
    ensures res.1 ==> res.0.balance != 0
  {
    if b + 1 == 0 then (Node(l, x, 0, nr), false)
    else if b + 1 == 2 then (FixRightHeavy(Node(l, x, 2, nr)), false)
    else (Node(l, x, b + 1, nr), true)
  }

  lemma SpliceLeft<T>(el: seq<T>, x: T, er: seq<T>, p: nat, d: T)
    requires p <= |el|
    ensures (el[..p] + [d] + el[p..]) + [x] + er
         == (el + [x] + er)[..p] + [d] + (el + [x] + er)[p..]
  {
    assert (el + [x] + er)[..p] == el[..p];
    assert (el + [x] + er)[p..] == el[p..] + [x] + er;
  }

  lemma SpliceRight<T>(el: seq<T>, x: T, er: seq<T>, q: nat, d: T)
    requires q <= |er|
    ensures el + [x] + (er[..q] + [d] + er[q..])
         == (el + [x] + er)[..|el| + 1 + q] + [d] + (el + [x] + er)[|el| + 1 + q..]
  {
    assert (el + [x] + er)[..|el| + 1 + q] == el + [x] + er[..q];
    assert (el + [x] + er)[|el| + 1 + q..] == er[q..];
  }

  /// Position at which Add places d in the in-order sequence.
  function InsertPos<T>(t: Tree<T>, d: T, cmp: (T, T) -> int): (p: nat)
    ensures p <= |Elements(t)|
  {
    match t
    case Nil => 0
    case Node(l, x, _, r) =>
      if cmp(d, x) < 0 then InsertPos(l, d, cmp)
      else |Elements(l)| + 1 + InsertPos(r, d, cmp)
  }

  /// The private recursive Add. A comparer result of 0 rejects the insertion.
  function Insert<T>(t: Tree<T>, d: T, cmp: (T, T) -> int): (r: Step<T>)
    requires Balanced(t)
    ensures Balanced(r.tree) && r.tree.Node?
    ensures Height(r.tree) == Height(t) + (if r.heightChanged then 1 else 0)
    ensures r.heightChanged ==> r.success && (Height(r.tree) == 1 || r.tree.balance != 0)
    ensures !r.success ==> r.tree == t
  {
    match t
    case Nil => Step(Node(Nil, d, 0, Nil), true, true)
    case Node(l, x, b, rt) =>
      var c := cmp(d, x);
      if c < 0 then
        var s := Insert(l, d, cmp);
        if s.heightChanged then
          var g := GrowLeft(s.tree, x, b, rt);
          Step(g.0, g.1, s.success)
        else Step(Node(s.tree, x, b, rt), false, s.success)
      else if c > 0 then
        var s := Insert(rt, d, cmp);
        if s.heightChanged then
          var g := GrowRight(l, x, b, s.tree);
          Step(g.0, g.1, s.success)
        else Step(Node(l, x, b, s.tree), false, s.success)
      else Step(t, false, false)
  }

  /// Whatever the comparer, a successful Add places d at InsertPos in the
  /// in-order sequence and keeps every other element in place.
  lemma {:induction false} InsertElements<T>(t: Tree<T>, d: T, cmp: (T, T) -> int)
    requires Balanced(t)
    ensures Insert(t, d, cmp).success ==>
      Elements(Insert(t, d, cmp).tree)
        == Elements(t)[..InsertPos(t, d, cmp)] + [d] + Elements(t)[InsertPos(t, d, cmp)..]
  {
    match t
    case Nil =>
    case Node(l, x, b, rt) =>
      if cmp(d, x) < 0 {
        InsertElements(l, d, cmp);
        SpliceLeft(Elements(l), x, Elements(rt), InsertPos(l, d, cmp), d);
      } else if cmp(d, x) > 0 {
        InsertElements(rt, d, cmp);
        SpliceRight(Elements(l), x, Elements(rt), InsertPos(rt, d, cmp), d);
      }
  }

  /// Delete's handling of Step s for the left subtree of Node(_, x, b, r):
  /// `if (wasDeleted) node.Balance++`, then the shared rebalancing.
  function ShrinkLeft<T>(s: Step<T>, x: T, b: int, r: Tree<T>): (res: Step<T>)
    requires Balanced(s.tree) && Balanced(r) && -1 <= b <= 1
    requires Height(s.tree) + (if s.heightChanged then 1 else 0) == Height(r) - b
    ensures Balanced(res.tree) && res.tree.Node? && res.success == s.success
    ensures res.heightChanged ==> s.heightChanged
    ensures Height(res.tree) + (if res.heightChanged then 1 else 0) == 1 + Max(Height(r) - b, Height(r))
    ensures Elements(res.tree) == Elements(s.tree) + [x] + Elements(r)
  {
    if s.heightChanged then
      var t := Node(s.tree, x, b + 1, r);
      assert Height(t) == 1 + Height(r);
      var g := Rebalance(t);
      Step(g.0, g.1, s.success)
    else
      var t := Node(s.tree, x, b, r);
      assert Height(t) == 1 + Max(Height(r) - b, Height(r));
      Step(t, false, s.success)
  }

  /// The mirror image of ShrinkLeft: `if (wasDeleted) node.Balance--`.
  function ShrinkRight<T>(l: Tree<T>, x: T, b: int, s: Step<T>): (res: Step<T>)
    requires Balanced(s.tree) && Balanced(l) && -1 <= b <= 1
    requires Height(s.tree) + (if s.heightChanged then 1 else 0) == Height(l) + b
    ensures Balanced(res.tree) && res.tree.Node? && res.success == s.success
    ensures res.heightChanged ==> s.heightChanged
    ensures Height(res.tree) + (if res.heightChanged then 1 else 0) == 1 + Max(Height(l) + b, Height(l))
    ensures Elements(res.tree) == Elements(l) + [x] + Elements(s.tree)
  {
    if s.heightChanged then
      var g := Rebalance(Node(l, x, b - 1, s.tree));
      Step(g.0, g.1, s.success)
    else Step(Node(l, x, b, s.tree), false, s.success)
  }

  /// The rebalancing that follows a deletion below t, whose Balance has already
  /// been adjusted; the second component is the new wasDeleted.
  function Rebalance<T>(t: Tree<T>): (r: (Tree<T>, bool))
    requires t.Node? && Balanced(t.left) && Balanced(t.right)
    requires t.balance == Height(t.right) - Height(t.left) && -2 <= t.balance <= 2
    ensures Balanced(r.0) && r.0.Node?
    ensures Elements(r.0) == Elements(t)
    ensures -1 <= t.balance <= 1 ==> r == (t, t.balance == 0)
    ensures (t.balance == 2 || t.balance == -2) ==> Height(r.0) + (if r.1 then 1 else 0) == Height(t)
  {
    if t.balance == 1 || t.balance == -1 then (t, false)
    else if t.balance == -2 then (FixLeftHeavy(t), t.left.balance != 0)
    else if t.balance == 2 then (FixRightHeavy(t), t.right.balance != 0)
    else (t, true)
  }

  /// `min.Data = data` in Delete: overwrites the leftmost element of t.
  function ReplaceMin<T>(t: Tree<T>, x: T): (r: Tree<T>)
    requires t.Node?
    ensures r.Node? && Height(r) == Height(t)
    ensures Balanced(t) ==> Balanced(r)
    ensures Elements(r) == [x] + Elements(t)[1..]
  {
    if t.left.Nil? then t.(data := x)
    else t.(left := ReplaceMin(t.left, x))
  }

  /// The private recursive Delete, called on a non-empty subtree. A node with
  /// two children takes the minimum of its right subtree, which is then
  /// deleted from there.
  function Remove<T>(t: Tree<T>, d: T, cmp: (T, T) -> int): (r: Step<T>)
    requires t.Node? && Balanced(t)
    ensures Balanced(r.tree)
    ensures Height(r.tree) + (if r.heightChanged then 1 else 0) == Height(t)
    ensures r.heightChanged ==> r.success
    ensures |Elements(r.tree)| + (if r.success then 1 else 0) == |Elements(t)|
    decreases Height(t)
  {
    var Node(l, x, b, rt) := t;
    assert Balanced(l) && Balanced(rt) && b == Height(rt) - Height(l);
    var c := cmp(d, x);
    if c < 0 then
      if l.Nil? then Step(t, false, false)
      else ShrinkLeft(Remove(l, d, cmp), x, b, rt)
    else if c == 0 then
      if l.Node? && rt.Node? then
        ShrinkRight(l, Elements(rt)[0], b, Remove(ReplaceMin(rt, x), x, cmp))
      else if l.Nil? then Step(rt, true, true)
      else Step(l, true, true)
    else
      if rt.Nil? then Step(t, false, false)
      else ShrinkRight(l, x, b, Remove(rt, d, cmp))
  }

  /// The private DeleteMin: removes the first element of the in-order sequence.
  function RemoveMin<T>(t: Tree<T>): (r: Step<T>)
    requires t.Node? && Balanced(t)
    ensures Balanced(r.tree) && r.success
    ensures Height(r.tree) + (if r.heightChanged then 1 else 0) == Height(t)
    ensures Elements(r.tree) == Elements(t)[1..]
  {
    var Node(l, x, b, r) := t;
    var el, er := Elements(l), Elements(r);
    assert Balanced(l) && Balanced(r) && b == Height(r) - Height(l);
    assert Elements(t) == el + [x] + er;
    if l.Nil? then Step(r, true, true)
    else
      var s := RemoveMin(l);
      assert (el + [x] + er)[1..] == el[1..] + [x] + er;
      ShrinkLeft(s, x, b, r)
  }

  /// The private DeleteMax: removes the last element of the in-order sequence.
  function RemoveMax<T>(t: Tree<T>): (r: Step<T>)
    requires t.Node? && Balanced(t)
    ensures Balanced(r.tree) && r.success
    ensures Height(r.tree) + (if r.heightChanged then 1 else 0) == Height(t)
    ensures Elements(r.tree) == Elements(t)[..|Elements(t)| - 1]
  {
    var Node(l, x, b, r) := t;
    var el, er := Elements(l), Elements(r);
    assert Balanced(l) && Balanced(r) && b == Height(r) - Height(l);
    assert Elements(t) == el + [x] + er;
    if r.Nil? then
      assert (el + [x])[..|el|] == el;
      Step(l, true, true)
    else
      var s := RemoveMax(r);
      assert (el + [x] + er)[..|el| + |er|] == el + [x] + er[..|er| - 1];
      ShrinkRight(l, x, b, s)
  }

  /// The private Search: the subtree whose root the comparer finds equal to d.
  function Search<T>(t: Tree<T>, d: T, cmp: (T, T) -> int): (r: Tree<T>)
    ensures r.Node? ==> cmp(d, r.data) == 0 && r.data in Elements(t)
  {
    match t
    case Nil => Nil
    case Node(l, x, _, rt) =>
      if cmp(d, x) < 0 then Search(l, d, cmp)
      else if cmp(d, x) > 0 then Search(rt, d, cmp)
      else t
  }

  // ---- Search-tree order ----

  lemma SortedSplit<T>(el: seq<T>, x: T, er: seq<T>, cmp: (T, T) -> int)
    requires Sorted(el + [x] + er, cmp)
    ensures Sorted(el, cmp) && Sorted(er, cmp)
    ensures forall i :: 0 <= i < |el| ==> cmp(el[i], x) < 0
    ensures forall i :: 0 <= i < |er| ==> cmp(x, er[i]) < 0
    ensures forall i, j :: 0 <= i < |el| && 0 <= j < |er| ==> cmp(el[i], er[j]) < 0
  {
    var s := el + [x] + er;
    forall i, j | 0 <= i < j < |el| ensures cmp(el[i], el[j]) < 0 {
      assert el[i] == s[i] && el[j] == s[j];
    }
    forall i, j | 0 <= i < j < |er| ensures cmp(er[i], er[j]) < 0 {
      assert er[i] == s[|el| + 1 + i] && er[j] == s[|el| + 1 + j];
    }
    forall i | 0 <= i < |el| ensures cmp(el[i], x) < 0 {
      assert el[i] == s[i] && x == s[|el|];
    }
    forall i | 0 <= i < |er| ensures cmp(x, er[i]) < 0 {
      assert er[i] == s[|el| + 1 + i] && x == s[|el|];
    }
    forall i, j | 0 <= i < |el| && 0 <= j < |er| ensures cmp(el[i], er[j]) < 0 {
      assert el[i] == s[i] && er[j] == s[|el| + 1 + j];
    }
  }

  lemma SortedRemove<T>(s: seq<T>, p: nat, cmp: (T, T) -> int)
    requires Sorted(s, cmp) && p < |s|
    ensures Sorted(s[..p] + s[p + 1..], cmp)
  {
    var u := s[..p] + s[p + 1..];
    forall i, j | 0 <= i < j < |u| ensures cmp(u[i], u[j]) < 0 {
      assert u[i] == s[if i < p then i else i + 1];
      assert u[j] == s[if j < p then j else j + 1];
    }
  }

  lemma SortedInsert<T>(s: seq<T>, p: nat, d: T, cmp: (T, T) -> int)
    requires Sorted(s, cmp) && p <= |s|
    requires forall i :: 0 <= i < p ==> cmp(s[i], d) < 0
    requires forall i :: p <= i < |s| ==> cmp(d, s[i]) < 0
    ensures Sorted(s[..p] + [d] + s[p..], cmp)
  {
    var u := s[..p] + [d] + s[p..];
    forall i, j | 0 <= i < j < |u| ensures cmp(u[i], u[j]) < 0 {
      if i < p {
        assert u[i] == s[i];
        if j > p { assert u[j] == s[j - 1]; }
      } else if i == p {
        assert u[j] == s[j - 1];
      } else {
        assert u[i] == s[i - 1] && u[j] == s[j - 1];
      }
    }
  }

  /// Below a node x, d can only match in the subtree the comparer points to.
  lemma MemberLeft<T>(t: Tree<T>, d: T, cmp: (T, T) -> int, S: set<T>)
    requires t.Node? && Ordered(t, cmp) && cmp(d, t.data) < 0
    requires ValidComparer(cmp, S) && Within(Elements(t), S) && d in S
    ensures Member(t, d, cmp) <==> Member(t.left, d, cmp)
  {
    var Node(l, x, _, r) := t;
    var el, er := Elements(l), Elements(r);
    var e := el + [x] + er;
    assert Elements(t) == e;
    assert e[|el|] == x && x in S;
    forall j | |el| < j < |e| ensures cmp(d, e[j]) < 0 {
      assert cmp(e[|el|], e[j]) < 0 && e[j] in S;
    }
    if Member(t, d, cmp) {
      var i :| 0 <= i < |e| && cmp(d, e[i]) == 0;
      assert e[i] == el[i];
    }
    if Member(l, d, cmp) {
      var i :| 0 <= i < |el| && cmp(d, el[i]) == 0;
      assert e[i] == el[i];
    }
  }

  lemma MemberRight<T>(t: Tree<T>, d: T, cmp: (T, T) -> int, S: set<T>)
    requires t.Node? && Ordered(t, cmp) && cmp(d, t.data) > 0
    requires ValidComparer(cmp, S) && Within(Elements(t), S) && d in S
    ensures Member(t, d, cmp) <==> Member(t.right, d, cmp)
  {
    var Node(l, x, _, r) := t;
    var el, er := Elements(l), Elements(r);
    var e := el + [x] + er;
    assert Elements(t) == e;
    assert e[|el|] == x && x in S;
    forall j | 0 <= j < |el| ensures cmp(d, e[j]) > 0 {
      assert cmp(e[j], e[|el|]) < 0 && e[j] in S;
    }
    if Member(t, d, cmp) {
      var i :| 0 <= i < |e| && cmp(d, e[i]) == 0;
      assert e[i] == er[i - |el| - 1];
    }
    if Member(r, d, cmp) {
      var i :| 0 <= i < |er| && cmp(d, er[i]) == 0;
      assert e[|el| + 1 + i] == er[i];
    }
  }

  lemma OrderedParts<T>(t: Tree<T>, cmp: (T, T) -> int)
    requires t.Node? && Ordered(t, cmp)
    ensures Ordered(t.left, cmp) && Ordered(t.right, cmp)
  {
    SortedSplit(Elements(t.left), t.data, Elements(t.right), cmp);
  }

  lemma WithinParts<T>(t: Tree<T>, S: set<T>)
    requires t.Node? && Within(Elements(t), S)
    ensures Within(Elements(t.left), S) && Within(Elements(t.right), S) && t.data in S
  {
    var Node(l, x, _, r) := t;
    var el, er := Elements(l), Elements(r);
    var e := el + [x] + er;
    assert Elements(t) == e;
    assert e[|el|] == x;
    forall i | 0 <= i < |el| ensures el[i] in S { assert e[i] == el[i]; }
    forall i | 0 <= i < |er| ensures er[i] in S { assert e[|el| + 1 + i] == er[i]; }
  }

  /// Search finds d exactly when the tree stores an element equal to it.
  lemma {:induction false} SearchFindsMember<T>(t: Tree<T>, d: T, cmp: (T, T) -> int, S: set<T>)
    requires Ordered(t, cmp) && ValidComparer(cmp, S) && Within(Elements(t), S) && d in S
    ensures Search(t, d, cmp).Node? <==> Member(t, d, cmp)
  {
    match t
    case Nil =>
    case Node(l, x, _, r) =>
      OrderedParts(t, cmp);
      WithinParts(t, S);
      if cmp(d, x) < 0 {
        MemberLeft(t, d, cmp, S);
        SearchFindsMember(l, d, cmp, S);
      } else if cmp(d, x) > 0 {
        MemberRight(t, d, cmp, S);
        SearchFindsMember(r, d, cmp, S);
      } else {
        assert Elements(t)[|Elements(l)|] == x;
      }
  }

  /// Where d falls after the comparer sends it into the left subtree.
  lemma SeparatedLeft<T>(el: seq<T>, x: T, er: seq<T>, p: nat, d: T, cmp: (T, T) -> int, S: set<T>)
    requires Sorted(el + [x] + er, cmp) && ValidComparer(cmp, S)
    requires Within(er, S) && x in S && d in S && cmp(d, x) < 0 && p <= |el|
    requires forall i :: 0 <= i < p ==> cmp(el[i], d) < 0
    requires forall i :: p <= i < |el| ==> cmp(d, el[i]) < 0
    ensures forall i :: 0 <= i < p ==> cmp((el + [x] + er)[i], d) < 0
    ensures forall i :: p <= i < |el + [x] + er| ==> cmp(d, (el + [x] + er)[i]) < 0
  {
    var e := el + [x] + er;
    SortedSplit(el, x, er, cmp);
    forall i | 0 <= i < p ensures cmp(e[i], d) < 0 { assert e[i] == el[i]; }
    forall i | p <= i < |e| ensures cmp(d, e[i]) < 0 {
      if i < |el| { assert e[i] == el[i]; }
      else if i > |el| {
        assert e[i] == er[i - |el| - 1];
        assert cmp(x, e[i]) < 0 && e[i] in S;
      }
    }
  }

  /// Where d falls after the comparer sends it into the right subtree.
  lemma SeparatedRight<T>(el: seq<T>, x: T, er: seq<T>, q: nat, d: T, cmp: (T, T) -> int, S: set<T>)
    requires Sorted(el + [x] + er, cmp) && ValidComparer(cmp, S)
    requires Within(el, S) && x in S && d in S && cmp(d, x) > 0 && q <= |er|
    requires forall i :: 0 <= i < q ==> cmp(er[i], d) < 0
    requires forall i :: q <= i < |er| ==> cmp(d, er[i]) < 0
    ensures forall i :: 0 <= i < |el| + 1 + q ==> cmp((el + [x] + er)[i], d) < 0
    ensures forall i :: |el| + 1 + q <= i < |el + [x] + er| ==> cmp(d, (el + [x] + er)[i]) < 0
  {
    var e := el + [x] + er;
    SortedSplit(el, x, er, cmp);
    assert cmp(x, d) < 0;
    forall i | 0 <= i < |el| + 1 + q ensures cmp(e[i], d) < 0 {
      if i < |el| {
        assert e[i] == el[i];
        assert cmp(e[i], x) < 0 && e[i] in S;
      } else if i > |el| { assert e[i] == er[i - |el| - 1]; }
    }
    forall i | |el| + 1 + q <= i < |e| ensures cmp(d, e[i]) < 0 { assert e[i] == er[i - |el| - 1]; }
  }

  /// On a search tree, Add succeeds exactly when no equal element is stored,
  /// and InsertPos separates the smaller elements from the larger ones.
  lemma {:induction false} InsertPosSeparates<T>(t: Tree<T>, d: T, cmp: (T, T) -> int, S: set<T>)
    requires Balanced(t) && Ordered(t, cmp) && ValidComparer(cmp, S) && Within(Elements(t), S) && d in S
    ensures Insert(t, d, cmp).success <==> !Member(t, d, cmp)
    ensures Insert(t, d, cmp).success ==>
      (forall i :: 0 <= i < InsertPos(t, d, cmp) ==> cmp(Elements(t)[i], d) < 0) &&
      (forall i :: InsertPos(t, d, cmp) <= i < |Elements(t)| ==> cmp(d, Elements(t)[i]) < 0)
  {
    match t
    case Nil =>
    case Node(l, x, _, r) =>
      OrderedParts(t, cmp);
      WithinParts(t, S);
      if cmp(d, x) < 0 {
        MemberLeft(t, d, cmp, S);
        InsertPosSeparates(l, d, cmp, S);
        if Insert(t, d, cmp).success {
          SeparatedLeft(Elements(l), x, Elements(r), InsertPos(l, d, cmp), d, cmp, S);
        }
      } else if cmp(d, x) > 0 {
        MemberRight(t, d, cmp, S);
        InsertPosSeparates(r, d, cmp, S);
        if Insert(t, d, cmp).success {
          SeparatedRight(Elements(l), x, Elements(r), InsertPos(r, d, cmp), d, cmp, S);
        }
      } else {
        assert Elements(t)[|Elements(l)|] == x;
      }
  }

  lemma InsertKeepsOrder<T>(t: Tree<T>, d: T, cmp: (T, T) -> int, S: set<T>)
    requires Balanced(t) && Ordered(t, cmp) && ValidComparer(cmp, S) && Within(Elements(t), S) && d in S
    ensures Insert(t, d, cmp).success <==> !Member(t, d, cmp)
    ensures Ordered(Insert(t, d, cmp).tree, cmp)
  {
    InsertPosSeparates(t, d, cmp, S);
    InsertElements(t, d, cmp);
    if Insert(t, d, cmp).success {
      SortedInsert(Elements(t), InsertPos(t, d, cmp), d, cmp);
    }
  }

  /// Position in the in-order sequence of the element Delete removes.
  function DeletePos<T>(t: Tree<T>, d: T, cmp: (T, T) -> int): (p: nat)
    ensures p <= |Elements(t)|
  {
    match t
    case Nil => 0
    case Node(l, x, _, r) =>
      if cmp(d, x) < 0 then DeletePos(l, d, cmp)
      else if cmp(d, x) == 0 then |Elements(l)|
      else |Elements(l)| + 1 + DeletePos(r, d, cmp)
  }

  lemma RemoveSpliceLeft<T>(el: seq<T>, x: T, er: seq<T>, p: nat)
    requires p < |el|
    ensures (el[..p] + el[p + 1..]) + [x] + er == (el + [x] + er)[..p] + (el + [x] + er)[p + 1..]
  {
    assert (el + [x] + er)[..p] == el[..p];
    assert (el + [x] + er)[p + 1..] == el[p + 1..] + [x] + er;
  }

  lemma RemoveSpliceRight<T>(el: seq<T>, x: T, er: seq<T>, q: nat, p: nat)
    requires q < |er| && p == |el| + 1 + q
    ensures el + [x] + (er[..q] + er[q + 1..]) == (el + [x] + er)[..p] + (el + [x] + er)[p + 1..]
  {
    assert (el + [x] + er)[..p] == el + [x] + er[..q];
    assert (el + [x] + er)[p + 1..] == er[q + 1..];
  }

  /// The two-children case: the right subtree with its minimum replaced by
  /// x is still a search tree and contains x.
  lemma ReplacedMinOrdered<T>(t: Tree<T>, cmp: (T, T) -> int, S: set<T>)
    requires t.Node? && t.left.Node? && t.right.Node? && Ordered(t, cmp)
    requires ValidComparer(cmp, S) && Within(Elements(t), S)
    ensures Ordered(ReplaceMin(t.right, t.data), cmp)
    ensures Within(Elements(ReplaceMin(t.right, t.data)), S)
    ensures Member(ReplaceMin(t.right, t.data), t.data, cmp)
  {
    var Node(l, x, _, r) := t;
    var el, er := Elements(l), Elements(r);
    var e := el + [x] + er;
    assert Elements(t) == e;
    var n := |el|;
    var e1 := Elements(ReplaceMin(r, x));
    assert e1 == [x] + er[1..];
    assert e1[0] == x == e[n];
    forall i | 0 < i < |e1| ensures e1[i] == e[n + 1 + i] {
      assert e1[i] == er[i];
    }
    forall i, j | 0 <= i < j < |e1| ensures cmp(e1[i], e1[j]) < 0 {
      assert cmp(e[if i == 0 then n else n + 1 + i], e[n + 1 + j]) < 0;
    }
    forall i | 0 < i < |e1| ensures e1[i] in S {
      assert e[n + 1 + i] in S;
    }
    assert e[n] in S;
    Reflexive(cmp, S, x);
  }

  /// On a search tree, Delete succeeds exactly when an equal element is stored,
  /// removes exactly that element, and leaves the tree untouched otherwise.
  lemma {:induction false} RemoveFromOrdered<T>(t: Tree<T>, d: T, cmp: (T, T) -> int, S: set<T>)
    requires t.Node? && Balanced(t) && Ordered(t, cmp)
    requires ValidComparer(cmp, S) && Within(Elements(t), S) && d in S
    ensures Remove(t, d, cmp).success <==> Member(t, d, cmp)
    ensures Remove(t, d, cmp).success ==>
      DeletePos(t, d, cmp) < |Elements(t)| &&
      cmp(d, Elements(t)[DeletePos(t, d, cmp)]) == 0 &&
      Elements(Remove(t, d, cmp).tree)
        == Elements(t)[..DeletePos(t, d, cmp)] + Elements(t)[DeletePos(t, d, cmp) + 1..]
    ensures !Remove(t, d, cmp).success ==> Remove(t, d, cmp).tree == t
    decreases Height(t), 2
  {
    OrderedParts(t, cmp);
    WithinParts(t, S);
    if cmp(d, t.data) < 0 {
      RemoveGoingLeft(t, d, cmp, S);
    } else if cmp(d, t.data) == 0 {
      RemoveAtNode(t, d, cmp, S);
    } else {
      RemoveGoingRight(t, d, cmp, S);
    }
  }

  lemma {:induction false} RemoveGoingLeft<T>(t: Tree<T>, d: T, cmp: (T, T) -> int, S: set<T>)
    requires t.Node? && Balanced(t) && Ordered(t, cmp)
    requires ValidComparer(cmp, S) && Within(Elements(t), S) && d in S
    requires cmp(d, t.data) < 0
    ensures Remove(t, d, cmp).success <==> Member(t, d, cmp)
    ensures Remove(t, d, cmp).success ==>
      DeletePos(t, d, cmp) < |Elements(t)| &&
      cmp(d, Elements(t)[DeletePos(t, d, cmp)]) == 0 &&
      Elements(Remove(t, d, cmp).tree)
        == Elements(t)[..DeletePos(t, d, cmp)] + Elements(t)[DeletePos(t, d, cmp) + 1..]
    ensures !Remove(t, d, cmp).success ==> Remove(t, d, cmp).tree == t
    decreases Height(t), 1
  {
    var Node(l, x, b, rt) := t;
    var el, er := Elements(l), Elements(rt);
    var e := el + [x] + er;
    assert Elements(t) == e;
    OrderedParts(t, cmp);
    WithinParts(t, S);
    MemberLeft(t, d, cmp, S);
    if l.Node? {
      RemoveFromOrdered(l, d, cmp, S);
      var p := DeletePos(l, d, cmp);
      RemoveLeftStep(t, d, cmp);
      if Remove(l, d, cmp).success {
        RemoveSpliceLeft(el, x, er, p);
        assert e[p] == el[p];
      } else {
        assert Remove(l, d, cmp) == Step(l, false, false);
      }
    }
  }

  lemma {:induction false} RemoveGoingRight<T>(t: Tree<T>, d: T, cmp: (T, T) -> int, S: set<T>)
    requires t.Node? && Balanced(t) && Ordered(t, cmp)
    requires ValidComparer(cmp, S) && Within(Elements(t), S) && d in S
    requires cmp(d, t.data) > 0
    ensures Remove(t, d, cmp).success <==> Member(t, d, cmp)
    ensures Remove(t, d, cmp).success ==>
      DeletePos(t, d, cmp) < |Elements(t)| &&
      cmp(d, Elements(t)[DeletePos(t, d, cmp)]) == 0 &&
      Elements(Remove(t, d, cmp).tree)
        == Elements(t)[..DeletePos(t, d, cmp)] + Elements(t)[DeletePos(t, d, cmp) + 1..]
    ensures !Remove(t, d, cmp).success ==> Remove(t, d, cmp).tree == t
    decreases Height(t), 1
  {
    var Node(l, x, b, rt) := t;
    var el, er := Elements(l), Elements(rt);
    var e := el + [x] + er;
    assert Elements(t) == e;
    OrderedParts(t, cmp);
    WithinParts(t, S);
    MemberRight(t, d, cmp, S);
    if rt.Node? {
      RemoveFromOrdered(rt, d, cmp, S);
      var q := DeletePos(rt, d, cmp);
      RemoveRightStep(t, d, cmp);
      if Remove(rt, d, cmp).success {
        var p := DeletePos(t, d, cmp);
        assert p == |el| + 1 + q && q < |er|;
        RemoveSpliceRight(el, x, er, q, p);
        assert e[p] == er[q];
        assert Elements(Remove(rt, d, cmp).tree) == er[..q] + er[q + 1..];
        assert Elements(Remove(t, d, cmp).tree) == el + [x] + (er[..q] + er[q + 1..]);
      } else {
        assert Remove(rt, d, cmp) == Step(rt, false, false);
        assert Remove(t, d, cmp).tree == t;
      }
    } else {
      RemoveRightNil(t, d, cmp);
    }
  }

  /// Delete going right from a node without a right subtree finds nothing.
  lemma RemoveRightNil<T>(t: Tree<T>, d: T, cmp: (T, T) -> int)
    requires t.Node? && Balanced(t) && cmp(d, t.data) > 0 && t.right.Nil?
    ensures Remove(t, d, cmp) == Step(t, false, false)
  {
  }

  /// One level of Delete going left.
  lemma RemoveLeftStep<T>(t: Tree<T>, d: T, cmp: (T, T) -> int)
    requires t.Node? && Balanced(t) && cmp(d, t.data) < 0 && t.left.Node?
    ensures Remove(t, d, cmp).success == Remove(t.left, d, cmp).success
    ensures Elements(Remove(t, d, cmp).tree)
      == Elements(Remove(t.left, d, cmp).tree) + [t.data] + Elements(t.right)
    ensures DeletePos(t, d, cmp) == DeletePos(t.left, d, cmp)
    ensures Remove(t.left, d, cmp) == Step(t.left, false, false) ==> Remove(t, d, cmp) == Step(t, false, false)
  {
  }

  /// One level of Delete going right.
  lemma RemoveRightStep<T>(t: Tree<T>, d: T, cmp: (T, T) -> int)
    requires t.Node? && Balanced(t) && cmp(d, t.data) > 0 && t.right.Node?
    ensures Remove(t, d, cmp).success == Remove(t.right, d, cmp).success
    ensures Elements(Remove(t, d, cmp).tree)
      == Elements(t.left) + [t.data] + Elements(Remove(t.right, d, cmp).tree)
    ensures DeletePos(t, d, cmp) == |Elements(t.left)| + 1 + DeletePos(t.right, d, cmp)
    ensures Remove(t.right, d, cmp) == Step(t.right, false, false) ==> Remove(t, d, cmp) == Step(t, false, false)
  {
  }

  lemma {:induction false} RemoveAtNode<T>(t: Tree<T>, d: T, cmp: (T, T) -> int, S: set<T>)
    requires t.Node? && Balanced(t) && Ordered(t, cmp)
    requires ValidComparer(cmp, S) && Within(Elements(t), S) && d in S
    requires cmp(d, t.data) == 0
    ensures Remove(t, d, cmp).success <==> Member(t, d, cmp)
    ensures Remove(t, d, cmp).success ==>
      DeletePos(t, d, cmp) < |Elements(t)| &&
      cmp(d, Elements(t)[DeletePos(t, d, cmp)]) == 0 &&
      Elements(Remove(t, d, cmp).tree)
        == Elements(t)[..DeletePos(t, d, cmp)] + Elements(t)[DeletePos(t, d, cmp) + 1..]
    ensures !Remove(t, d, cmp).success ==> Remove(t, d, cmp).tree == t
    decreases Height(t), 1
  {
    var Node(l, x, b, rt) := t;
    var el, er := Elements(l), Elements(rt);
    var e := el + [x] + er;
    assert Elements(t) == e;
    assert e[|el|] == x;
    if l.Node? && rt.Node? {
      RemoveTwoChildren(t, d, cmp, S);
    } else if l.Nil? {
      assert e[|el| + 1..] == er;
    } else {
      assert e[..|el|] == el;
    }
  }

  lemma {:induction false} RemoveTwoChildren<T>(t: Tree<T>, d: T, cmp: (T, T) -> int, S: set<T>)
    requires t.Node? && Balanced(t) && Ordered(t, cmp)
    requires ValidComparer(cmp, S) && Within(Elements(t), S) && d in S
    requires cmp(d, t.data) == 0 && t.left.Node? && t.right.Node?
    ensures Remove(t, d, cmp).success
    ensures Elements(Remove(t, d, cmp).tree)
      == Elements(t)[..|Elements(t.left)|] + Elements(t)[|Elements(t.left)| + 1..]
    decreases Height(t), 0
  {
    var Node(l, x, b, rt) := t;
    var el, er := Elements(l), Elements(rt);
    var e := el + [x] + er;
    assert Elements(t) == e;
    ReplacedMinOrdered(t, cmp, S);
    WithinParts(t, S);
    RemoveReplacedMin(rt, x, cmp, S);
    RemoveTwoChildrenStep(t, d, cmp);
    DropMiddle(el, x, er);
  }

  lemma DropMiddle<T>(el: seq<T>, x: T, er: seq<T>)
    requires |er| > 0
    ensures (el + [x] + er)[..|el|] + (el + [x] + er)[|el| + 1..] == el + [er[0]] + er[1..]
  {
    assert (el + [x] + er)[..|el|] == el;
    assert (el + [x] + er)[|el| + 1..] == er;
  }

  lemma RemoveTwoChildrenStep<T>(t: Tree<T>, d: T, cmp: (T, T) -> int)
    requires t.Node? && Balanced(t) && cmp(d, t.data) == 0 && t.left.Node? && t.right.Node?
    ensures Remove(t, d, cmp).success == Remove(ReplaceMin(t.right, t.data), t.data, cmp).success
    ensures Elements(Remove(t, d, cmp).tree)
      == Elements(t.left) + [Elements(t.right)[0]] + Elements(Remove(ReplaceMin(t.right, t.data), t.data, cmp).tree)
  {
  }

  /// Deleting x from the right subtree whose minimum was overwritten with x
  /// removes that first element.
  lemma {:induction false} RemoveReplacedMin<T>(rt: Tree<T>, x: T, cmp: (T, T) -> int, S: set<T>)
    requires rt.Node? && Balanced(rt) && Ordered(ReplaceMin(rt, x), cmp)
    requires ValidComparer(cmp, S) && Within(Elements(ReplaceMin(rt, x)), S) && x in S
    requires Member(ReplaceMin(rt, x), x, cmp)
    ensures Remove(ReplaceMin(rt, x), x, cmp).success
    ensures Elements(Remove(ReplaceMin(rt, x), x, cmp).tree) == Elements(rt)[1..]
    decreases Height(rt), 3
  {
    var r1 := ReplaceMin(rt, x);
    var e1 := Elements(r1);
    assert e1 == [x] + Elements(rt)[1..];
    RemoveFromOrdered(r1, x, cmp, S);
    var p := DeletePos(r1, x, cmp);
    forall i | 0 < i < |e1| ensures cmp(x, e1[i]) != 0 {
      assert cmp(e1[0], e1[i]) < 0;
    }
    assert p == 0;
    assert e1[..0] + e1[1..] == Elements(rt)[1..];
  }

  lemma RemoveKeepsOrder<T>(t: Tree<T>, d: T, cmp: (T, T) -> int, S: set<T>)
    requires t.Node? && Balanced(t) && Ordered(t, cmp)
    requires ValidComparer(cmp, S) && Within(Elements(t), S) && d in S
    ensures Ordered(Remove(t, d, cmp).tree, cmp)
  {
    RemoveFromOrdered(t, d, cmp, S);
    if Remove(t, d, cmp).success {
      SortedRemove(Elements(t), DeletePos(t, d, cmp), cmp);
    }
  }

  /// The set of stored values, the natural domain of the comparer's obligations.
  ghost function Values<T>(t: Tree<T>): set<T> {
    set i | 0 <= i < |Elements(t)| :: Elements(t)[i]
  }

  lemma ValuesCover<T>(t: Tree<T>, d: T)
    ensures Within(Elements(t), Values(t) + {d}) && d in Values(t) + {d}
  {
  }

  ghost function SeqValues<T>(s: seq<T>): set<T> {
    set i | 0 <= i < |s| :: s[i]
  }

  lemma ComparerSubset<T>(cmp: (T, T) -> int, S: set<T>, S': set<T>)
    requires ValidComparer(cmp, S) && S' <= S
    ensures ValidComparer(cmp, S')
  {
  }

  lemma ValuesWithin<T>(t: Tree<T>, S: set<T>)
    requires Within(Elements(t), S)
    ensures Values(t) <= S
  {
  }

  /// An element stays a member when another one is inserted beside it.
  lemma MemberKept<T>(e: seq<T>, p: nat, a: T, e': seq<T>, x: T, cmp: (T, T) -> int)
    requires p <= |e| && e' == e[..p] + [a] + e[p..]
    requires exists i :: 0 <= i < |e| && cmp(x, e[i]) == 0
    ensures exists i :: 0 <= i < |e'| && cmp(x, e'[i]) == 0
  {
    var i :| 0 <= i < |e| && cmp(x, e[i]) == 0;
    if i < p {
      assert e'[i] == e[i];
    } else {
      assert e'[i + 1] == e[i];
    }
  }

  ghost predicate AllMembers<T>(t: Tree<T>, xs: seq<T>, cmp: (T, T) -> int) {
    forall k :: 0 <= k < |xs| ==> Member(t, xs[k], cmp)
  }

  lemma InsertedWithin<T>(e: seq<T>, p: nat, a: T, e': seq<T>, S: set<T>)
    requires p <= |e| && e' == e[..p] + [a] + e[p..]
    requires Within(e, S) && a in S
    ensures Within(e', S)
  {
    forall k | 0 <= k < |e'|
      ensures e'[k] in S
    {
      if k < p {
        assert e'[k] == e[k];
      } else if k > p {
        assert e'[k] == e[k - 1];
      }
    }
  }

  /// A valid comparer calls every element equal to itself.
  lemma Reflexive<T>(cmp: (T, T) -> int, S: set<T>, a: T)
    requires ValidComparer(cmp, S) && a in S
    ensures cmp(a, a) == 0
  {
  }

  /// One step of building a tree from a sequence: earlier members stay, the new one joins.
  /// What one round of FromElements keeps: the elements stay within the
  /// list's values and, under a valid comparer, the tree stays a search
  /// tree holding a match for each element added so far.
  lemma AddedNext<T>(before: Tree<T>, after: Tree<T>, added: bool, elems: seq<T>, n: nat, cmp: (T, T) -> int)
    requires n < |elems| && Within(Elements(before), SeqValues(elems))
    requires !added ==> after == before
    requires added ==> Elements(after) == Elements(before)[..InsertPos(before, elems[n], cmp)] + [elems[n]]
                                          + Elements(before)[InsertPos(before, elems[n], cmp)..]
    requires ValidComparer(cmp, SeqValues(elems)) ==>
      Ordered(before, cmp) && AllMembers(before, elems[..n], cmp) &&
      Ordered(after, cmp) && (added <==> !Member(before, elems[n], cmp))
    ensures Within(Elements(after), SeqValues(elems))
    ensures ValidComparer(cmp, SeqValues(elems)) ==>
      Ordered(after, cmp) && AllMembers(after, elems[..n + 1], cmp)
  {
    var S := SeqValues(elems);
    var p := InsertPos(before, elems[n], cmp);
    assert elems[n] in S;
    if added {
      InsertedWithin(Elements(before), p, elems[n], Elements(after), S);
    }
    if ValidComparer(cmp, S) {
      AddedMembers(before, p, elems[n], after, elems[..n], cmp, S, added);
      assert elems[..n + 1] == elems[..n] + [elems[n]];
    }
  }

  lemma AddedMembers<T>(t: Tree<T>, p: nat, a: T, t': Tree<T>, xs: seq<T>, cmp: (T, T) -> int,
                        S: set<T>, added: bool)
    requires ValidComparer(cmp, S) && a in S
    requires AllMembers(t, xs, cmp)
    requires added ==> p <= |Elements(t)| && Elements(t') == Elements(t)[..p] + [a] + Elements(t)[p..]
    requires !added ==> t' == t && Member(t, a, cmp)
    ensures AllMembers(t', xs + [a], cmp)
  {
    var e, e' := Elements(t), Elements(t');
    forall k | 0 <= k < |xs + [a]|
      ensures exists i :: 0 <= i < |e'| && cmp((xs + [a])[k], e'[i]) == 0
    {
      if k < |xs| {
        assert (xs + [a])[k] == xs[k];
        if added {
          MemberKept(e, p, a, e', xs[k], cmp);
        }
      } else if added {
        Reflexive(cmp, S, a);
        assert e'[p] == a;
      }
    }
  }

  /// FindMin: follows Left pointers to the leftmost node.
  method FindMin<T>(t: Tree<T>) returns (m: Tree<T>)
    ensures m.Nil? <==> t.Nil?
    ensures m.Node? ==> m.left.Nil? && m.data == Elements(t)[0]
  {
    m := t;
    while m.Node? && m.left.Node?
      invariant m.Nil? <==> t.Nil?
      invariant m.Node? ==> Elements(m)[0] == Elements(t)[0]
      decreases m
    {
      m := m.left;
    }
  }

  /// FindMax: follows Right pointers to the rightmost node.
  method FindMax<T>(t: Tree<T>) returns (m: Tree<T>)
    ensures m.Nil? <==> t.Nil?
    ensures m.Node? ==> m.right.Nil? && m.data == Elements(t)[|Elements(t)| - 1]
  {
    m := t;
    while m.Node? && m.right.Node?
      invariant m.Nil? <==> t.Nil?
      invariant m.Node? ==> Elements(m)[|Elements(m)| - 1] == Elements(t)[|Elements(t)| - 1]
      decreases m
    {
      m := m.right;
    }
  }

  /// The tree object. The comparer is passed to each operation that compares,
  /// because the comparer the core uses (Edge.CompareTo) reads state that the
  /// caller changes between operations.
  class AVLTree<T> {
    var root: Tree<T>

    ghost predicate Valid()
      reads this
    {
      Balanced(root)
    }

    constructor ()
      ensures Valid() && root == Nil
    {
      root := Nil;
    }

    /// The constructor that adds each element of a sequence in turn.
    constructor FromElements(elems: seq<T>, cmp: (T, T) -> int)
      ensures Valid()
      ensures Within(Elements(root), SeqValues(elems))
      ensures ValidComparer(cmp, SeqValues(elems)) ==>
        Ordered(root, cmp) && AllMembers(root, elems, cmp)
    {
      root := Nil;
      new;
      ghost var S := SeqValues(elems);
      var n := 0;
      while n < |elems|
        invariant 0 <= n <= |elems|
        invariant Valid() && Within(Elements(root), S)
        invariant ValidComparer(cmp, S) ==>
          Ordered(root, cmp) && AllMembers(root, elems[..n], cmp)
      {
        AddNext(elems, n, cmp);
        n := n + 1;
      }
      assert elems[..n] == elems;
    }

    /// One round of FromElements: the n-th element is added.
    method AddNext(elems: seq<T>, n: nat, cmp: (T, T) -> int)
      requires n < |elems| && Valid() && Within(Elements(root), SeqValues(elems))
      requires ValidComparer(cmp, SeqValues(elems)) ==>
        Ordered(root, cmp) && AllMembers(root, elems[..n], cmp)
      modifies this
      ensures Valid() && Within(Elements(root), SeqValues(elems))
      ensures ValidComparer(cmp, SeqValues(elems)) ==>
        Ordered(root, cmp) && AllMembers(root, elems[..n + 1], cmp)
    {
      ghost var S := SeqValues(elems);
      ghost var before := root;
      if ValidComparer(cmp, S) {
        ValuesWithin(root, S);
        assert elems[n] in S;
        ComparerSubset(cmp, S, Values(root) + {elems[n]});
      }
      var added := Add(elems[n], cmp);
      AddedNext(before, root, added, elems, n, cmp);
    }

    /// Add: true and one more element, or false and no change.
    method Add(arg: T, cmp: (T, T) -> int) returns (added: bool)
      requires Valid()
      modifies this
      ensures Valid()
      ensures root == Insert(old(root), arg, cmp).tree && added == Insert(old(root), arg, cmp).success
      ensures !added ==> root == old(root)
      ensures added ==> Elements(root) == old(Elements(root)[..InsertPos(root, arg, cmp)] + [arg]
                                               + Elements(root)[InsertPos(root, arg, cmp)..])
      ensures Ordered(old(root), cmp) && ValidComparer(cmp, Values(old(root)) + {arg}) ==>
        Ordered(root, cmp) && (added <==> !Member(old(root), arg, cmp))
    {
      ghost var t := root;
      var s := Insert(root, arg, cmp);
      InsertElements(root, arg, cmp);
      if Ordered(t, cmp) && ValidComparer(cmp, Values(t) + {arg}) {
        ValuesCover(t, arg);
        InsertKeepsOrder(t, arg, cmp, Values(t) + {arg});
      }
      root := s.tree;
      added := s.success;
    }

    /// Delete: true and one element fewer, or false and no change.
    method Delete(arg: T, cmp: (T, T) -> int) returns (deleted: bool)
      requires Valid()
      modifies this
      ensures Valid()
      ensures old(root).Nil? ==> !deleted && root == old(root)
      ensures old(root).Node? ==>
        root == Remove(old(root), arg, cmp).tree && deleted == Remove(old(root), arg, cmp).success
      ensures |Elements(root)| + (if deleted then 1 else 0) == old(|Elements(root)|)
      ensures Ordered(old(root), cmp) && ValidComparer(cmp, Values(old(root)) + {arg}) ==>
        Ordered(root, cmp) && (deleted <==> Member(old(root), arg, cmp)) &&
        (!deleted ==> root == old(root)) &&
        (deleted ==> old(DeletePos(root, arg, cmp) < |Elements(root)|)) &&
        (deleted ==> Elements(root) == old(Elements(root)[..DeletePos(root, arg, cmp)]
                                           + Elements(root)[DeletePos(root, arg, cmp) + 1..]))
    {
      deleted := false;
      if root.Node? {
        ghost var t := root;
        var s := Remove(root, arg, cmp);
        if Ordered(t, cmp) && ValidComparer(cmp, Values(t) + {arg}) {
          ValuesCover(t, arg);
          RemoveFromOrdered(t, arg, cmp, Values(t) + {arg});
          RemoveKeepsOrder(t, arg, cmp, Values(t) + {arg});
        }
        root := s.tree;
        deleted := s.success;
      }
    }

    /// GetMin: None stands for `false` with the default value.
    method GetMin() returns (value: Option<T>)
      ensures root.Nil? ==> value.None?
      ensures root.Node? ==> value == Some(Elements(root)[0])
    {
      value := None;
      if root.Node? {
        var min := FindMin(root);
        if min.Node? {
          value := Some(min.data);
        }
      }
    }

    method GetMax() returns (value: Option<T>)
      ensures root.Nil? ==> value.None?
      ensures root.Node? ==> value == Some(Elements(root)[|Elements(root)| - 1])
    {
      value := None;
      if root.Node? {
        var max := FindMax(root);
        if max.Node? {
          value := Some(max.data);
        }
      }
    }

    /// Contains: the search finds an element the comparer calls equal.
    method Contains(arg: T, cmp: (T, T) -> int) returns (found: bool)
      ensures found ==> Member(root, arg, cmp)
      ensures Ordered(root, cmp) && ValidComparer(cmp, Values(root) + {arg}) ==>
        (found <==> Member(root, arg, cmp))
    {
      var node := Search(root, arg, cmp);
      found := node.Node?;
      if Ordered(root, cmp) && ValidComparer(cmp, Values(root) + {arg}) {
        ValuesCover(root, arg);
        SearchFindsMember(root, arg, cmp, Values(root) + {arg});
      }
    }

    method DeleteMin() returns (deleted: bool)
      requires Valid()
      modifies this
      ensures Valid()
      ensures deleted == old(root).Node?
      ensures Elements(root) == if deleted then old(Elements(root))[1..] else old(Elements(root))
    {
      deleted := false;
      if root.Node? {
        var s := RemoveMin(root);
        root := s.tree;
        deleted := s.success;
      }
    }

    method DeleteMax() returns (deleted: bool)
      requires Valid()
      modifies this
      ensures Valid()
      ensures deleted == old(root).Node?
      ensures Elements(root) == if deleted then old(Elements(root)[..|Elements(root)| - 1]) else old(Elements(root))
    {
      deleted := false;
      if root.Node? {
        var s := RemoveMax(root);
        root := s.tree;
        deleted := s.success;
      }
    }

    method GetHeightLogN() returns (h: int)
      requires Valid()
      ensures h == Height(root)
    {
      h := HeightLogN(root);
    }

    method Clear()
      modifies this
      ensures Valid() && root == Nil && Elements(root) == []
    {
      root := Nil;
    }
  }
}
