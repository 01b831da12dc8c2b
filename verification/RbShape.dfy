/**
 The shape of a red-black tree, free of pointers: the ghost value that describes which
 nodes hang where, the path from the root to one place in the tree, and the colour rules
 both have to keep while the rebalancing loops are part-way through their work.
 */
module RbShape {

  datatype Tree<T> = Leaf | Fork(left: Tree<T>, node: T, red: bool, right: Tree<T>)

  /** The way from the root down to a hole. The innermost step comes first: `wentLeft` says
      on which side of `node` the hole is, `sibling` is the subtree on the other side. */
  datatype Path<T> = Top | Step(up: Path<T>, wentLeft: bool, node: T, red: bool, sibling: Tree<T>)

  ghost function Nodes<T>(t: Tree<T>): set<T> {
    match t
    case Leaf => {}
    case Fork(l, n, _, r) => Nodes(l) + {n} + Nodes(r)
  }

  ghost function PathNodes<T>(p: Path<T>): set<T> {
    match p
    case Top => {}
    case Step(up, _, n, _, s) => PathNodes(up) + {n} + Nodes(s)
  }

  /** No node occurs twice in the tree. */
  ghost predicate Distinct<T>(t: Tree<T>) {
    match t
    case Leaf => true
    case Fork(l, n, _, r) =>
      n !in Nodes(l) && n !in Nodes(r) && Nodes(l) !! Nodes(r) && Distinct(l) && Distinct(r)
  }

  /** No node occurs twice on the path. */
  ghost predicate DistinctPath<T>(p: Path<T>) {
    match p
    case Top => true
    case Step(up, _, n, _, s) =>
      n !in Nodes(s) && Distinct(s) && n !in PathNodes(up) && PathNodes(up) !! Nodes(s) && DistinctPath(up)
  }

  ghost function Inorder<T>(t: Tree<T>): seq<T> {
    match t
    case Leaf => []
    case Fork(l, n, _, r) => Inorder(l) + [n] + Inorder(r)
  }

  ghost function Before<T>(p: Path<T>): seq<T> {
    match p
    case Top => []
    case Step(up, wentLeft, n, _, s) => if wentLeft then Before(up) else Before(up) + Inorder(s) + [n]
  }

  ghost function After<T>(p: Path<T>): seq<T> {
    match p
    case Top => []
    case Step(up, wentLeft, n, _, s) => if wentLeft then [n] + Inorder(s) + After(up) else After(up)
  }

  ghost function Join<T>(onLeft: bool, t: Tree<T>, n: T, red: bool, s: Tree<T>): Tree<T> {
    if onLeft then Fork(t, n, red, s) else Fork(s, n, red, t)
  }

  /** The whole tree: `t` put into the hole at the end of `p`. */
  ghost function Plug<T>(p: Path<T>, t: Tree<T>): Tree<T> {
    match p
    case Top => t
    case Step(up, wentLeft, n, c, s) => Plug(up, Join(wentLeft, t, n, c, s))
  }

  /** `inner` continued upwards by `outer`. */
  ghost function Append<T>(inner: Path<T>, outer: Path<T>): Path<T> {
    match inner
    case Top => outer
    case Step(up, wentLeft, n, c, s) => Step(Append(up, outer), wentLeft, n, c, s)
  }

  ghost function Depth<T>(p: Path<T>): nat {
    match p
    case Top => 0
    case Step(up, _, _, _, _) => Depth(up) + 1
  }

  ghost predicate IsBlack<T>(t: Tree<T>) { t.Leaf? || !t.red }

  ghost function Blacken<T>(t: Tree<T>): Tree<T> {
    if t.Leaf? then Leaf else t.(red := false)
  }

  /** Red nodes have black children and every path down meets `h` black nodes. */
  ghost predicate Rb<T>(t: Tree<T>, h: nat) {
    match t
    case Leaf => h == 0
    case Fork(l, _, red, r) =>
      if red then IsBlack(l) && IsBlack(r) && Rb(l, h) && Rb(r, h)
      else h > 0 && Rb(l, h - 1) && Rb(r, h - 1)
  }

  ghost predicate RedBlack<T>(t: Tree<T>) {
    IsBlack(t) && exists h: nat :: Rb(t, h)
  }

  /** A black subtree of black height `h` in the hole at the end of `p` gives a red-black tree. */
  ghost predicate Ctx<T>(p: Path<T>, h: nat) {
    match p
    case Top => true
    case Step(up, _, _, red, s) =>
      && Rb(s, h)
      && (if red then IsBlack(s) && up.Step? && !up.red && Ctx(up, h) else Ctx(up, h + 1))
  }

  /** One black node is missing in `t`: it has black height `h` where `h + 1` is due.
      Painting a red root of `t` black repairs it. */
  ghost predicate Lacking<T>(t: Tree<T>, h: nat) {
    if IsBlack(t) then Rb(t, h) else Rb(Blacken(t), h + 1)
  }

  // ---- plugging ----

  lemma {:induction false} PlugNodes<T>(p: Path<T>, t: Tree<T>)
    ensures Nodes(Plug(p, t)) == PathNodes(p) + Nodes(t)
  {
    match p
    case Top =>
    case Step(up, wentLeft, n, c, s) => PlugNodes(up, Join(wentLeft, t, n, c, s));
  }

  lemma {:induction false} PlugFork<T>(p: Path<T>, t: Tree<T>)
    requires t.Fork?
    ensures Plug(p, t).Fork?
  {
    match p
    case Top =>
    case Step(up, wentLeft, n, c, s) => PlugFork(up, Join(wentLeft, t, n, c, s));
  }

  lemma {:induction false} PlugInorder<T>(p: Path<T>, t: Tree<T>)
    ensures Inorder(Plug(p, t)) == Before(p) + Inorder(t) + After(p)
  {
    match p
    case Top =>
    case Step(up, wentLeft, n, c, s) =>
      var j := Join(wentLeft, t, n, c, s);
      PlugInorder(up, j);
      if wentLeft {
        Regroup(Before(up), Inorder(t), [n], Inorder(s), After(up));
      } else {
        Regroup(Before(up), Inorder(s), [n], Inorder(t), After(up));
      }
  }

  lemma Regroup<T>(a: seq<T>, b: seq<T>, c: seq<T>, d: seq<T>, e: seq<T>)
    ensures a + (b + c + d) + e == a + b + (c + d + e) == a + b + c + d + e
  {}

  /** The order around the root of the subtree at the hole. */
  lemma InorderAt<T>(p: Path<T>, t: Tree<T>)
    requires t.Fork?
    ensures Inorder(Plug(p, t)) == (Before(p) + Inorder(t.left)) + [t.node] + (Inorder(t.right) + After(p))
  {
    PlugInorder(p, t);
    Regroup2(Before(p), Inorder(t.left), [t.node], Inorder(t.right), After(p));
  }

  lemma Regroup2<T>(a: seq<T>, b: seq<T>, c: seq<T>, d: seq<T>, e: seq<T>)
    ensures a + (b + c + d) + e == (a + b) + c + (d + e)
  {}

  /** Same nodes in the same order, whatever the shape. */
  ghost predicate SameNodes<T>(t: Tree<T>, t': Tree<T>) {
    Inorder(t) == Inorder(t') && Nodes(t) == Nodes(t')
  }

  lemma PlugSame<T>(p: Path<T>, t: Tree<T>, t': Tree<T>)
    requires SameNodes(t, t')
    ensures SameNodes(Plug(p, t), Plug(p, t'))
  {}

  lemma {:induction false} PlugDistinct<T>(p: Path<T>, t: Tree<T>)
    ensures Distinct(Plug(p, t)) <==> Distinct(t) && DistinctPath(p) && PathNodes(p) !! Nodes(t)
  {
    match p
    case Top =>
    case Step(up, wentLeft, n, c, s) =>
      var j := Join(wentLeft, t, n, c, s);
      PlugDistinct(up, j);
      assert Nodes(j) == Nodes(t) + {n} + Nodes(s);
  }

  lemma {:induction false} PlugAppend<T>(inner: Path<T>, outer: Path<T>, t: Tree<T>)
    ensures Plug(Append(inner, outer), t) == Plug(outer, Plug(inner, t))
  {
    match inner
    case Top =>
    case Step(up, wentLeft, n, c, s) => PlugAppend(up, outer, Join(wentLeft, t, n, c, s));
  }

  lemma {:induction false} PlugRb<T>(p: Path<T>, t: Tree<T>, h: nat)
    requires Ctx(p, h) && Rb(t, h)
    requires IsBlack(t) || (p.Step? && !p.red)
    ensures RedBlack(Plug(p, t))
  {
    match p
    case Top =>
    case Step(up, wentLeft, n, c, s) =>
      PlugRb(up, Join(wentLeft, t, n, c, s), if c then h else h + 1);
  }

  /** The converse: every place in a red-black tree is a hole of the right black height. */
  lemma {:induction false} UnplugRb<T>(p: Path<T>, t: Tree<T>) returns (h: nat)
    requires RedBlack(Plug(p, t))
    ensures Ctx(p, h) && Rb(t, h)
    ensures IsBlack(t) || (p.Step? && !p.red)
  {
    match p
    case Top => h :| Rb(t, h);
    case Step(up, wentLeft, n, c, s) =>
      var h' := UnplugRb(up, Join(wentLeft, t, n, c, s));
      h := if c then h' else h' - 1;
  }

  lemma {:induction false} RbUnique<T>(t: Tree<T>, h: nat, k: nat)
    requires Rb(t, h) && Rb(t, k)
    ensures h == k
  {
    match t
    case Leaf =>
    case Fork(l, _, red, _) => if red { RbUnique(l, h, k); } else { RbUnique(l, h - 1, k - 1); }
  }

  /** The place of a node in the tree. */
  lemma {:induction false} Locate<T>(p0: Path<T>, t0: Tree<T>, n: T) returns (p: Path<T>, t: Tree<T>)
    requires n in Nodes(t0)
    ensures Plug(p, t) == Plug(p0, t0) && t.Fork? && t.node == n
    decreases t0
  {
    if t0.node == n {
      p, t := p0, t0;
    } else if n in Nodes(t0.left) {
      p, t := Locate(Step(p0, true, t0.node, t0.red, t0.right), t0.left, n);
    } else {
      p, t := Locate(Step(p0, false, t0.node, t0.red, t0.left), t0.right, n);
    }
  }

  lemma {:induction false} InorderNode<T>(t: Tree<T>, x: T)
    ensures x in Inorder(t) <==> x in Nodes(t)
  {
    match t
    case Leaf =>
    case Fork(l, _, _, r) => InorderNode(l, x); InorderNode(r, x);
  }

  lemma InorderNodes<T>(t: Tree<T>)
    ensures forall x :: x in Inorder(t) <==> x in Nodes(t)
  {}

  ghost predicate NoDuplicates<T>(s: seq<T>) {
    forall i, j :: 0 <= i < j < |s| ==> s[i] != s[j]
  }

  lemma {:induction false} InorderDistinct<T>(t: Tree<T>)
    requires Distinct(t)
    ensures NoDuplicates(Inorder(t))
  {
    match t
    case Leaf =>
    case Fork(l, n, _, r) =>
      InorderDistinct(l);
      InorderDistinct(r);
      InorderNode(l, n);
      InorderNode(r, n);
      forall x | x in Inorder(l) ensures x !in Inorder(r)
      {
        InorderNode(l, x);
        InorderNode(r, x);
      }
      NoDuplicatesJoin(Inorder(l), n, Inorder(r));
  }

  lemma NoDuplicatesJoin<T>(a: seq<T>, n: T, b: seq<T>)
    requires NoDuplicates(a) && NoDuplicates(b) && n !in a && n !in b
    requires forall x :: x in a ==> x !in b
    ensures NoDuplicates(a + [n] + b)
  {
    var s := a + [n] + b;
    forall i, j | 0 <= i < j < |s| ensures s[i] != s[j] {
      assert i < |a| ==> s[i] == a[i] && a[i] in a;
      assert j < |a| ==> s[j] == a[j] && a[j] in a;
      assert i > |a| ==> s[i] == b[i - |a| - 1];
      assert j > |a| ==> s[j] == b[j - |a| - 1] && b[j - |a| - 1] in b;
    }
  }

  // ---- painting ----

  /** `t` with the colours that `f` gives. */
  ghost function Paint<T>(t: Tree<T>, f: map<T, bool>): Tree<T> {
    match t
    case Leaf => Leaf
    case Fork(l, n, c, r) => Fork(Paint(l, f), n, if n in f then f[n] else c, Paint(r, f))
  }

  ghost function PaintPath<T>(p: Path<T>, f: map<T, bool>): Path<T> {
    match p
    case Top => Top
    case Step(up, wentLeft, n, c, s) =>
      Step(PaintPath(up, f), wentLeft, n, if n in f then f[n] else c, Paint(s, f))
  }

  lemma {:induction false} PaintNodes<T>(t: Tree<T>, f: map<T, bool>)
    ensures Nodes(Paint(t, f)) == Nodes(t) && Inorder(Paint(t, f)) == Inorder(t)
    ensures Distinct(t) ==> Distinct(Paint(t, f))
    ensures f.Keys !! Nodes(t) ==> Paint(t, f) == t
  {
    match t
    case Leaf =>
    case Fork(l, _, _, r) => PaintNodes(l, f); PaintNodes(r, f);
  }

  lemma {:induction false} PaintPathNodes<T>(p: Path<T>, f: map<T, bool>)
    ensures PathNodes(PaintPath(p, f)) == PathNodes(p)
    ensures DistinctPath(p) ==> DistinctPath(PaintPath(p, f))
    ensures f.Keys !! PathNodes(p) ==> PaintPath(p, f) == p
  {
    match p
    case Top =>
    case Step(up, _, _, _, s) => PaintPathNodes(up, f); PaintNodes(s, f);
  }

  lemma {:induction false} PaintPlug<T>(p: Path<T>, t: Tree<T>, f: map<T, bool>)
    ensures Plug(PaintPath(p, f), Paint(t, f)) == Paint(Plug(p, t), f)
    ensures SameNodes(Plug(p, t), Paint(Plug(p, t), f))
  {
    PaintNodes(Plug(p, t), f);
    match p
    case Top =>
    case Step(up, wentLeft, n, c, s) => PaintPlug(up, Join(wentLeft, t, n, c, s), f);
  }

  // ---- rotating ----

  /** Two linked nodes and their three subtrees; `onLeft` says that `outer` hangs on the left
      of `n`, so that the rotation that lifts `r` over `n` is a left rotation. */
  datatype Spin<T> = Spin(onLeft: bool, outer: Tree<T>, n: T, nRed: bool, inner: Tree<T>, r: T, rRed: bool, far: Tree<T>)
  {
    ghost function Low(): Tree<T> { Join(onLeft, inner, r, rRed, far) }
    ghost function Whole(): Tree<T> { Join(onLeft, outer, n, nRed, Low()) }
    ghost function TurnedLow(): Tree<T> { Join(onLeft, outer, n, nRed, inner) }
    ghost function Turned(): Tree<T> { Join(onLeft, TurnedLow(), r, rRed, far) }

    lemma TurnedNodes()
      ensures Nodes(Turned()) == Nodes(Whole()) == Nodes(outer) + Nodes(inner) + Nodes(far) + {n, r}
    {}

    lemma TurnedInorder()
      ensures Inorder(Turned()) == Inorder(Whole())
    {}

    lemma TurnedSame(p: Path<T>)
      ensures SameNodes(Plug(p, Whole()), Plug(p, Turned()))
    {
      TurnedNodes();
      TurnedInorder();
      PlugSame(p, Whole(), Turned());
    }

    lemma WholeDistinct()
      requires Distinct(Whole())
      ensures Distinct(outer) && Distinct(inner) && Distinct(far) && Distinct(TurnedLow()) && Distinct(Turned())
      ensures n != r && n !in Nodes(outer) && n !in Nodes(inner) && n !in Nodes(far)
      ensures r !in Nodes(outer) && r !in Nodes(inner) && r !in Nodes(far)
      ensures Nodes(outer) !! Nodes(inner) && Nodes(outer) !! Nodes(far) && Nodes(inner) !! Nodes(far)
    {}
  }

  // ---- height ----

  ghost function Size<T>(t: Tree<T>): nat {
    match t
    case Leaf => 0
    case Fork(l, _, _, r) => Size(l) + 1 + Size(r)
  }

  ghost function Height<T>(t: Tree<T>): nat {
    match t
    case Leaf => 0
    case Fork(l, _, _, r) => 1 + if Height(l) < Height(r) then Height(r) else Height(l)
  }

  ghost function Pow2(n: nat): nat {
    if n == 0 then 1 else 2 * Pow2(n - 1)
  }

  lemma {:induction false} Pow2Monotone(m: nat, n: nat)
    requires m <= n
    ensures 1 <= Pow2(m) <= Pow2(n)
  {
    if n == 0 {
    } else if m == n {
      Pow2Monotone(n - 1, n - 1);
    } else {
      Pow2Monotone(m, n - 1);
    }
  }

  lemma {:induction false} Pow2Add(m: nat, n: nat)
    ensures Pow2(m + n) == Pow2(m) * Pow2(n)
  {
    if m == 0 {
    } else {
      Pow2Add(m - 1, n);
    }
  }

  lemma {:induction false} BlackHeightBounds<T>(t: Tree<T>, h: nat)
    requires Rb(t, h)
    ensures Pow2(h) <= Size(t) + 1
    ensures Height(t) <= 2 * h + if IsBlack(t) then 0 else 1
  {
    match t
    case Leaf =>
    case Fork(l, _, red, r) =>
      var k := if red then h else h - 1;
      BlackHeightBounds(l, k);
      BlackHeightBounds(r, k);
      if red { Pow2Monotone(h, h); }
  }

  lemma SquareMonotone(m: nat, n: nat)
    requires m <= n
    ensures m * m <= n * n
  {}

  /** The height is at most twice the binary logarithm of the size plus one. */
  lemma HeightBound<T>(t: Tree<T>)
    requires RedBlack(t)
    ensures Pow2(Height(t)) <= (Size(t) + 1) * (Size(t) + 1)
  {
    var h: nat :| Rb(t, h);
    BlackHeightBounds(t, h);
    Pow2Monotone(Height(t), h + h);
    Pow2Add(h, h);
    SquareMonotone(Pow2(h), Size(t) + 1);
  }

  lemma {:induction false} SizeOfNodes<T>(t: Tree<T>)
    requires Distinct(t)
    ensures |Nodes(t)| == Size(t)
  {
    match t
    case Leaf =>
    case Fork(l, n, _, r) =>
      SizeOfNodes(l);
      SizeOfNodes(r);
      assert |Nodes(l) + {n}| == |Nodes(l)| + 1;
      assert |Nodes(l) + {n} + Nodes(r)| == |Nodes(l) + {n}| + |Nodes(r)|;
  }

  /** A walk down of `steps` links, measured against the number of nodes. */
  lemma StepsBound<T>(t: Tree<T>, steps: nat)
    requires RedBlack(t) && Distinct(t) && steps <= Height(t)
    ensures Pow2(steps) <= (|Nodes(t)| + 1) * (|Nodes(t)| + 1)
  {
    hide Pow2, Height, Size, RedBlack, Distinct, Nodes;
    SizeOfNodes(t);
    Pow2Monotone(steps, Height(t));
    HeightBound(t);
  }
}
