/**
 Heap nodes of common/rbtree.h, and what it means that their pointers and colours are those
 of a tree of RbShape. The predicates read a snapshot of the fields, so that what one store
 changes and what it leaves alone are facts about values.
 */
module RbLinks {
  import opened RbShape

  class Node<K, V> {
    const key: K
    const value: V
    var left: Node?<K, V>
    var right: Node?<K, V>
    var parent: Node?<K, V>
    var red: bool

    /** The root of the only tree that the node is meant for. */
    ghost const home: object?

    constructor (key: K, value: V, ghost home: object? := null)
      ensures this.key == key && this.value == value && this.home == home
    {
      this.key, this.value, this.home := key, value, home;
      left, right, parent, red := null, null, null, true;
    }
  }

  /** The four fields of a node. */
  datatype Cell<K, V> = Cell(left: Node?<K, V>, right: Node?<K, V>, parent: Node?<K, V>, red: bool)

  type Snapshot<K, V> = map<Node<K, V>, Cell<K, V>>

  ghost function View<K, V>(s: set<Node<K, V>>): (m: Snapshot<K, V>)
    reads s
    ensures m.Keys == s
  {
    map n | n in s :: Cell(n.left, n.right, n.parent, n.red)
  }

  ghost function RootOf<K, V>(t: Tree<Node<K, V>>): Node?<K, V> {
    if t.Leaf? then null else t.node
  }

  /** The node just above the hole, or `above` when the path is empty. */
  ghost function UpNode<K, V>(p: Path<Node<K, V>>, above: Node?<K, V>): Node?<K, V> {
    if p.Top? then above else p.node
  }

  ghost function JoinCell<K, V>(onLeft: bool, a: Node?<K, V>, b: Node?<K, V>, parent: Node?<K, V>, red: bool): Cell<K, V> {
    if onLeft then Cell(a, b, parent, red) else Cell(b, a, parent, red)
  }

  /** Every node of `t` holds the pointers and the colour that `t` gives it. */
  ghost predicate Linked<K, V>(m: Snapshot<K, V>, t: Tree<Node<K, V>>, parent: Node?<K, V>) {
    match t
    case Leaf => true
    case Fork(l, n, red, r) =>
      && n in m && m[n] == Cell(RootOf(l), RootOf(r), parent, red)
      && Linked(m, l, n) && Linked(m, r, n)
  }

  /** The nodes along `p` are linked from `rootNode`, whose parent is `above`, down to the link
      at the hole, which leads to `hole`. */
  ghost predicate Chain<K, V>(m: Snapshot<K, V>, p: Path<Node<K, V>>, hole: Node?<K, V>, rootNode: Node?<K, V>, above: Node?<K, V>) {
    match p
    case Top => hole == rootNode
    case Step(up, wentLeft, n, red, s) =>
      && n in m && m[n] == JoinCell(wentLeft, hole, RootOf(s), UpNode(up, above), red)
      && Linked(m, s, n) && Chain(m, up, n, rootNode, above)
  }

  /** The snapshot and root pointer describe `Plug(p, t)`, each node occurring once. */
  ghost predicate At<K, V>(m: Snapshot<K, V>, rootNode: Node?<K, V>, p: Path<Node<K, V>>, t: Tree<Node<K, V>>) {
    && Chain(m, p, RootOf(t), rootNode, null)
    && Linked(m, t, UpNode(p, null))
    && Distinct(t) && DistinctPath(p) && PathNodes(p) !! Nodes(t)
  }

  ghost predicate SameOn<K, V>(m: Snapshot<K, V>, m': Snapshot<K, V>, s: set<Node<K, V>>) {
    forall n :: n in s && n in m ==> n in m' && m'[n] == m[n]
  }

  lemma {:induction false} LinkedFrame<K, V>(m: Snapshot<K, V>, m': Snapshot<K, V>, t: Tree<Node<K, V>>, parent: Node?<K, V>)
    requires Linked(m, t, parent) && SameOn(m, m', Nodes(t))
    ensures Linked(m', t, parent)
  {
    match t
    case Leaf =>
    case Fork(l, n, _, r) => LinkedFrame(m, m', l, n); LinkedFrame(m, m', r, n);
  }

  lemma {:induction false} ChainFrame<K, V>(m: Snapshot<K, V>, m': Snapshot<K, V>, p: Path<Node<K, V>>, hole: Node?<K, V>, rootNode: Node?<K, V>, above: Node?<K, V>)
    requires Chain(m, p, hole, rootNode, above) && SameOn(m, m', PathNodes(p))
    ensures Chain(m', p, hole, rootNode, above)
  {
    match p
    case Top =>
    case Step(up, _, n, _, s) =>
      LinkedFrame(m, m', s, n);
      ChainFrame(m, m', up, n, rootNode, above);
  }

  lemma {:induction false} PlugLinked<K, V>(m: Snapshot<K, V>, p: Path<Node<K, V>>, t: Tree<Node<K, V>>, rootNode: Node?<K, V>, above: Node?<K, V>)
    requires Chain(m, p, RootOf(t), rootNode, above) && Linked(m, t, UpNode(p, above))
    ensures Linked(m, Plug(p, t), above) && RootOf(Plug(p, t)) == rootNode
  {
    match p
    case Top =>
    case Step(up, wentLeft, n, c, s) => PlugLinked(m, up, Join(wentLeft, t, n, c, s), rootNode, above);
  }

  lemma {:induction false} UnplugLinked<K, V>(m: Snapshot<K, V>, p: Path<Node<K, V>>, t: Tree<Node<K, V>>, above: Node?<K, V>)
    requires Linked(m, Plug(p, t), above)
    ensures Chain(m, p, RootOf(t), RootOf(Plug(p, t)), above) && Linked(m, t, UpNode(p, above))
  {
    match p
    case Top =>
    case Step(up, wentLeft, n, c, s) => UnplugLinked(m, up, Join(wentLeft, t, n, c, s), above);
  }

  /** Where the attention is does not matter: only the whole tree does. */
  lemma Zip<K, V>(m: Snapshot<K, V>, rootNode: Node?<K, V>, p: Path<Node<K, V>>, t: Tree<Node<K, V>>)
    ensures At(m, rootNode, p, t) <==> At(m, rootNode, Top, Plug(p, t))
  {
    PlugDistinct(p, t);
    if At(m, rootNode, p, t) { PlugLinked(m, p, t, rootNode, null); }
    if At(m, rootNode, Top, Plug(p, t)) { UnplugLinked(m, p, t, null); }
  }

  /** From `m` to `m'` the link that led from the end of `p` to `from` was moved to `to`. */
  ghost predicate Relinked<K, V>(m: Snapshot<K, V>, m': Snapshot<K, V>, rootNode: Node?<K, V>, rootNode': Node?<K, V>, p: Path<Node<K, V>>, to: Node?<K, V>) {
    match p
    case Top => rootNode' == to
    case Step(up, wentLeft, n, c, s) =>
      && rootNode' == rootNode && n in m && n in m'
      && m'[n] == if wentLeft then m[n].(left := to) else m[n].(right := to)
  }

  lemma ChainRelink<K, V>(m: Snapshot<K, V>, m': Snapshot<K, V>, rootNode: Node?<K, V>, rootNode': Node?<K, V>, p: Path<Node<K, V>>, from: Node?<K, V>, to: Node?<K, V>)
    requires Chain(m, p, from, rootNode, null) && DistinctPath(p)
    requires Relinked(m, m', rootNode, rootNode', p, to)
    requires p.Step? ==> SameOn(m, m', PathNodes(p) - {p.node})
    ensures Chain(m', p, to, rootNode', null)
  {
    match p
    case Top =>
    case Step(up, _, n, _, s) =>
      LinkedFrame(m, m', s, n);
      ChainFrame(m, m', up, n, rootNode, null);
  }

  lemma LinkedReparent<K, V>(m: Snapshot<K, V>, m': Snapshot<K, V>, t: Tree<Node<K, V>>, parent: Node?<K, V>, parent': Node?<K, V>)
    requires Linked(m, t, parent) && Distinct(t)
    requires t.Fork? ==> t.node in m' && m'[t.node] == m[t.node].(parent := parent')
    requires t.Fork? ==> SameOn(m, m', Nodes(t) - {t.node})
    ensures Linked(m', t, parent')
  {
    match t
    case Leaf =>
    case Fork(l, n, _, r) => LinkedFrame(m, m', l, n); LinkedFrame(m, m', r, n);
  }

  /** From `m` to `m'` the colour bits in `f` were set, and nothing else was. */
  ghost predicate Painted<K, V>(m: Snapshot<K, V>, m': Snapshot<K, V>, f: map<Node<K, V>, bool>) {
    forall x :: x in m ==> x in m' && m'[x] == if x in f then m[x].(red := f[x]) else m[x]
  }

  lemma {:induction false} LinkedPaint<K, V>(m: Snapshot<K, V>, m': Snapshot<K, V>, t: Tree<Node<K, V>>, parent: Node?<K, V>, f: map<Node<K, V>, bool>)
    requires Linked(m, t, parent) && Painted(m, m', f)
    ensures Linked(m', Paint(t, f), parent)
  {
    match t
    case Leaf =>
    case Fork(l, n, _, r) => LinkedPaint(m, m', l, n, f); LinkedPaint(m, m', r, n, f);
  }

  lemma {:induction false} ChainPaint<K, V>(m: Snapshot<K, V>, m': Snapshot<K, V>, p: Path<Node<K, V>>, hole: Node?<K, V>, rootNode: Node?<K, V>, above: Node?<K, V>, f: map<Node<K, V>, bool>)
    requires Chain(m, p, hole, rootNode, above) && Painted(m, m', f)
    ensures Chain(m', PaintPath(p, f), hole, rootNode, above)
  {
    match p
    case Top =>
    case Step(up, _, n, _, s) =>
      LinkedPaint(m, m', s, n, f);
      ChainPaint(m, m', up, n, rootNode, above, f);
  }

  lemma AtPaint<K, V>(m: Snapshot<K, V>, m': Snapshot<K, V>, rootNode: Node?<K, V>, p: Path<Node<K, V>>, t: Tree<Node<K, V>>, f: map<Node<K, V>, bool>)
    requires At(m, rootNode, p, t) && Painted(m, m', f)
    ensures At(m', rootNode, PaintPath(p, f), Paint(t, f))
  {
    LinkedPaint(m, m', t, UpNode(p, null), f);
    ChainPaint(m, m', p, RootOf(t), rootNode, null, f);
    PaintNodes(t, f);
    PaintPathNodes(p, f);
  }

  /** What the stores of a rotation make of the snapshot. */
  lemma AtRotate<K, V>(m: Snapshot<K, V>, m': Snapshot<K, V>, rootNode: Node?<K, V>, rootNode': Node?<K, V>, p: Path<Node<K, V>>, s: Spin<Node<K, V>>)
    requires At(m, rootNode, p, s.Whole())
    requires s.n in m' && m'[s.n] == JoinCell(s.onLeft, RootOf(s.outer), RootOf(s.inner), s.r, s.nRed)
    requires s.r in m' && m'[s.r] == JoinCell(s.onLeft, s.n, RootOf(s.far), UpNode(p, null), s.rRed)
    requires s.inner.Fork? ==> var b := s.inner.node; b in m && b in m' && m'[b] == m[b].(parent := s.n)
    requires Relinked(m, m', rootNode, rootNode', p, s.r)
    requires SameOn(m, m', m.Keys - {s.n, s.r} - (if s.inner.Fork? then {s.inner.node} else {}) - (if p.Step? then {p.node} else {}))
    ensures At(m', rootNode', p, s.Turned())
  {
    s.WholeDistinct();
    s.TurnedNodes();
    assert {s.n, s.r} + Nodes(s.inner) + Nodes(s.outer) + Nodes(s.far) !! PathNodes(p);
    var touched := {s.n, s.r} + (if s.inner.Fork? then {s.inner.node} else {}) + (if p.Step? then {p.node} else {});
    assert SameOn(m, m', m.Keys - touched);
    assert p.Step? ==> p.node in PathNodes(p);
    assert s.inner.Fork? ==> s.inner.node in Nodes(s.inner);
    SameOnLess(m, m', touched, Nodes(s.outer));
    SameOnLess(m, m', touched, Nodes(s.far));
    if s.inner.Fork? { SameOnLess(m, m', touched, Nodes(s.inner) - {s.inner.node}); }
    if p.Step? { SameOnLess(m, m', touched, PathNodes(p) - {p.node}); }
    RotateParts(m, m', p, s);
    ChainRelink(m, m', rootNode, rootNode', p, s.n, s.r);
  }

  lemma SameOnLess<K, V>(m: Snapshot<K, V>, m': Snapshot<K, V>, touched: set<Node<K, V>>, s: set<Node<K, V>>)
    requires SameOn(m, m', m.Keys - touched) && s !! touched
    ensures SameOn(m, m', s)
  {}

  lemma RotateParts<K, V>(m: Snapshot<K, V>, m': Snapshot<K, V>, p: Path<Node<K, V>>, s: Spin<Node<K, V>>)
    requires Linked(m, s.Whole(), UpNode(p, null)) && Distinct(s.inner)
    requires s.n in m' && m'[s.n] == JoinCell(s.onLeft, RootOf(s.outer), RootOf(s.inner), s.r, s.nRed)
    requires s.r in m' && m'[s.r] == JoinCell(s.onLeft, s.n, RootOf(s.far), UpNode(p, null), s.rRed)
    requires s.inner.Fork? ==> var b := s.inner.node; b in m && b in m' && m'[b] == m[b].(parent := s.n)
    requires SameOn(m, m', Nodes(s.outer)) && SameOn(m, m', Nodes(s.far))
    requires s.inner.Fork? ==> SameOn(m, m', Nodes(s.inner) - {s.inner.node})
    ensures Linked(m', s.Turned(), UpNode(p, null))
  {
    assert Linked(m, s.Low(), s.n);
    LinkedFrame(m, m', s.outer, s.n);
    LinkedFrame(m, m', s.far, s.r);
    LinkedReparent(m, m', s.inner, s.r, s.n);
    assert Linked(m', s.TurnedLow(), s.r);
  }
}
