/** What the steps of the two rebalancing loops do to the ghost tree, and why each step keeps
    the loop's invariant. Left and right are told apart by a parameter, so that each step is
    argued once. */
module RbFixups {
  import opened RbShape

  /** Insertion: `t` is red and everything is in order, except that the node above `t` may be
      red as well. */
  ghost predicate RedFault<T>(p: Path<T>, t: Tree<T>, h: nat) {
    t.Fork? && t.red && Rb(t, h) && Ctx(p, h)
  }

  /** Erasure: one black node is missing in `t`. */
  ghost predicate BlackMissing<T>(p: Path<T>, t: Tree<T>, h: nat) {
    Lacking(t, h) && Ctx(p, h + 1)
  }

  // ---- insertion ----

  /** A red parent has a black parent of its own. */
  lemma FaultHasGrandparent<T>(p: Path<T>, t: Tree<T>, h: nat)
    requires RedFault(p, t, h) && p.Step? && p.red
    ensures p.up.Step? && !p.up.red && IsBlack(p.sibling) && Rb(p.sibling, h) && Rb(p.up.sibling, h) && Ctx(p.up.up, h + 1)
  {
    assert Ctx(p.up, h);
  }

  /** Red uncle: the two red nodes become black, the grandparent red, and the fault moves up. */
  ghost function Recolored<T>(p: Path<T>, t: Tree<T>): Tree<T>
    requires p.Step? && p.up.Step?
  {
    Join(p.up.wentLeft, Join(p.wentLeft, t, p.node, false, p.sibling), p.up.node, true, Blacken(p.up.sibling))
  }

  lemma RecoloredFault<T>(p: Path<T>, t: Tree<T>, h: nat)
    requires RedFault(p, t, h) && p.Step? && p.red && p.up.Step? && !IsBlack(p.up.sibling)
    ensures RedFault(p.up.up, Recolored(p, t), h + 1)
  {
    FaultHasGrandparent(p, t, h);
    assert Rb(Blacken(p.up.sibling), h + 1);
    assert Rb(Join(p.wentLeft, t, p.node, false, p.sibling), h + 1);
  }

  lemma RecoloredPaint<T>(p: Path<T>, t: Tree<T>)
    requires p.Step? && p.up.Step? && p.up.sibling.Fork?
    requires Distinct(t) && DistinctPath(p) && PathNodes(p) !! Nodes(t)
    ensures var f := map[p.up.sibling.node := false, p.node := false, p.up.node := true];
      Plug(PaintPath(p, f), Paint(t, f)) == Plug(p.up.up, Recolored(p, t))
  {
    var us, up := p.up.sibling, p.up.up;
    var f := map[us.node := false, p.node := false, p.up.node := true];
    assert DistinctPath(p.up) && Distinct(us);
    assert PathNodes(p.up) == PathNodes(up) + {p.up.node} + Nodes(us);
    assert Nodes(us) == Nodes(us.left) + {us.node} + Nodes(us.right);
    assert f.Keys == {us.node, p.node, p.up.node};
    PaintNodes(p.sibling, f);
    PaintNodes(t, f);
    PaintNodes(us.left, f);
    PaintNodes(us.right, f);
    PaintPathNodes(up, f);
    assert Paint(us, f) == Blacken(us);
    assert PaintPath(p, f) == Step(Step(up, p.up.wentLeft, p.up.node, true, Blacken(us)), p.wentLeft, p.node, false, p.sibling);
  }

  /** Black uncle, `t` on the inner side of its parent: the rotation at the parent. */
  ghost function SwingSpin<T>(p: Path<T>, t: Tree<T>): Spin<T>
    requires p.Step? && t.Fork?
  {
    if p.wentLeft then Spin(false, p.sibling, p.node, p.red, t.right, t.node, t.red, t.left)
    else Spin(true, p.sibling, p.node, p.red, t.left, t.node, t.red, t.right)
  }

  /** Where the fault is after that rotation: at the old parent, now below the old `t`. */
  ghost function SwungPath<T>(p: Path<T>, t: Tree<T>): Path<T>
    requires p.Step? && t.Fork?
  {
    var s := SwingSpin(p, t);
    Step(p.up, s.onLeft, t.node, t.red, s.far)
  }

  lemma SwingFault<T>(p: Path<T>, t: Tree<T>, h: nat)
    requires RedFault(p, t, h) && p.Step? && p.red && p.up.Step? && p.wentLeft != p.up.wentLeft
    ensures var s := SwingSpin(p, t);
      && Plug(p, t) == Plug(p.up, s.Whole())
      && Plug(SwungPath(p, t), s.TurnedLow()) == Plug(p.up, s.Turned())
      && RedFault(SwungPath(p, t), s.TurnedLow(), h)
      && SwungPath(p, t).wentLeft == p.up.wentLeft
  {}

  /** Black uncle, `t` on the outer side: the rotation at the repainted grandparent. */
  ghost function LiftSpin<T>(p: Path<T>, t: Tree<T>): Spin<T>
    requires p.Step? && p.up.Step?
  {
    Spin(!p.up.wentLeft, p.up.sibling, p.up.node, true, p.sibling, p.node, false, t)
  }

  ghost function LiftedPath<T>(p: Path<T>, t: Tree<T>): Path<T>
    requires p.Step? && p.up.Step?
  {
    Step(p.up.up, p.up.wentLeft, p.node, false, LiftSpin(p, t).TurnedLow())
  }

  lemma LiftFault<T>(p: Path<T>, t: Tree<T>, h: nat)
    requires RedFault(p, t, h) && p.Step? && p.red && p.up.Step? && p.wentLeft == p.up.wentLeft && IsBlack(p.up.sibling)
    ensures RedFault(LiftedPath(p, t), t, h)
    ensures Plug(LiftedPath(p, t), t) == Plug(p.up.up, LiftSpin(p, t).Turned())
  {
    FaultHasGrandparent(p, t, h);
    assert Rb(LiftSpin(p, t).TurnedLow(), h);
  }

  lemma LiftPaint<T>(p: Path<T>, t: Tree<T>)
    requires p.Step? && p.up.Step? && p.wentLeft == p.up.wentLeft
    requires Distinct(t) && DistinctPath(p) && PathNodes(p) !! Nodes(t)
    ensures var f := map[p.node := false, p.up.node := true];
      Plug(PaintPath(p, f), Paint(t, f)) == Plug(p.up.up, LiftSpin(p, t).Whole())
  {
    var us, up := p.up.sibling, p.up.up;
    var f := map[p.node := false, p.up.node := true];
    assert DistinctPath(p.up);
    assert PathNodes(p.up) == PathNodes(up) + {p.up.node} + Nodes(us);
    assert f.Keys == {p.node, p.up.node};
    PaintNodes(p.sibling, f);
    PaintNodes(t, f);
    PaintNodes(us, f);
    PaintPathNodes(up, f);
    assert PaintPath(p, f) == Step(Step(up, p.up.wentLeft, p.up.node, true, us), p.wentLeft, p.node, false, p.sibling);
  }

  /** The loop is over: the node above `t` is black, or `t` is the root and is about to be black. */
  lemma FaultGone<T>(p: Path<T>, t: Tree<T>, h: nat)
    requires RedFault(p, t, h) && (p.Top? || !p.red)
    ensures RedBlack(Blacken(Plug(p, t)))
    ensures Plug(p, t).Fork?
  {
    PlugFork(p, t);
    if p.Top? {
      assert Rb(Blacken(t), h + 1);
    } else {
      PlugRb(p, t, h);
    }
  }

  // ---- erasure ----

  /** The child of `s` on the side of the hole, and the one on the other side. */
  ghost function Near<T>(onLeft: bool, s: Tree<T>): Tree<T>
    requires s.Fork?
  {
    if onLeft then s.left else s.right
  }

  ghost function Far<T>(onLeft: bool, s: Tree<T>): Tree<T>
    requires s.Fork?
  {
    if onLeft then s.right else s.left
  }

  /** Where a black node is missing, there is a sibling. */
  lemma MissingHasSibling<T>(p: Path<T>, t: Tree<T>, h: nat)
    requires BlackMissing(p, t, h) && p.Step?
    ensures p.sibling.Fork? && Rb(p.sibling, h + 1) && (p.red ==> !p.sibling.red && p.up.Step? && !p.up.red)
    ensures Ctx(p.up, if p.red then h + 1 else h + 2)
    ensures !p.sibling.red ==> Rb(p.sibling.left, h) && Rb(p.sibling.right, h)
  {}

  lemma RootPaint<T>(t: Tree<T>, f: map<T, bool>)
    requires t.Fork? && Distinct(t) && f.Keys !! Nodes(t.left) && f.Keys !! Nodes(t.right)
    ensures Paint(t, f) == t.(red := if t.node in f then f[t.node] else t.red)
  {}

  lemma SiblingPaint<T>(p: Path<T>, t: Tree<T>, f: map<T, bool>)
    requires p.Step? && DistinctPath(p) && PathNodes(p) !! Nodes(t)
    requires f.Keys <= {p.node} + Nodes(p.sibling)
    ensures Paint(t, f) == t && PaintPath(p.up, f) == p.up
  {
    PaintNodes(t, f);
    PaintPathNodes(p.up, f);
  }

  /** Red sibling: repainted and lifted over the parent. */
  ghost function RedSiblingSpin<T>(p: Path<T>, t: Tree<T>): Spin<T>
    requires p.Step? && p.sibling.Fork?
  {
    var d, s := p.wentLeft, p.sibling;
    Spin(d, t, p.node, true, Near(d, s), s.node, false, Far(d, s))
  }

  ghost function RedSiblingPath<T>(p: Path<T>): Path<T>
    requires p.Step? && p.sibling.Fork?
  {
    var d, s := p.wentLeft, p.sibling;
    Step(Step(p.up, d, s.node, false, Far(d, s)), d, p.node, true, Near(d, s))
  }

  lemma RedSiblingStep<T>(p: Path<T>, t: Tree<T>, h: nat)
    requires BlackMissing(p, t, h) && p.Step? && p.sibling.Fork? && p.sibling.red
    requires DistinctPath(p) && PathNodes(p) !! Nodes(t)
    ensures var f, s := map[p.sibling.node := false, p.node := true], RedSiblingSpin(p, t);
      && Plug(PaintPath(p, f), Paint(t, f)) == Plug(p.up, s.Whole())
      && Plug(RedSiblingPath(p), t) == Plug(p.up, s.Turned())
    ensures BlackMissing(RedSiblingPath(p), t, h) && !IsBlack(p.sibling) && IsBlack(RedSiblingPath(p).sibling)
  {
    MissingHasSibling(p, t, h);
    var f := map[p.sibling.node := false, p.node := true];
    assert f.Keys == {p.sibling.node, p.node};
    SiblingPaint(p, t, f);
    RootPaint(p.sibling, f);
    var q := RedSiblingPath(p);
    assert Rb(q.sibling, h + 1) && Ctx(q.up, h + 1);
  }

  /** Black sibling with black children: it turns red, and the parent's subtree lacks a black. */
  ghost function PaleSibling<T>(p: Path<T>, t: Tree<T>): Tree<T>
    requires p.Step? && p.sibling.Fork?
  {
    Join(p.wentLeft, t, p.node, p.red, p.sibling.(red := true))
  }

  lemma PaleSiblingPaint<T>(p: Path<T>, t: Tree<T>)
    requires p.Step? && p.sibling.Fork? && DistinctPath(p) && PathNodes(p) !! Nodes(t)
    ensures var f := map[p.sibling.node := true];
      Plug(PaintPath(p, f), Paint(t, f)) == Plug(p.up, PaleSibling(p, t))
  {
    var f := map[p.sibling.node := true];
    assert f.Keys == {p.sibling.node};
    SiblingPaint(p, t, f);
    RootPaint(p.sibling, f);
  }

  lemma PaleSiblingMissing<T>(p: Path<T>, t: Tree<T>, h: nat)
    requires BlackMissing(p, t, h) && IsBlack(t) && p.Step? && p.sibling.Fork?
    requires !p.sibling.red && IsBlack(p.sibling.left) && IsBlack(p.sibling.right)
    ensures BlackMissing(p.up, PaleSibling(p, t), if p.red then h else h + 1)
  {
    MissingHasSibling(p, t, h);
    var s := p.sibling.(red := true);
    assert Rb(s, h);
    assert Rb(Join(p.wentLeft, t, p.node, false, s), h + 1);
  }

  /** Black sibling whose far child is black and near child red: the near child is lifted. */
  ghost function NearRedSpin<T>(p: Path<T>): Spin<T>
    requires p.Step? && p.sibling.Fork? && Near(p.wentLeft, p.sibling).Fork?
  {
    var d, s := p.wentLeft, p.sibling;
    var near := Near(d, s);
    Spin(!d, Far(d, s), s.node, true, Far(d, near), near.node, false, Near(d, near))
  }

  lemma NearRedStep<T>(p: Path<T>, t: Tree<T>, h: nat)
    requires BlackMissing(p, t, h) && p.Step? && p.sibling.Fork? && !p.sibling.red
    requires !IsBlack(Near(p.wentLeft, p.sibling)) && IsBlack(Far(p.wentLeft, p.sibling))
    requires DistinctPath(p) && PathNodes(p) !! Nodes(t)
    ensures var d, s := p.wentLeft, p.sibling;
      var f, spin := map[Near(d, s).node := false, s.node := true], NearRedSpin(p);
      var hole := Step(p.up, !d, p.node, p.red, t);
      && Plug(PaintPath(p, f), Paint(t, f)) == Plug(hole, spin.Whole())
      && Plug(p.(sibling := spin.Turned()), t) == Plug(hole, spin.Turned())
      && BlackMissing(p.(sibling := spin.Turned()), t, h)
      && !spin.Turned().red && !IsBlack(Far(d, spin.Turned()))
  {
    MissingHasSibling(p, t, h);
    var d, s := p.wentLeft, p.sibling;
    var near, far := Near(d, s), Far(d, s);
    var f := map[near.node := false, s.node := true];
    assert f.Keys == {near.node, s.node};
    assert Distinct(s) && Distinct(near);
    SiblingPaint(p, t, f);
    RootPaint(near, f);
    PaintNodes(far, f);
    assert Paint(s, f) == NearRedSpin(p).Whole();
    assert Rb(NearRedSpin(p).TurnedLow(), h);
    assert Rb(NearRedSpin(p).Turned(), h + 1);
  }

  /** Black sibling whose far child is red: the sibling takes the parent's colour and place. */
  ghost function FarRedSpin<T>(p: Path<T>, t: Tree<T>): Spin<T>
    requires p.Step? && p.sibling.Fork?
  {
    var d, s := p.wentLeft, p.sibling;
    Spin(d, t, p.node, false, Near(d, s), s.node, p.red, Blacken(Far(d, s)))
  }

  lemma FarRedPaint<T>(p: Path<T>, t: Tree<T>)
    requires p.Step? && p.sibling.Fork? && Far(p.wentLeft, p.sibling).Fork?
    requires DistinctPath(p) && PathNodes(p) !! Nodes(t)
    ensures var f := map[p.sibling.node := p.red, p.node := false, Far(p.wentLeft, p.sibling).node := false];
      Plug(PaintPath(p, f), Paint(t, f)) == Plug(p.up, FarRedSpin(p, t).Whole())
  {
    var d, s := p.wentLeft, p.sibling;
    var near, far := Near(d, s), Far(d, s);
    var f := map[s.node := p.red, p.node := false, far.node := false];
    assert f.Keys == {s.node, p.node, far.node};
    assert Distinct(s) && Distinct(far);
    SiblingPaint(p, t, f);
    RootPaint(far, f);
    PaintNodes(near, f);
  }

  lemma FarRedDone<T>(p: Path<T>, t: Tree<T>, h: nat)
    requires BlackMissing(p, t, h) && IsBlack(t) && p.Step? && p.sibling.Fork? && !p.sibling.red
    requires !IsBlack(Far(p.wentLeft, p.sibling))
    ensures RedBlack(Plug(p.up, FarRedSpin(p, t).Turned()))
  {
    MissingHasSibling(p, t, h);
    var spin := FarRedSpin(p, t);
    assert Rb(spin.TurnedLow(), h + 1) && Rb(spin.far, h + 1);
    PlugRb(p.up, spin.Turned(), if p.red then h + 1 else h + 2);
  }

  /** Leaving the loop: the root, or a red node, which is about to be painted black. */
  lemma MissingGone<T>(p: Path<T>, t: Tree<T>, h: nat)
    requires BlackMissing(p, t, h) && (p.Top? || !IsBlack(t))
    ensures RedBlack(Plug(p, Blacken(t)))
  {
    if !IsBlack(t) {
      PlugRb(p, Blacken(t), h + 1);
    }
  }
}
