/**
  What the synchroniser guarantees: the clear before the walk, the nodes it
  never touches, and the selections it only ever adds.

  The operation roots are built without a parent (`buildTree` passes `null`),
  which `Parentless` states.
*/
module SyncProperties {
  import opened Common
  import opened GraphqlAst
  import opened SelectionTree
  import opened TreeSync

  predicate Parentless(t: Tree, roots: seq<Handle>)
    requires AllIn(t, roots)
  {
    forall i :: 0 <= i < |roots| ==> t.info[roots[i]].parent.None?
  }

  /** `n` lies in the subtree of one of the roots. */
  ghost predicate Covered(t: Tree, roots: seq<Handle>, n: Handle)
    requires n < |t.info|
  {
    exists i :: 0 <= i < |roots| && Under(t.info, n, roots[i])
  }

  /** The cursor is undefined or inside the roots' subtrees. */
  ghost predicate CursorCovered(w: Walk, roots: seq<Handle>)
    requires Sound(w)
  {
    w.cursor.Some? ==> Covered(w.tree, roots, w.cursor.value)
  }

  /**
    After the loop over `globalNodes`, a node below a root is selected exactly
    when it is itself a root; nothing else changes, and nodes outside the
    roots' subtrees are untouched.
  */
  lemma {:induction false} ClearRootsEffect(t: Tree, roots: seq<Handle>)
    requires Valid(t) && AllIn(t, roots) && Parentless(t, roots)
    ensures forall n :: 0 <= n < |t.state| ==> Cleared(t, roots, ClearRoots(t, roots), n)
    decreases |roots|
  {
    if roots != [] {
      var init, r := roots[..|roots| - 1], roots[|roots| - 1];
      assert roots == init + [r];
      ClearRootsEffect(t, init);
      var p := ClearRoots(t, init);
      assert ClearRoots(t, roots) == ClearOne(p, r);
      forall n | 0 <= n < |t.state|
        ensures Cleared(t, roots, ClearRoots(t, roots), n)
      {
        ClearLast(t, init, r, p, n);
      }
    }
  }

  /** What the clear loop leaves at node `n`. */
  ghost predicate Cleared(t: Tree, roots: seq<Handle>, u: Tree, n: Handle)
    requires Valid(t) && n < |t.state| && |u.state| == |t.state|
  {
    && u.state[n].inputValue == t.state[n].inputValue
    && u.state[n].variables == t.state[n].variables
    && (Covered(t, roots, n) ==> (u.state[n].selected <==> n in roots))
    && (!Covered(t, roots, n) ==> u.state[n] == t.state[n])
  }

  /** One iteration of the clear loop at one node: a node below the root is deselected unless it is the root. */
  lemma ClearOneAt(p: Tree, r: Handle, n: Handle)
    requires Valid(p) && r < |p.info| && n < |p.info|
    ensures ClearOne(p, r).state[n] == if Under(p.info, n, r) then p.state[n].(selected := n == r) else p.state[n]
  {
    assert Under(p.info, r, r);
  }

  /** The last iteration of the clear loop, at one node. */
  lemma ClearLast(t: Tree, init: seq<Handle>, r: Handle, p: Tree, n: Handle)
    requires Valid(t) && AllIn(t, init + [r]) && Parentless(t, init + [r]) && r < |t.info| && n < |t.state|
    requires Valid(p) && p.info == t.info
    requires Cleared(t, init, p, n)
    ensures Cleared(t, init + [r], ClearOne(p, r), n)
  {
    var roots := init + [r];
    ClearOneAt(p, r, n);
    if Under(t.info, n, r) {
      assert Under(t.info, n, roots[|init|]);
      if n in roots {
        var j :| 0 <= j < |roots| && roots[j] == n;
        assert t.info[roots[j]].parent.None?;
      }
    } else {
      if Covered(t, roots, n) {
        var j :| 0 <= j < |roots| && Under(t.info, n, roots[j]);
        assert j < |init| && init[j] == roots[j];
      } else {
        forall j | 0 <= j < |init|
          ensures !Under(t.info, n, init[j])
        {
          assert init[j] == roots[j];
        }
      }
    }
  }

  /** Every root is inside the roots' subtrees. */
  lemma RootCovered(t: Tree, roots: seq<Handle>, i: nat)
    requires AllIn(t, roots) && i < |roots|
    ensures Covered(t, roots, roots[i])
  {
    assert Under(t.info, roots[i], roots[i]);
  }

  /** A child of a node inside the roots' subtrees is inside them too. */
  lemma ChildCovered(t: Tree, roots: seq<Handle>, c: Handle, n: Handle)
    requires Valid(t) && c < |t.info| && n < |t.info| && t.info[n].parent == Some(c)
    requires Covered(t, roots, c)
    ensures Covered(t, roots, n)
  {
    var i :| 0 <= i < |roots| && Under(t.info, c, roots[i]);
    assert Under(t.info, n, roots[i]);
  }

  /** The parent of a node inside the roots' subtrees is inside them too, since the roots have none. */
  lemma ParentCovered(t: Tree, roots: seq<Handle>, c: Handle)
    requires Valid(t) && AllIn(t, roots) && Parentless(t, roots) && c < |t.info|
    requires Covered(t, roots, c) && t.info[c].parent.Some?
    ensures Covered(t, roots, t.info[c].parent.value)
  {
    var i :| 0 <= i < |roots| && Under(t.info, c, roots[i]);
    assert t.info[roots[i]].parent.None?;
    assert c != roots[i];
  }

  /**
    A callback keeps the cursor inside the roots' subtrees and changes no node
    outside them.
  */
  lemma StepCovered(w: Walk, roots: seq<Handle>, e: Event)
    requires Sound(w) && AllIn(w.tree, roots) && Parentless(w.tree, roots) && CursorCovered(w, roots)
    ensures Step(w, roots, e).Continue? ==> CursorCovered(Step(w, roots, e).walk, roots)
    ensures forall n :: 0 <= n < |w.tree.state| && !Covered(w.tree, roots, n) ==>
              Step(w, roots, e).Final().state[n] == w.tree.state[n]
  {
    StepOutside(w, roots, e);
    StepCursor(w, roots, e);
  }

  lemma StepOutside(w: Walk, roots: seq<Handle>, e: Event)
    requires Sound(w) && AllIn(w.tree, roots) && CursorCovered(w, roots)
    ensures forall n :: 0 <= n < |w.tree.state| && !Covered(w.tree, roots, n) ==>
              Step(w, roots, e).Final().state[n] == w.tree.state[n]
  {
    var t := w.tree;
    var o := Step(w, roots, e);
    forall n | 0 <= n < |t.state| && !Covered(t, roots, n)
      ensures o.Final().state[n] == t.state[n]
    {
      if o.Continue? && o.walk.tree.state[n] != t.state[n] {
        if t.info[n].parent == w.cursor {
          ChildCovered(t, roots, w.cursor.value, n);
        }
      }
    }
  }

  lemma StepCursor(w: Walk, roots: seq<Handle>, e: Event)
    requires Sound(w) && AllIn(w.tree, roots) && Parentless(w.tree, roots) && CursorCovered(w, roots)
    ensures Step(w, roots, e).Continue? ==> CursorCovered(Step(w, roots, e).walk, roots)
  {
    var t := w.tree;
    var o := Step(w, roots, e);
    if o.Continue? && o.walk.cursor.Some? {
      var c := o.walk.cursor.value;
      match e
      case EnterOperation(op) =>
        var i :| 0 <= i < |roots| && roots[i] == c;
        RootCovered(t, roots, i);
      case EnterField(_) =>
        EnteredChild(w, roots, e);
      case EnterInlineFragment(_) =>
        EnteredChild(w, roots, e);
      case EnterInput(_, _) =>
        EnteredChild(w, roots, e);
      case EnterVariableDefinition(_, _) =>
      case LeaveOperation =>
        ParentCovered(t, roots, w.cursor.value);
      case LeaveField(name) =>
        if name != "__typename" {
          ParentCovered(t, roots, w.cursor.value);
        }
      case LeaveNested =>
        ParentCovered(t, roots, w.cursor.value);
    }
  }

  /** Entering a field, an inline fragment or an input keeps the cursor inside the roots' subtrees. */
  lemma EnteredChild(w: Walk, roots: seq<Handle>, e: Event)
    requires Sound(w) && AllIn(w.tree, roots) && CursorCovered(w, roots)
    requires e.EnterField? || e.EnterInlineFragment? || e.EnterInput?
    ensures Step(w, roots, e).Continue? ==> CursorCovered(Step(w, roots, e).walk, roots)
  {
    var o := Step(w, roots, e);
    if o.Continue? && o.walk.cursor != w.cursor {
      var c := o.walk.cursor.value;
      ChildCovered(w.tree, roots, w.cursor.value, c);
    }
  }

  /**
    Over a whole walk that starts inside the roots' subtrees, nodes outside them
    keep their state and no selection is taken back.
  */
  lemma {:induction false} RunCovered(w: Walk, roots: seq<Handle>, evs: seq<Event>)
    requires Sound(w) && AllIn(w.tree, roots) && Parentless(w.tree, roots) && CursorCovered(w, roots)
    ensures forall n :: 0 <= n < |w.tree.state| && !Covered(w.tree, roots, n) ==>
              Run(w, roots, evs).Final().state[n] == w.tree.state[n]
    ensures forall n :: 0 <= n < |w.tree.state| && w.tree.state[n].selected ==>
              Run(w, roots, evs).Final().state[n].selected
    decreases |evs|
  {
    if evs != [] {
      StepCovered(w, roots, evs[0]);
      match Step(w, roots, evs[0])
      case Thrown(_) =>
      case Continue(w1) =>
        RunCovered(w1, roots, evs[1..]);
        assert forall n :: 0 <= n < |w.tree.info| ==> (Covered(w1.tree, roots, n) <==> Covered(w.tree, roots, n));
    }
  }

  /**
    Whatever the document, the synchroniser changes no node outside the
    operation roots' subtrees, and after a successful parse every root is selected.
  */
  lemma SyncCovered(t: Tree, roots: seq<Handle>, parsed: Option<Document>)
    requires Valid(t) && AllIn(t, roots) && Parentless(t, roots)
    ensures forall n :: 0 <= n < |t.state| && !Covered(t, roots, n) ==> Sync(t, roots, parsed).state[n] == t.state[n]
    ensures parsed.Some? ==> forall i :: 0 <= i < |roots| ==> Sync(t, roots, parsed).state[roots[i]].selected
  {
    if parsed.Some? {
      var cleared := ClearRoots(t, roots);
      ClearRootsEffect(t, roots);
      assert forall n :: 0 <= n < |t.state| ==> Cleared(t, roots, cleared, n);
      var w := Walk(cleared, None, []);
      RunCovered(w, roots, Visit(parsed.value));
      assert forall n :: 0 <= n < |t.info| ==> (Covered(cleared, roots, n) <==> Covered(t, roots, n));
      assert Sync(t, roots, parsed) == Run(w, roots, Visit(parsed.value)).Final();
      forall n | 0 <= n < |t.state| && !Covered(t, roots, n)
        ensures Sync(t, roots, parsed).state[n] == t.state[n]
      {
        assert Cleared(t, roots, cleared, n);
      }
      forall i | 0 <= i < |roots|
        ensures cleared.state[roots[i]].selected
      {
        RootCovered(t, roots, i);
        assert Cleared(t, roots, cleared, roots[i]);
      }
    }
  }
}
