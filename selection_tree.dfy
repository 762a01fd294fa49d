/**
  The explorer's selection tree, kept in an arena: a node is a handle (an
  index), its parent is a handle, its children are handles.

  `NodeInfo` is what the tree builder fixes when it builds the tree from the
  schema (the children are never rebuilt); `NodeState` is what toggles and the
  synchroniser change. The node classes themselves are not part of this model:
  `Select` (`toggle(true, false)`), `Deselect` (`clear()`) and
  `HasActiveChild` (`hasActiveChild()`) state the behaviour assumed of them.
*/
module SelectionTree {
  import opened Common

  type Handle = nat

  datatype Kind = Output | Input

  /** How an input node's declared type is classified for argument rendering. */
  datatype InputClass = Scalar | Enum | InputObject | OtherInput

  /** An entry of an operation root's `variables`; `typeText` is `None` where the source pushes `undefined`. */
  datatype VarDecl = VarDecl(name: string, typeText: Option<string>)

  datatype NodeInfo = NodeInfo(
    kind: Kind,
    name: string,             // the node's label()
    unionType: bool,          // the node's own field type is a union
    inputClass: InputClass,
    children: seq<Handle>,
    parent: Option<Handle>)

  datatype NodeState = NodeState(selected: bool, inputValue: string, variables: seq<VarDecl>)

  datatype Tree = Tree(info: seq<NodeInfo>, state: seq<NodeState>)

  /** Parent and child links agree, a child comes after its parent, and input nodes only hold input nodes. */
  ghost predicate WellFormed(info: seq<NodeInfo>)
  {
    && (forall h, i :: 0 <= h < |info| && 0 <= i < |info[h].children| ==>
          h < info[h].children[i] < |info| && info[info[h].children[i]].parent == Some(h))
    && (forall n :: 0 <= n < |info| && info[n].parent.Some? ==>
          info[n].parent.value < n && n in info[info[n].parent.value].children)
    && (forall h, i :: 0 <= h < |info| && 0 <= i < |info[h].children| && info[h].kind == Input ==>
          info[info[h].children[i]].kind == Input)
  }

  ghost predicate Valid(t: Tree)
  {
    |t.state| == |t.info| && WellFormed(t.info)
  }

  predicate AllIn(t: Tree, hs: seq<Handle>)
  {
    forall i :: 0 <= i < |hs| ==> hs[i] < |t.info|
  }

  /** `n` is `h` or lies below it (following parent links). */
  predicate Under(info: seq<NodeInfo>, n: Handle, h: Handle)
    requires n < |info|
    decreases n
  {
    n == h || (info[n].parent.Some? && info[n].parent.value < n && Under(info, info[n].parent.value, h))
  }

  lemma {:induction false} UnderAtLeast(info: seq<NodeInfo>, n: Handle, h: Handle)
    requires n < |info| && Under(info, n, h)
    ensures h <= n
    decreases n
  {
    if n != h {
      UnderAtLeast(info, info[n].parent.value, h);
    }
  }

  /** Nodes below a node without a parent lie below no other node without a parent. */
  lemma {:induction false} UnderOneRoot(info: seq<NodeInfo>, n: Handle, a: Handle, b: Handle)
    requires n < |info| && a < |info| && b < |info|
    requires info[a].parent.None? && info[b].parent.None?
    requires Under(info, n, a) && Under(info, n, b)
    ensures a == b
    decreases n
  {
    if n != a && n != b {
      UnderOneRoot(info, info[n].parent.value, a, b);
    }
  }

  /** The smallest handle of `hs`, or `|t.info|`; children lie above it, which bounds the recursion. */
  function Floor(t: Tree, hs: seq<Handle>): (m: nat)
    ensures m <= |t.info|
    ensures forall i :: 0 <= i < |hs| ==> m <= hs[i]
  {
    if hs == [] then |t.info|
    else
      var rest := Floor(t, hs[1..]);
      if hs[0] < rest then hs[0] else rest
  }

  lemma {:induction false} FloorAbove(t: Tree, hs: seq<Handle>, lo: Handle)
    requires lo < |t.info|
    requires forall i :: 0 <= i < |hs| ==> lo < hs[i]
    ensures lo < Floor(t, hs)
  {
    if hs != [] {
      FloorAbove(t, hs[1..], lo);
    }
  }

  lemma FloorTail(t: Tree, hs: seq<Handle>)
    requires hs != []
    ensures Floor(t, hs) <= Floor(t, hs[1..])
  {
  }

  /** The children of `h`, in order, that have kind `k` (the source's input/output partition). */
  function OfKind(t: Tree, hs: seq<Handle>, k: Kind): (r: seq<Handle>)
    requires AllIn(t, hs)
    ensures |r| <= |hs|
    ensures forall i :: 0 <= i < |r| ==> r[i] in hs && t.info[r[i]].kind == k
    ensures forall x :: x in hs && t.info[x].kind == k ==> x in r
  {
    if hs == [] then []
    else (if t.info[hs[0]].kind == k then [hs[0]] else []) + OfKind(t, hs[1..], k)
  }

  /** Filtering a concatenation filters each part in turn: the order of the children is kept. */
  lemma {:induction false} OfKindAppend(t: Tree, a: seq<Handle>, b: seq<Handle>, k: Kind)
    requires AllIn(t, a) && AllIn(t, b)
    ensures AllIn(t, a + b)
    ensures OfKind(t, a + b, k) == OfKind(t, a, k) + OfKind(t, b, k)
  {
    assert AllIn(t, a + b);
    if a == [] {
      assert a + b == b;
    } else {
      assert (a + b)[1..] == a[1..] + b;
      OfKindAppend(t, a[1..], b, k);
      var head := if t.info[a[0]].kind == k then [a[0]] else [];
      assert OfKind(t, a + b, k) == head + (OfKind(t, a[1..], k) + OfKind(t, b, k));
      HandlesAssoc(head, OfKind(t, a[1..], k), OfKind(t, b, k));
    }
  }

  lemma HandlesAssoc(x: seq<Handle>, y: seq<Handle>, z: seq<Handle>)
    ensures x + (y + z) == x + y + z
  {
  }

  /** Where `x` first occurs in `s`. */
  function IndexOf(s: seq<Handle>, x: Handle): (j: nat)
    requires x in s
    ensures j < |s| && s[j] == x
  {
    if s[0] == x then 0 else 1 + IndexOf(s[1..], x)
  }

  /** Every child of `h` lies above `h` in the arena. */
  lemma ChildrenAbove(t: Tree, h: Handle, cs: seq<Handle>)
    requires Valid(t) && h < |t.info|
    requires forall i :: 0 <= i < |cs| ==> cs[i] in t.info[h].children
    ensures forall i :: 0 <= i < |cs| ==> h < cs[i] < |t.info|
    ensures h < Floor(t, cs)
  {
    forall i | 0 <= i < |cs|
      ensures h < cs[i] < |t.info|
    {
      var j := IndexOf(t.info[h].children, cs[i]);
    }
    FloorAbove(t, cs, h);
  }

  /** Index of the first of `hs` with kind `k` and label `name` (the source's `children().find(...)`). */
  function FirstMatch(t: Tree, hs: seq<Handle>, k: Kind, name: string): (r: Option<nat>)
    requires AllIn(t, hs)
    ensures r.None? <==> forall i :: 0 <= i < |hs| ==> !(t.info[hs[i]].kind == k && t.info[hs[i]].name == name)
    ensures r.Some? ==> r.value < |hs| && t.info[hs[r.value]].kind == k && t.info[hs[r.value]].name == name
    ensures r.Some? ==> forall j :: 0 <= j < r.value ==> !(t.info[hs[j]].kind == k && t.info[hs[j]].name == name)
  {
    if hs == [] then None
    else if t.info[hs[0]].kind == k && t.info[hs[0]].name == name then Some(0)
    else match FirstMatch(t, hs[1..], k, name)
      case None => None
      case Some(i) => Some(i + 1)
  }

  /** The child of `h` that `children().find(...)` returns. */
  /** No child of `h` has kind `k` and label `name`. */
  predicate NoChild(t: Tree, h: Handle, k: Kind, name: string)
    requires Valid(t) && h < |t.info|
  {
    forall c :: c in t.info[h].children ==> !(t.info[c].kind == k && t.info[c].name == name)
  }

  /** Every node but `n` keeps its state. */
  predicate OnlyAt(t: Tree, u: Tree, n: Handle)
    requires |u.state| == |t.state|
  {
    forall m :: 0 <= m < |t.state| && m != n ==> u.state[m] == t.state[m]
  }

  function FindChild(t: Tree, h: Handle, k: Kind, name: string): (r: Option<Handle>)
    requires Valid(t) && h < |t.info|
    ensures r.Some? ==> r.value in t.info[h].children && t.info[r.value].kind == k && t.info[r.value].name == name
    ensures r.Some? ==> h < r.value < |t.info| && t.info[r.value].parent == Some(h)
    ensures r.None? <==> NoChild(t, h, k, name)
  {
    var cs := t.info[h].children;
    match FirstMatch(t, cs, k, name)
    case None => None
    case Some(i) => Some(cs[i])
  }

  /**
    `hasActiveChild()`, as assumed of the node class: some output child is
    selected or itself has an active child.
  */
  predicate HasActiveChild(t: Tree, h: Handle)
    requires Valid(t) && h < |t.info|
    decreases |t.info| - h, 1
  {
    exists i :: 0 <= i < |t.info[h].children| && ActiveOutput(t, h, t.info[h].children[i])
  }

  predicate ActiveOutput(t: Tree, h: Handle, c: Handle)
    requires Valid(t) && h < |t.info| && c in t.info[h].children
    decreases |t.info| - h, 0
  {
    ChildrenAbove(t, h, [c]);
    t.info[c].kind == Output && (t.state[c].selected || HasActiveChild(t, c))
  }

  /** `toggle(true, false)`, as assumed of the node class: only this node's flag is set. */
  function Select(t: Tree, h: Handle): (r: Tree)
    requires h < |t.state|
    ensures r.info == t.info && |r.state| == |t.state|
    ensures r.state[h].selected
    ensures forall n :: 0 <= n < |t.state| && n != h ==> r.state[n] == t.state[n]
    ensures r.state[h] == t.state[h].(selected := true)
  {
    Tree(t.info, t.state[h := t.state[h].(selected := true)])
  }

  /** `clear()`, as assumed of the node class: the node and everything below it are deselected. */
  function Deselect(t: Tree, h: Handle): (r: Tree)
    requires Valid(t)
    ensures r.info == t.info && |r.state| == |t.state|
    ensures forall n :: 0 <= n < |t.state| && Under(t.info, n, h) ==> r.state[n] == t.state[n].(selected := false)
    ensures forall n :: 0 <= n < |t.state| && !Under(t.info, n, h) ==> r.state[n] == t.state[n]
  {
    Tree(t.info, seq(|t.state|, n requires 0 <= n < |t.state| =>
      if Under(t.info, n, h) then t.state[n].(selected := false) else t.state[n]))
  }
}
