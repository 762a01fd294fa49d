/**
  Text to tree: the synchroniser `documentToTree` as a specification.

  The walk over a parsed document is a fold of `Step` over the events of
  `Visit`; `Walk` is what the two callbacks share (the tree, the cursor
  `curNode` and the collected `variables`). A callback that dereferences an
  undefined node ends the walk with `Thrown`: the surrounding `catch` keeps the
  tree exactly as it was when the exception was raised.
*/
module TreeSync {
  import opened Common
  import opened GraphqlAst
  import opened SelectionTree

  /** The text stored as `inputValue` for a literal; `None` for the kinds the callback leaves alone. */
  function Literal(v: Value): (r: Option<string>)
    ensures r.None? <==> v.NullValue? || v.ListValue? || v.ObjectValue?
  {
    match v
    case StringValue(s) => Some("\"" + s + "\"")
    case IntValue(text) => Some(text)
    case FloatValue(text) => Some(text)
    case BooleanValue(b) => Some(if b then "true" else "false")
    case EnumValue(name) => Some(name)
    case VariableValue(name) => Some("$" + name)
    case _ => None
  }

  /** What a matched input node holds after the enter: the literal's text, or its previous value. */
  function Stored(previous: string, v: Value): string
  {
    if Literal(v).Some? then Literal(v).value else previous
  }

  predicate NumberStart(c: char)
  {
    c == '-' || '0' <= c <= '9'
  }

  predicate NameStart(c: char)
  {
    c == '_' || 'a' <= c <= 'z' || 'A' <= c <= 'Z'
  }

  predicate HasFraction(s: string)
  {
    '.' in s || 'e' in s || 'E' in s
  }

  /** The lexical facts about a literal that the query language's grammar guarantees. */
  predicate WellFormedLiteral(v: Value)
  {
    match v
    case IntValue(text) => |text| > 0 && NumberStart(text[0]) && !HasFraction(text)
    case FloatValue(text) => |text| > 0 && NumberStart(text[0]) && HasFraction(text)
    case EnumValue(name) => |name| > 0 && NameStart(name[0]) && name != "true" && name != "false" && name != "null"
    case _ => true
  }

  /** Reading stored argument text back as a literal: the inverse of `Literal`. */
  function ReadLiteral(s: string): Value
  {
    if |s| >= 2 && s[0] == '"' && s[|s| - 1] == '"' then StringValue(s[1..|s| - 1])
    else if |s| >= 1 && s[0] == '$' then VariableValue(s[1..])
    else if s == "true" then BooleanValue(true)
    else if s == "false" then BooleanValue(false)
    else if |s| > 0 && NumberStart(s[0]) then (if HasFraction(s) then FloatValue(s) else IntValue(s))
    else EnumValue(s)
  }

  /** Storing a literal loses nothing: the stored text reads back as the same literal. */
  lemma LiteralRoundTrip(v: Value)
    requires WellFormedLiteral(v) && Literal(v).Some?
    ensures ReadLiteral(Literal(v).value) == v
  {
    match v
    case StringValue(s) =>
      var text := "\"" + s + "\"";
      assert text[1..|text| - 1] == s;
    case _ =>
  }

  /**
    The entry a variable definition adds to the collected list: a named type
    gives its name, a non-null named type its name and `!`, any other non-null
    type an undefined type, and a list type nothing.
  */
  function DeclaredVariable(variable: string, vtype: TypeRef): (r: Option<VarDecl>)
    ensures r.None? <==> vtype.ListType?
    ensures r.Some? ==> r.value.name == variable
  {
    match vtype
    case NamedType(n) => Some(VarDecl(variable, Some(n)))
    case NonNullType(NamedType(n)) => Some(VarDecl(variable, Some(n + "!")))
    case NonNullType(_) => Some(VarDecl(variable, None))
    case ListType(_) => None
  }

  /** Reading a type text back: a trailing `!` marks a non-null named type. */
  function ReadType(text: string): TypeRef
  {
    if |text| > 0 && text[|text| - 1] == '!' then NonNullType(NamedType(text[..|text| - 1])) else NamedType(text)
  }

  /** A named or non-null named type survives as text; a name never holds `!`. */
  lemma TypeRoundTrip(variable: string, vtype: TypeRef)
    requires vtype.NamedType? || (vtype.NonNullType? && vtype.ofType.NamedType?)
    requires vtype.NamedType? ==> '!' !in vtype.name
    requires vtype.NonNullType? ==> '!' !in vtype.ofType.name
    ensures DeclaredVariable(variable, vtype).Some?
    ensures var d := DeclaredVariable(variable, vtype).value;
            d.typeText.Some? && ReadType(d.typeText.value) == vtype
  {
    if vtype.NamedType? {
      var n := vtype.name;
      assert |n| > 0 ==> n[|n| - 1] in n;
    } else {
      var text := vtype.ofType.name + "!";
      assert text[..|text| - 1] == vtype.ofType.name;
    }
  }

  /** What the enter and leave callbacks share while the walk goes on. */
  datatype Walk = Walk(tree: Tree, cursor: Option<Handle>, vars: seq<VarDecl>)

  datatype Outcome = Continue(walk: Walk) | Thrown(tree: Tree)
  {
    /** The tree the synchroniser leaves behind. */
    function Final(): Tree
    {
      match this
      case Continue(w) => w.tree
      case Thrown(t) => t
    }
  }

  ghost predicate Sound(w: Walk)
  {
    Valid(w.tree) && (w.cursor.Some? ==> w.cursor.value < |w.tree.info|)
  }

  /** Index of the first of `hs` whose label is `name` (the `globalNodes().find(...)` of an operation). */
  function FirstNamed(t: Tree, hs: seq<Handle>, name: string): (r: Option<nat>)
    requires AllIn(t, hs)
    ensures r.None? <==> forall i :: 0 <= i < |hs| ==> t.info[hs[i]].name != name
    ensures r.Some? ==> r.value < |hs| && t.info[hs[r.value]].name == name
    ensures r.Some? ==> forall j :: 0 <= j < r.value ==> t.info[hs[j]].name != name
  {
    if hs == [] then None
    else if t.info[hs[0]].name == name then Some(0)
    else match FirstNamed(t, hs[1..], name)
      case None => None
      case Some(i) => Some(i + 1)
  }

  /** The operation root an operation definition starts from. */
  function FindRoot(t: Tree, roots: seq<Handle>, op: OperationType): (r: Option<Handle>)
    requires AllIn(t, roots)
    ensures r.Some? ==> r.value in roots && t.info[r.value].name == op.Keyword()
    ensures r.None? <==> forall i :: 0 <= i < |roots| ==> t.info[roots[i]].name != op.Keyword()
  {
    match FirstNamed(t, roots, op.Keyword())
    case None => None
    case Some(i) => Some(roots[i])
  }

  function SetInput(t: Tree, n: Handle, text: string): (r: Tree)
    requires n < |t.state|
    ensures r.info == t.info && |r.state| == |t.state|
    ensures r.state[n] == t.state[n].(inputValue := text) && OnlyAt(t, r, n)
  {
    Tree(t.info, t.state[n := t.state[n].(inputValue := text)])
  }

  function SetVariables(t: Tree, n: Handle, vars: seq<VarDecl>): (r: Tree)
    requires n < |t.state|
    ensures r.info == t.info && |r.state| == |t.state|
    ensures r.state[n] == t.state[n].(variables := vars) && OnlyAt(t, r, n)
  {
    Tree(t.info, t.state[n := t.state[n].(variables := vars)])
  }

  /** The cursor after a leave that pops: the node's parent, or undefined above a root. */
  function Up(t: Tree, c: Handle): (r: Option<Handle>)
    requires Valid(t) && c < |t.info|
    ensures r.Some? ==> r.value < c
  {
    t.info[c].parent
  }

  /**
    `w1` follows `w` by one callback: same tree shape, no selection taken back,
    and only children of the cursor changed, or the cursor itself when `atCursor`.
  */
  ghost predicate Follows(w: Walk, w1: Walk, atCursor: bool)
    requires Sound(w)
  {
    && Sound(w1) && w1.tree.info == w.tree.info
    && (forall n :: 0 <= n < |w.tree.state| && w.tree.state[n].selected ==> w1.tree.state[n].selected)
    && (forall n :: 0 <= n < |w.tree.state| && w1.tree.state[n] != w.tree.state[n] ==>
          w.cursor.Some? && (w.tree.info[n].parent == w.cursor || (n == w.cursor.value && atCursor)))
  }

  /** Move into a matched child of the cursor and select it without propagating. */
  function Descend(w: Walk, n: Handle): (r: Walk)
    requires Sound(w) && w.cursor.Some? && n < |w.tree.info| && w.tree.info[n].parent == w.cursor
    ensures Follows(w, r, false) && r.cursor == Some(n) && r.vars == w.vars
    ensures r.tree.state[n] == w.tree.state[n].(selected := true) && OnlyAt(w.tree, r.tree, n)
  {
    Walk(Select(w.tree, n), Some(n), w.vars)
  }

  /**
    `w1` has moved from the cursor of `w` into a child of kind `k` labelled
    `name`, and no node other than that child has changed.
  */
  ghost predicate MovedTo(w: Walk, w1: Walk, k: Kind, name: string)
    requires Sound(w)
  {
    && w1.cursor.Some? && w1.vars == w.vars && w1.tree.info == w.tree.info && |w1.tree.state| == |w.tree.state|
    && var n := w1.cursor.value;
       && n < |w.tree.info| && w.tree.info[n].parent == w.cursor
       && w.tree.info[n].kind == k && w.tree.info[n].name == name
       && OnlyAt(w.tree, w1.tree, n)
  }

  /** One callback of the visit. */
  function Step(w: Walk, roots: seq<Handle>, e: Event): (o: Outcome)
    requires Sound(w) && AllIn(w.tree, roots)
    ensures o.Thrown? ==> o.tree == w.tree
    ensures o.Continue? ==> Follows(w, o.walk, e.LeaveOperation?)
    ensures (e.EnterField? || e.EnterInput? || e.EnterInlineFragment?) && w.cursor.None? ==> o.Thrown?
  {
    var t := w.tree;
    match e
    case EnterOperation(op) =>
      Continue(Walk(t, FindRoot(t, roots, op), []))
    case EnterField(name) =>
      if w.cursor.None? then Thrown(t)
      else EnterOutput(w, name)
    case EnterInlineFragment(typeCondition) =>
      if w.cursor.None? then Thrown(t)
      else if typeCondition.Some? then EnterOutput(w, typeCondition.value)
      // The find callback reads the missing type condition at the first output child.
      else if OfKind(t, t.info[w.cursor.value].children, Output) != [] then Thrown(t)
      else Continue(w)
    case EnterInput(name, value) =>
      if w.cursor.None? then Thrown(t) else EnterArgument(w, name, value)
    case EnterVariableDefinition(variable, vtype) =>
      var d := DeclaredVariable(variable, vtype);
      Continue(if d.Some? then w.(vars := w.vars + [d.value]) else w)
    case LeaveOperation =>
      if w.cursor.None? then Continue(w) else Continue(LeaveOperationAt(w))
    case LeaveField(name) =>
      if w.cursor.None? || name == "__typename" then Continue(w) else Continue(Pop(w))
    case LeaveNested =>
      if w.cursor.None? then Continue(w) else Continue(Pop(w))
  }

  /** Entering a field or an inline fragment: the output child of the cursor labelled `name`, if any, becomes the cursor. */
  function EnterOutput(w: Walk, name: string): (o: Outcome)
    requires Sound(w) && w.cursor.Some?
    ensures o.Continue? && Follows(w, o.walk, false)
    ensures o.walk == w <==> NoChild(w.tree, w.cursor.value, Output, name)
    ensures o.walk != w ==> MovedTo(w, o.walk, Output, name)
                            && o.walk.tree.state[o.walk.cursor.value] == w.tree.state[o.walk.cursor.value].(selected := true)
  {
    match FindChild(w.tree, w.cursor.value, Output, name)
    case None => Continue(w)
    case Some(n) => Continue(Descend(w, n))
  }

  /**
    Entering an argument or an object field: the input child labelled `name`
    stores the literal and becomes the cursor; a literal with no such child
    throws, any other value with no such child is skipped.
  */
  function EnterArgument(w: Walk, name: string, value: Value): (o: Outcome)
    requires Sound(w) && w.cursor.Some?
    ensures o.Thrown? ==> o.tree == w.tree
    ensures o.Continue? ==> Follows(w, o.walk, false)
    ensures o.Thrown? <==> NoChild(w.tree, w.cursor.value, Input, name) && Literal(value).Some?
    ensures o.Continue? ==> (o.walk == w <==> NoChild(w.tree, w.cursor.value, Input, name))
    ensures o.Continue? && o.walk != w ==>
              && MovedTo(w, o.walk, Input, name)
              && var n := o.walk.cursor.value;
                 o.walk.tree.state[n] == w.tree.state[n].(selected := true, inputValue := Stored(w.tree.state[n].inputValue, value))
  {
    var t := w.tree;
    var found := FindChild(t, w.cursor.value, Input, name);
    if found.None? then (if Literal(value).Some? then Thrown(t) else Continue(w))
    else
      var n := found.value;
      var stored := if Literal(value).Some? then SetInput(t, n, Literal(value).value) else t;
      assert stored.state[n] == t.state[n].(inputValue := Stored(t.state[n].inputValue, value));
      Continue(Descend(w.(tree := stored), n))
  }

  /** Leaving a field, an argument or an inline fragment: the cursor pops to its parent. */
  function Pop(w: Walk): (r: Walk)
    requires Sound(w) && w.cursor.Some?
    ensures Follows(w, r, false) && r.tree == w.tree && r.vars == w.vars
  {
    w.(cursor := Up(w.tree, w.cursor.value))
  }

  /** Leaving an operation: the collected variables go to the cursor's node, then the cursor pops. */
  function LeaveOperationAt(w: Walk): (r: Walk)
    requires Sound(w) && w.cursor.Some?
    ensures Follows(w, r, true) && r.vars == w.vars && r.cursor == w.tree.info[w.cursor.value].parent
    ensures r.tree.info == w.tree.info && |r.tree.state| == |w.tree.state|
    ensures r.tree.state[w.cursor.value] == w.tree.state[w.cursor.value].(variables := w.vars)
    ensures OnlyAt(w.tree, r.tree, w.cursor.value)
  {
    var c := w.cursor.value;
    Walk(SetVariables(w.tree, c, w.vars), Up(w.tree, c), w.vars)
  }

  /** The visit: the callbacks in order, until one throws. */
  function Run(w: Walk, roots: seq<Handle>, evs: seq<Event>): (o: Outcome)
    requires Sound(w) && AllIn(w.tree, roots)
    ensures o.Continue? ==> Sound(o.walk) && o.walk.tree.info == w.tree.info
    ensures o.Thrown? ==> Valid(o.tree) && o.tree.info == w.tree.info
    decreases |evs|
  {
    if evs == [] then Continue(w)
    else match Step(w, roots, evs[0])
      case Thrown(t) => Thrown(t)
      case Continue(w1) => Run(w1, roots, evs[1..])
  }

  /** Running two event sequences one after the other is running their concatenation. */
  lemma {:induction false} RunAppend(w: Walk, roots: seq<Handle>, a: seq<Event>, b: seq<Event>)
    requires Sound(w) && AllIn(w.tree, roots)
    ensures Run(w, roots, a + b) == match Run(w, roots, a)
                                    case Thrown(t) => Thrown(t)
                                    case Continue(w1) => Run(w1, roots, b)
    decreases |a|
  {
    if a == [] {
      assert a + b == b;
    } else {
      assert (a + b)[0] == a[0] && (a + b)[1..] == a[1..] + b;
      match Step(w, roots, a[0])
      case Thrown(t) =>
      case Continue(w1) => RunAppend(w1, roots, a[1..], b);
    }
  }

  /** The walk from event `k` on: event `k` either throws or hands its walk to the events after it. */
  lemma RunFrom(w: Walk, roots: seq<Handle>, evs: seq<Event>, k: nat)
    requires Sound(w) && AllIn(w.tree, roots) && k < |evs|
    ensures Step(w, roots, evs[k]).Thrown? ==> Run(w, roots, evs[k..]) == Step(w, roots, evs[k])
    ensures Step(w, roots, evs[k]).Continue? ==> Run(w, roots, evs[k..]) == Run(Step(w, roots, evs[k]).walk, roots, evs[k + 1..])
  {
    assert evs[k..][0] == evs[k] && evs[k..][1..] == evs[k + 1..];
  }

  /** A callback that goes through leaves a sound walk over the same shape, from which the rest of the events runs. */
  lemma Advance(w: Walk, roots: seq<Handle>, evs: seq<Event>, k: nat, next: Walk)
    requires Sound(w) && AllIn(w.tree, roots) && k < |evs|
    requires Step(w, roots, evs[k]) == Continue(next)
    ensures Sound(next) && next.tree.info == w.tree.info && AllIn(next.tree, roots)
    ensures Run(next, roots, evs[k + 1..]) == Run(w, roots, evs[k..])
  {
    RunFrom(w, roots, evs, k);
  }

  /** One iteration of the loop over `globalNodes`: `clear()` then `toggle(true, false)`. */
  function ClearOne(t: Tree, r: Handle): (u: Tree)
    requires Valid(t) && r < |t.info|
    ensures Valid(u) && u.info == t.info
  {
    Select(Deselect(t, r), r)
  }

  /** The loop over `globalNodes` that runs before the walk, over its first `|roots|` iterations. */
  function ClearRoots(t: Tree, roots: seq<Handle>): (u: Tree)
    requires Valid(t) && AllIn(t, roots)
    ensures Valid(u) && u.info == t.info
  {
    if roots == [] then t else ClearOne(ClearRoots(t, roots[..|roots| - 1]), roots[|roots| - 1])
  }

  /**
    `documentToTree`: `None` is a document that does not parse, and the
    exception thrown by the parser leaves the tree untouched.
  */
  function Sync(t: Tree, roots: seq<Handle>, parsed: Option<Document>): (u: Tree)
    requires Valid(t) && AllIn(t, roots)
    ensures Valid(u) && u.info == t.info
    ensures parsed.None? ==> u == t
  {
    match parsed
    case None => t
    case Some(doc) => Run(Walk(ClearRoots(t, roots), None, []), roots, Visit(doc)).Final()
  }
}
