/**
  The enter and leave callbacks of `documentToTree`, one rule each, stated
  through the labels of the cursor's children rather than through the
  lookup functions that compute them.
*/
module CallbackRules {
  import opened Common
  import opened GraphqlAst
  import opened SelectionTree
  import opened TreeSync
  import opened DocumentGenerator
  import opened GeneratorProperties

  /** Child `i` of `h` has kind `k` and label `name`. */
  predicate Labelled(t: Tree, h: Handle, i: nat, k: Kind, name: string)
    requires Valid(t) && h < |t.info| && i < |t.info[h].children|
  {
    var c := t.info[h].children[i];
    ChildrenAbove(t, h, [c]);
    t.info[c].kind == k && t.info[c].name == name
  }

  /** Child `i` of `h` is the first child with kind `k` and label `name`. */
  predicate FirstLabelled(t: Tree, h: Handle, i: nat, k: Kind, name: string)
    requires Valid(t) && h < |t.info| && i < |t.info[h].children|
  {
    Labelled(t, h, i, k, name) && forall j :: 0 <= j < i ==> !Labelled(t, h, j, k, name)
  }

  /** `FindChild` finds exactly the first child with the kind and label. */
  lemma FindChildFirst(t: Tree, h: Handle, k: Kind, name: string)
    requires Valid(t) && h < |t.info|
    ensures var cs := t.info[h].children;
            && (FindChild(t, h, k, name).None? <==> forall i :: 0 <= i < |cs| ==> !Labelled(t, h, i, k, name))
            && forall i :: 0 <= i < |cs| && FirstLabelled(t, h, i, k, name) ==> FindChild(t, h, k, name) == Some(cs[i])
  {
    var cs := t.info[h].children;
    forall i | 0 <= i < |cs|
      ensures Labelled(t, h, i, k, name) <==> t.info[cs[i]].kind == k && t.info[cs[i]].name == name
    {
      ChildrenAbove(t, h, [cs[i]]);
    }
    forall i | 0 <= i < |cs| && FirstLabelled(t, h, i, k, name)
      ensures FindChild(t, h, k, name) == Some(cs[i])
    {
      var j := FirstMatch(t, cs, k, name).value;
      assert !(j < i) && !(i < j);
    }
  }

  /**
    Entering an operation: the collected variables are reset, the cursor moves
    to the first root labelled with the operation's keyword (undefined when
    there is none), and no node changes.
  */
  lemma EnterOperationRule(w: Walk, roots: seq<Handle>, op: OperationType)
    requires Sound(w) && AllIn(w.tree, roots)
    ensures var o := Step(w, roots, EnterOperation(op));
            && o.Continue? && o.walk.tree == w.tree && o.walk.vars == []
            && (o.walk.cursor.None? <==> forall i :: 0 <= i < |roots| ==> w.tree.info[roots[i]].name != op.Keyword())
            && forall i :: 0 <= i < |roots| && w.tree.info[roots[i]].name == op.Keyword()
                 && (forall j :: 0 <= j < i ==> w.tree.info[roots[j]].name != op.Keyword())
                 ==> o.walk.cursor == Some(roots[i])
  {
    assert Step(w, roots, EnterOperation(op)) == Continue(Walk(w.tree, FindRoot(w.tree, roots, op), []));
    FindRootFirst(w.tree, roots, op);
  }

  /** `FindRoot` finds exactly the first root labelled with the operation's keyword. */
  lemma FindRootFirst(t: Tree, roots: seq<Handle>, op: OperationType)
    requires AllIn(t, roots)
    ensures forall i :: 0 <= i < |roots| && t.info[roots[i]].name == op.Keyword()
              && (forall j :: 0 <= j < i ==> t.info[roots[j]].name != op.Keyword())
              ==> FindRoot(t, roots, op) == Some(roots[i])
  {
    forall i | 0 <= i < |roots| && t.info[roots[i]].name == op.Keyword()
                 && (forall j :: 0 <= j < i ==> t.info[roots[j]].name != op.Keyword())
      ensures FindRoot(t, roots, op) == Some(roots[i])
    {
      var j := FirstNamed(t, roots, op.Keyword()).value;
      assert !(j < i) && !(i < j);
    }
  }

  /**
    Entering a field below a cursor: the first output child with the field's
    label is selected, keeping its value and variables, and becomes the cursor;
    when there is none, nothing changes and the cursor stays put.
  */
  lemma EnterFieldRule(w: Walk, roots: seq<Handle>, name: string)
    requires Sound(w) && AllIn(w.tree, roots) && w.cursor.Some?
    ensures var o := Step(w, roots, EnterField(name));
            var t, h := w.tree, w.cursor.value;
            var cs := t.info[h].children;
            && o.Continue?
            && ((forall i :: 0 <= i < |cs| ==> !Labelled(t, h, i, Output, name)) ==> o.walk == w)
            && forall i :: 0 <= i < |cs| && FirstLabelled(t, h, i, Output, name) ==>
                 && o.walk.cursor == Some(cs[i]) && o.walk.vars == w.vars && o.walk.tree.info == t.info
                 && o.walk.tree.state[cs[i]] == t.state[cs[i]].(selected := true)
                 && OnlyAt(t, o.walk.tree, cs[i])
  {
    FindChildFirst(w.tree, w.cursor.value, Output, name);
  }

  /**
    Entering an inline fragment below a cursor: with a type condition it acts
    as a field labelled with the condition's type; without one, the lookup
    throws exactly when the cursor has an output child to test, and otherwise
    nothing changes.
  */
  lemma EnterInlineFragmentRule(w: Walk, roots: seq<Handle>, typeCondition: Option<string>)
    requires Sound(w) && AllIn(w.tree, roots) && w.cursor.Some?
    ensures var o := Step(w, roots, EnterInlineFragment(typeCondition));
            var t, h := w.tree, w.cursor.value;
            var cs := t.info[h].children;
            && (typeCondition.None? ==>
                  && (o.Thrown? <==> exists i :: 0 <= i < |cs| && t.info[cs[i]].kind == Output)
                  && (o.Thrown? ==> o.tree == t)
                  && (o.Continue? ==> o.walk == w))
            && (typeCondition.Some? ==>
                  && o.Continue?
                  && ((forall i :: 0 <= i < |cs| ==> !Labelled(t, h, i, Output, typeCondition.value)) ==> o.walk == w)
                  && forall i :: 0 <= i < |cs| && FirstLabelled(t, h, i, Output, typeCondition.value) ==>
                       && o.walk.cursor == Some(cs[i]) && o.walk.vars == w.vars && o.walk.tree.info == t.info
                       && o.walk.tree.state[cs[i]] == t.state[cs[i]].(selected := true)
                       && OnlyAt(t, o.walk.tree, cs[i]))
  {
    var t, h := w.tree, w.cursor.value;
    var cs := t.info[h].children;
    if typeCondition.Some? {
      FindChildFirst(t, h, Output, typeCondition.value);
    } else {
      ChildrenAbove(t, h, cs);
      var outputs := OfKind(t, cs, Output);
      if outputs != [] {
        var i := IndexOf(cs, outputs[0]);
        assert t.info[cs[i]].kind == Output;
      } else {
        assert forall i :: 0 <= i < |cs| ==> t.info[cs[i]].kind != Output;
      }
    }
  }

  /**
    Entering an argument or object field below a cursor that has no input
    child of that label: a literal throws with the tree as it was, and a
    null, list or object value is skipped with nothing changed.
  */
  lemma EnterInputMissing(w: Walk, roots: seq<Handle>, name: string, value: Value)
    requires Sound(w) && AllIn(w.tree, roots) && w.cursor.Some?
    requires forall i :: 0 <= i < |w.tree.info[w.cursor.value].children| ==> !Labelled(w.tree, w.cursor.value, i, Input, name)
    ensures Step(w, roots, EnterInput(name, value)) == if Literal(value).Some? then Thrown(w.tree) else Continue(w)
  {
    FindChildFirst(w.tree, w.cursor.value, Input, name);
  }

  /**
    Entering an argument or object field whose label the cursor's `i`-th
    child is the first input child to carry: the child is selected, takes the
    literal's text as its value when the value is a literal, and becomes the
    cursor.
  */
  lemma EnterInputFound(w: Walk, roots: seq<Handle>, name: string, value: Value, i: nat)
    requires Sound(w) && AllIn(w.tree, roots) && w.cursor.Some?
    requires i < |w.tree.info[w.cursor.value].children| && FirstLabelled(w.tree, w.cursor.value, i, Input, name)
    ensures var o := Step(w, roots, EnterInput(name, value));
            var t, n := w.tree, w.tree.info[w.cursor.value].children[i];
            && o.Continue?
            && o.walk.cursor == Some(n) && o.walk.vars == w.vars && o.walk.tree.info == t.info
            && o.walk.tree.state[n].selected
            && o.walk.tree.state[n].inputValue ==
                 (if Literal(value).Some? then Literal(value).value else t.state[n].inputValue)
            && o.walk.tree.state[n].variables == t.state[n].variables
            && OnlyAt(t, o.walk.tree, n)
  {
    var t, c := w.tree, w.cursor.value;
    var n := t.info[c].children[i];
    assert FindChild(t, c, Input, name) == Some(n) by {
      FindChildFirst(t, c, Input, name);
    }
    var stored := if Literal(value).Some? then SetInput(t, n, Literal(value).value) else t;
    assert Step(w, roots, EnterInput(name, value)) == Continue(Walk(Select(stored, n), Some(n), w.vars));
    assert stored.state[n].variables == t.state[n].variables;
  }

  /** A variable definition adds its entry, if it has one, to the collected list and changes nothing else. */
  lemma VariableDefinitionRule(w: Walk, roots: seq<Handle>, variable: string, vtype: TypeRef)
    requires Sound(w) && AllIn(w.tree, roots)
    ensures var o := Step(w, roots, EnterVariableDefinition(variable, vtype));
            && o.Continue? && o.walk.tree == w.tree && o.walk.cursor == w.cursor
            && (vtype.ListType? ==> o.walk.vars == w.vars)
            && (vtype.NamedType? ==> o.walk.vars == w.vars + [VarDecl(variable, Some(vtype.name))])
            && (vtype.NonNullType? && vtype.ofType.NamedType? ==>
                  o.walk.vars == w.vars + [VarDecl(variable, Some(vtype.ofType.name + "!"))])
            && (vtype.NonNullType? && !vtype.ofType.NamedType? ==> o.walk.vars == w.vars + [VarDecl(variable, None)])
  {
  }

  /**
    Leaving below a cursor: every leave moves the cursor to its parent
    (undefined above a root) except a `__typename` field's; only leaving an
    operation changes a node, storing the collected variables on the cursor.
  */
  lemma LeaveRule(w: Walk, roots: seq<Handle>, e: Event)
    requires Sound(w) && AllIn(w.tree, roots) && w.cursor.Some?
    requires e.LeaveOperation? || e.LeaveField? || e.LeaveNested?
    ensures var o := Step(w, roots, e);
            var t, h := w.tree, w.cursor.value;
            && o.Continue? && o.walk.vars == w.vars
            && o.walk.cursor == (if e == LeaveField("__typename") then w.cursor else t.info[h].parent)
            && (e.LeaveOperation? ==>
                  o.walk.tree.info == t.info && OnlyAt(t, o.walk.tree, h)
                  && o.walk.tree.state[h] == t.state[h].(variables := w.vars))
            && (!e.LeaveOperation? ==> o.walk.tree == t)
  {
  }

  /**
    A field whose label names no output child of the cursor leaves the cursor
    where it is on enter, but its leave still pops: afterwards the cursor is
    one level too high (unless the field is `__typename`).
  */
  lemma UnmatchedFieldPops(w: Walk, roots: seq<Handle>, name: string)
    requires Sound(w) && AllIn(w.tree, roots) && w.cursor.Some? && name != "__typename"
    requires forall i :: 0 <= i < |w.tree.info[w.cursor.value].children| ==> !Labelled(w.tree, w.cursor.value, i, Output, name)
    ensures var o := Run(w, roots, [EnterField(name), LeaveField(name)]);
            o == Continue(w.(cursor := w.tree.info[w.cursor.value].parent))
  {
    FindChildFirst(w.tree, w.cursor.value, Output, name);
    assert Step(w, roots, EnterField(name)) == Continue(w);
    var evs := [EnterField(name), LeaveField(name)];
    assert evs[0] == EnterField(name) && evs[1..] == [LeaveField(name)];
    assert Run(w, roots, evs) == Run(w, roots, [LeaveField(name)]);
    var w2 := w.(cursor := w.tree.info[w.cursor.value].parent);
    assert Step(w, roots, LeaveField(name)) == Continue(w2);
    assert [LeaveField(name)][1..] == [];
    assert Run(w2, roots, []) == Continue(w2);
  }

  /**
    An unmatched field directly below an operation root: its leave takes the
    cursor above the root, so leaving the operation stores the collected
    variables nowhere and the tree is unchanged.
  */
  lemma UnmatchedDropsVariables(w: Walk, roots: seq<Handle>, name: string)
    requires Sound(w) && AllIn(w.tree, roots) && w.cursor.Some? && name != "__typename"
    requires w.tree.info[w.cursor.value].parent.None?
    requires forall i :: 0 <= i < |w.tree.info[w.cursor.value].children| ==> !Labelled(w.tree, w.cursor.value, i, Output, name)
    ensures Run(w, roots, [EnterField(name), LeaveField(name), LeaveOperation]) == Continue(w.(cursor := None))
  {
    var field, w2 := [EnterField(name), LeaveField(name)], w.(cursor := None);
    assert Run(w, roots, field) == Continue(w2) by {
      UnmatchedFieldPops(w, roots, name);
    }
    assert [EnterField(name), LeaveField(name), LeaveOperation] == field + [LeaveOperation];
    RunAppend(w, roots, field, [LeaveOperation]);
    LeaveAbove(w2, roots);
  }

  lemma LeaveAbove(w: Walk, roots: seq<Handle>)
    requires Sound(w) && AllIn(w.tree, roots) && w.cursor.None?
    ensures Run(w, roots, [LeaveOperation]) == Continue(w)
  {
    assert [LeaveOperation][1..] == [];
    assert Step(w, roots, LeaveOperation) == Continue(w);
  }

  /**
    An argument with a literal, synced onto the first scalar or enum input
    child with its label, is generated back as `label: text`: a variable
    `$id` on `id` comes back as `id: $id`.
  */
  lemma ArgumentRoundTrip(w: Walk, roots: seq<Handle>, name: string, value: Value, i: nat)
    requires Sound(w) && AllIn(w.tree, roots) && w.cursor.Some?
    requires i < |w.tree.info[w.cursor.value].children| && FirstLabelled(w.tree, w.cursor.value, i, Input, name)
    requires Literal(value).Some?
    requires var n := w.tree.info[w.tree.info[w.cursor.value].children[i]];
             n.inputClass == Scalar || n.inputClass == Enum
    ensures var o := Step(w, roots, EnterInput(name, value));
            && o.Continue?
            && ArgumentParts(o.walk.tree, [w.tree.info[w.cursor.value].children[i]]) == [name + ": " + Literal(value).value]
  {
    var t, h := w.tree, w.cursor.value;
    var c := t.info[h].children[i];
    EnterInputFound(w, roots, name, value, i);
    var u := Step(w, roots, EnterInput(name, value)).walk.tree;
    assert u.state[c].selected && u.state[c].inputValue == Literal(value).value;
    ArgumentEntry(u, c);
  }
}
