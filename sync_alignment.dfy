/**
  When the cursor of `documentToTree` stays aligned with the syntax tree.

  The enter callbacks move the cursor only when a name resolves to a child,
  while every leave but a `__typename` field's pops it. The `...Resolves`
  predicates say that every name of a piece of the document resolves below
  a node of the tree; under them, the walk over that piece ends with the
  cursor back where it started and the collected variables untouched, and
  an operation ends with its declared variables on its root.
*/
module SyncAlignment {
  import opened Common
  import opened GraphqlAst
  import opened SelectionTree
  import opened TreeSync
  import opened SyncProperties

  /** An argument or object field named `name` with value `value` resolves below `c`. */
  predicate InputResolves(t: Tree, c: Handle, name: string, value: Value)
    requires Valid(t) && c < |t.info|
    decreases value, 1
  {
    var found := FindChild(t, c, Input, name);
    found.Some? && ValueResolves(t, found.value, value)
  }

  /** Every object field inside `v` resolves, where the enclosing input node is `c`. */
  predicate ValueResolves(t: Tree, c: Handle, v: Value)
    requires Valid(t) && c < |t.info|
    decreases v, 0
  {
    match v
    case ListValue(vs) => forall i :: 0 <= i < |vs| ==> ValueResolves(t, c, vs[i])
    case ObjectValue(fields) => forall i :: 0 <= i < |fields| ==> InputResolves(t, c, fields[i].name, fields[i].value)
    case _ => true
  }

  predicate ArgumentsResolve(t: Tree, c: Handle, args: seq<Argument>)
    requires Valid(t) && c < |t.info|
  {
    forall i :: 0 <= i < |args| ==> InputResolves(t, c, args[i].name, args[i].value)
  }

  /** The arguments of directives reach the argument callback too. */
  predicate DirectivesResolve(t: Tree, c: Handle, dirs: seq<Directive>)
    requires Valid(t) && c < |t.info|
  {
    forall i :: 0 <= i < |dirs| ==> ArgumentsResolve(t, c, dirs[i].arguments)
  }

  /**
    Every field and type condition of `s` names an output child, except a bare
    `__typename` field that names none.
  */
  predicate SelectionResolves(t: Tree, c: Handle, s: Selection)
    requires Valid(t) && c < |t.info|
    decreases s
  {
    match s
    case Field(name, args, dirs, sels) =>
      var found := FindChild(t, c, Output, name);
      if name == "__typename" then found.None? && args == [] && dirs == [] && sels == []
      else
        && found.Some?
        && ArgumentsResolve(t, found.value, args) && DirectivesResolve(t, found.value, dirs)
        && forall i :: 0 <= i < |sels| ==> SelectionResolves(t, found.value, sels[i])
    case FragmentSpread(_, dirs) => DirectivesResolve(t, c, dirs)
    case InlineFragment(typeCondition, dirs, sels) =>
      && typeCondition.Some?
      && var found := FindChild(t, c, Output, typeCondition.value);
         && found.Some?
         && DirectivesResolve(t, found.value, dirs)
         && forall i :: 0 <= i < |sels| ==> SelectionResolves(t, found.value, sels[i])
  }

  predicate SelectionsResolve(t: Tree, c: Handle, sels: seq<Selection>)
    requires Valid(t) && c < |t.info|
  {
    forall i :: 0 <= i < |sels| ==> SelectionResolves(t, c, sels[i])
  }

  /** The variable entries an operation's definitions collect, in order; list types add none. */
  function Declared(vars: seq<VariableDefinition>): (r: seq<VarDecl>)
    ensures |r| <= |vars|
  {
    if vars == [] then []
    else
      var d := DeclaredVariable(vars[0].variable, vars[0].vtype);
      (if d.Some? then [d.value] else []) + Declared(vars[1..])
  }

  /** The walk went on, with the cursor back where it was and the collected variables untouched. */
  predicate Aligned(w: Walk, o: Outcome)
  {
    o.Continue? && o.walk.cursor == w.cursor && o.walk.vars == w.vars
  }

  /** Where a name resolves depends only on the tree's shape, not on what is selected. */
  lemma {:induction false} FirstMatchShape(t: Tree, u: Tree, hs: seq<Handle>, k: Kind, name: string)
    requires t.info == u.info && AllIn(t, hs)
    ensures FirstMatch(t, hs, k, name) == FirstMatch(u, hs, k, name)
  {
    if hs != [] {
      FirstMatchShape(t, u, hs[1..], k, name);
    }
  }

  lemma FindChildShape(t: Tree, u: Tree, h: Handle, k: Kind, name: string)
    requires Valid(t) && Valid(u) && t.info == u.info && h < |t.info|
    ensures FindChild(t, h, k, name) == FindChild(u, h, k, name)
  {
    FirstMatchShape(t, u, t.info[h].children, k, name);
  }

  /** Running `a` and then `b`, when `a` goes through. */
  lemma RunThen(w: Walk, roots: seq<Handle>, a: seq<Event>, b: seq<Event>)
    requires Sound(w) && AllIn(w.tree, roots) && Run(w, roots, a).Continue?
    ensures Sound(Run(w, roots, a).walk) && AllIn(Run(w, roots, a).walk.tree, roots)
    ensures Run(w, roots, a + b) == Run(Run(w, roots, a).walk, roots, b)
  {
    RunAppend(w, roots, a, b);
  }

  lemma RunOne(w: Walk, roots: seq<Handle>, e: Event)
    requires Sound(w) && AllIn(w.tree, roots)
    ensures Run(w, roots, [e]) == Step(w, roots, e)
  {
    assert [e][1..] == [];
  }

  /** The facts every alignment lemma assumes of the walk: a cursor, and the shape of `t0`. */
  ghost predicate At(w: Walk, roots: seq<Handle>, t0: Tree)
  {
    Sound(w) && AllIn(w.tree, roots) && Valid(t0) && w.tree.info == t0.info && w.cursor.Some?
  }

  lemma {:induction false} ValueAligned(w: Walk, roots: seq<Handle>, t0: Tree, v: Value)
    requires At(w, roots, t0) && ValueResolves(t0, w.cursor.value, v)
    ensures Aligned(w, Run(w, roots, ValueEvents(v)))
    decreases v, 0
  {
    match v
    case ListValue(vs) => ListAligned(w, roots, t0, vs);
    case ObjectValue(fields) => ObjectFieldsAligned(w, roots, t0, fields);
    case _ =>
  }

  lemma {:induction false} ListAligned(w: Walk, roots: seq<Handle>, t0: Tree, vs: seq<Value>)
    requires At(w, roots, t0) && forall i :: 0 <= i < |vs| ==> ValueResolves(t0, w.cursor.value, vs[i])
    ensures Aligned(w, Run(w, roots, ListEvents(vs)))
    decreases vs, 0
  {
    if vs != [] {
      ValueAligned(w, roots, t0, vs[0]);
      RunThen(w, roots, ValueEvents(vs[0]), ListEvents(vs[1..]));
      var w1 := Run(w, roots, ValueEvents(vs[0])).walk;
      assert forall i :: 0 <= i < |vs[1..]| ==> vs[1..][i] == vs[i + 1];
      ListAligned(w1, roots, t0, vs[1..]);
    }
  }

  /** One argument or object field: enter it, walk its value, leave it. */
  lemma {:induction false} InputAligned(w: Walk, roots: seq<Handle>, t0: Tree, name: string, value: Value)
    requires At(w, roots, t0) && InputResolves(t0, w.cursor.value, name, value)
    ensures Aligned(w, Run(w, roots, [EnterInput(name, value)] + ValueEvents(value) + [LeaveNested]))
    decreases value, 1
  {
    var c := w.cursor.value;
    var enter, values := EnterInput(name, value), ValueEvents(value);
    assert FindChild(w.tree, c, Input, name) == FindChild(t0, c, Input, name) by {
      FindChildShape(w.tree, t0, c, Input, name);
    }
    var n := FindChild(t0, c, Input, name).value;
    var w1 := Step(w, roots, enter).walk;
    assert Run(w, roots, [enter] + values) == Run(w1, roots, values) && At(w1, roots, t0) && w1.cursor == Some(n)
        && w1.vars == w.vars by {
      InputStep(w, roots, name, value);
      RunOne(w, roots, enter);
      RunThen(w, roots, [enter], values);
    }
    assert Aligned(w1, Run(w1, roots, values)) by {
      ValueAligned(w1, roots, t0, value);
    }
    var w2 := Run(w1, roots, values).walk;
    assert Run(w, roots, [enter] + values + [LeaveNested]) == Step(w2, roots, LeaveNested) by {
      RunThen(w, roots, [enter] + values, [LeaveNested]);
      RunOne(w2, roots, LeaveNested);
    }
    assert Step(w2, roots, LeaveNested) == Continue(w2.(cursor := Some(c))) by {
      PopBack(w2, roots, n, LeaveNested);
    }
  }

  /** Entering an input the cursor has a child for moves the cursor onto that child. */
  lemma InputStep(w: Walk, roots: seq<Handle>, name: string, value: Value)
    requires Sound(w) && AllIn(w.tree, roots) && w.cursor.Some?
    requires FindChild(w.tree, w.cursor.value, Input, name).Some?
    ensures var o := Step(w, roots, EnterInput(name, value));
            o.Continue? && o.walk.cursor == FindChild(w.tree, w.cursor.value, Input, name) && o.walk.vars == w.vars
  {
  }

  lemma {:induction false} ObjectFieldsAligned(w: Walk, roots: seq<Handle>, t0: Tree, fields: seq<ObjectField>)
    requires At(w, roots, t0)
    requires forall i :: 0 <= i < |fields| ==> InputResolves(t0, w.cursor.value, fields[i].name, fields[i].value)
    ensures Aligned(w, Run(w, roots, ObjectFieldsEvents(fields)))
    decreases fields
  {
    if fields != [] {
      var f := fields[0];
      var head, tail := [EnterInput(f.name, f.value)] + ValueEvents(f.value) + [LeaveNested], ObjectFieldsEvents(fields[1..]);
      assert Aligned(w, Run(w, roots, head)) by {
        InputAligned(w, roots, t0, f.name, f.value);
      }
      var w1 := Run(w, roots, head).walk;
      assert Run(w, roots, head + tail) == Run(w1, roots, tail) && At(w1, roots, t0) by {
        RunThen(w, roots, head, tail);
      }
      assert Aligned(w1, Run(w1, roots, tail)) by {
        assert forall i :: 0 <= i < |fields[1..]| ==> fields[1..][i] == fields[i + 1];
        ObjectFieldsAligned(w1, roots, t0, fields[1..]);
      }
    }
  }

  lemma {:induction false} ArgumentsAligned(w: Walk, roots: seq<Handle>, t0: Tree, args: seq<Argument>)
    requires At(w, roots, t0) && ArgumentsResolve(t0, w.cursor.value, args)
    ensures Aligned(w, Run(w, roots, ArgumentsEvents(args)))
    decreases args
  {
    if args != [] {
      var a := args[0];
      var head, tail := [EnterInput(a.name, a.value)] + ValueEvents(a.value) + [LeaveNested], ArgumentsEvents(args[1..]);
      assert Aligned(w, Run(w, roots, head)) by {
        InputAligned(w, roots, t0, a.name, a.value);
      }
      var w1 := Run(w, roots, head).walk;
      assert Run(w, roots, head + tail) == Run(w1, roots, tail) && At(w1, roots, t0) by {
        RunThen(w, roots, head, tail);
      }
      assert Aligned(w1, Run(w1, roots, tail)) by {
        assert forall i :: 0 <= i < |args[1..]| ==> args[1..][i] == args[i + 1];
        ArgumentsAligned(w1, roots, t0, args[1..]);
      }
    }
  }

  lemma {:induction false} DirectivesAligned(w: Walk, roots: seq<Handle>, t0: Tree, dirs: seq<Directive>)
    requires At(w, roots, t0) && DirectivesResolve(t0, w.cursor.value, dirs)
    ensures Aligned(w, Run(w, roots, DirectivesEvents(dirs)))
    decreases dirs
  {
    if dirs != [] {
      ArgumentsAligned(w, roots, t0, dirs[0].arguments);
      RunThen(w, roots, ArgumentsEvents(dirs[0].arguments), DirectivesEvents(dirs[1..]));
      var w1 := Run(w, roots, ArgumentsEvents(dirs[0].arguments)).walk;
      assert forall i :: 0 <= i < |dirs[1..]| ==> dirs[1..][i] == dirs[i + 1];
      DirectivesAligned(w1, roots, t0, dirs[1..]);
    }
  }

  lemma {:induction false} SelectionsAligned(w: Walk, roots: seq<Handle>, t0: Tree, sels: seq<Selection>)
    requires At(w, roots, t0) && SelectionsResolve(t0, w.cursor.value, sels)
    ensures Aligned(w, Run(w, roots, SelectionsEvents(sels)))
    decreases sels, 0
  {
    if sels != [] {
      SelectionAligned(w, roots, t0, sels[0]);
      RunThen(w, roots, SelectionEvents(sels[0]), SelectionsEvents(sels[1..]));
      var w1 := Run(w, roots, SelectionEvents(sels[0])).walk;
      assert forall i :: 0 <= i < |sels[1..]| ==> sels[1..][i] == sels[i + 1];
      SelectionsAligned(w1, roots, t0, sels[1..]);
    }
  }

  /** Two aligned pieces in a row are aligned. */
  lemma AlignedThen(w: Walk, roots: seq<Handle>, a: seq<Event>, b: seq<Event>)
    requires Sound(w) && AllIn(w.tree, roots) && Aligned(w, Run(w, roots, a))
    requires Aligned(Run(w, roots, a).walk, Run(Run(w, roots, a).walk, roots, b))
    ensures Aligned(w, Run(w, roots, a + b))
  {
    RunThen(w, roots, a, b);
  }

  /** The arguments, directives and selections of a resolved field or inline fragment, walked at its node. */
  lemma {:induction false} BodyAligned(w: Walk, roots: seq<Handle>, t0: Tree,
                                       args: seq<Argument>, dirs: seq<Directive>, sels: seq<Selection>)
    requires At(w, roots, t0)
    requires ArgumentsResolve(t0, w.cursor.value, args) && DirectivesResolve(t0, w.cursor.value, dirs)
    requires SelectionsResolve(t0, w.cursor.value, sels)
    ensures Aligned(w, Run(w, roots, ArgumentsEvents(args) + DirectivesEvents(dirs) + SelectionsEvents(sels)))
    decreases sels, 1
  {
    var a := ArgumentsEvents(args);
    ArgumentsAligned(w, roots, t0, args);
    var w1 := Run(w, roots, a).walk;
    DirectivesAligned(w1, roots, t0, dirs);
    AlignedThen(w, roots, a, DirectivesEvents(dirs));
    var w2 := Run(w, roots, a + DirectivesEvents(dirs)).walk;
    SelectionsAligned(w2, roots, t0, sels);
    AlignedThen(w, roots, a + DirectivesEvents(dirs), SelectionsEvents(sels));
  }

  /**
    A resolved field or inline fragment entered at child `n` of the cursor:
    its body is walked at `n`, then the leave pops back to the cursor.
  */
  lemma {:induction false} NestedAligned(w: Walk, roots: seq<Handle>, t0: Tree, enter: Event, n: Handle,
                                         args: seq<Argument>, dirs: seq<Directive>, sels: seq<Selection>, leave: Event)
    requires At(w, roots, t0) && n < |t0.info| && t0.info[n].parent == w.cursor
    requires Step(w, roots, enter) == Continue(Walk(Select(w.tree, n), Some(n), w.vars))
    requires leave == LeaveNested || (leave.LeaveField? && leave.name != "__typename")
    requires ArgumentsResolve(t0, n, args) && DirectivesResolve(t0, n, dirs) && SelectionsResolve(t0, n, sels)
    ensures Aligned(w, Run(w, roots, [enter] + ArgumentsEvents(args) + DirectivesEvents(dirs) + SelectionsEvents(sels) + [leave]))
    decreases sels, 2
  {
    var body := ArgumentsEvents(args) + DirectivesEvents(dirs) + SelectionsEvents(sels);
    var w1 := Walk(Select(w.tree, n), Some(n), w.vars);
    assert Run(w, roots, [enter] + body) == Run(w1, roots, body) by {
      RunOne(w, roots, enter);
      RunThen(w, roots, [enter], body);
    }
    assert Aligned(w1, Run(w1, roots, body)) by {
      BodyAligned(w1, roots, t0, args, dirs, sels);
    }
    var w2 := Run(w1, roots, body).walk;
    assert Run(w, roots, [enter] + body + [leave]) == Step(w2, roots, leave) by {
      RunThen(w, roots, [enter] + body, [leave]);
      RunOne(w2, roots, leave);
    }
    assert Step(w2, roots, leave) == Continue(w2.(cursor := w.cursor)) by {
      PopBack(w2, roots, n, leave);
    }
    Bracketed(enter, ArgumentsEvents(args), DirectivesEvents(dirs), SelectionsEvents(sels), leave);
  }

  /** Leaving the node `n` the cursor is on moves the cursor to its parent and changes nothing else. */
  lemma PopBack(w: Walk, roots: seq<Handle>, n: Handle, leave: Event)
    requires Sound(w) && AllIn(w.tree, roots) && w.cursor == Some(n)
    requires leave == LeaveNested || (leave.LeaveField? && leave.name != "__typename")
    ensures Step(w, roots, leave) == Continue(w.(cursor := w.tree.info[n].parent))
  {
  }

  lemma Bracketed(enter: Event, a: seq<Event>, d: seq<Event>, s: seq<Event>, leave: Event)
    ensures [enter] + a + d + s + [leave] == [enter] + (a + d + s) + [leave]
  {
  }

  lemma {:induction false} SelectionAligned(w: Walk, roots: seq<Handle>, t0: Tree, s: Selection)
    requires At(w, roots, t0) && SelectionResolves(t0, w.cursor.value, s)
    ensures Aligned(w, Run(w, roots, SelectionEvents(s)))
    decreases s, 3
  {
    var c := w.cursor.value;
    match s
    case Field(name, args, dirs, sels) =>
      FindChildShape(w.tree, t0, c, Output, name);
      if name == "__typename" {
        assert SelectionEvents(s) == [EnterField(name), LeaveField(name)];
        TypenameAligned(w, roots);
      } else {
        var n := FindChild(t0, c, Output, name).value;
        NestedAligned(w, roots, t0, EnterField(name), n, args, dirs, sels, LeaveField(name));
      }
    case FragmentSpread(_, dirs) =>
      DirectivesAligned(w, roots, t0, dirs);
    case InlineFragment(typeCondition, dirs, sels) =>
      FindChildShape(w.tree, t0, c, Output, typeCondition.value);
      var n := FindChild(t0, c, Output, typeCondition.value).value;
      InlineEvents(typeCondition, dirs, sels);
      NestedAligned(w, roots, t0, EnterInlineFragment(typeCondition), n, [], dirs, sels, LeaveNested);
  }

  /** A bare `__typename` field with no child of that label leaves the walk where it was. */
  lemma TypenameAligned(w: Walk, roots: seq<Handle>)
    requires Sound(w) && AllIn(w.tree, roots) && w.cursor.Some?
    requires FindChild(w.tree, w.cursor.value, Output, "__typename").None?
    ensures Aligned(w, Run(w, roots, [EnterField("__typename"), LeaveField("__typename")]))
  {
    var e1, e2 := EnterField("__typename"), LeaveField("__typename");
    assert Step(w, roots, e1) == Continue(w);
    assert [e1, e2][1..] == [e2] && [e2][1..] == [];
  }

  lemma InlineEvents(tc: Option<string>, dirs: seq<Directive>, sels: seq<Selection>)
    ensures SelectionEvents(InlineFragment(tc, dirs, sels))
              == [EnterInlineFragment(tc)] + ArgumentsEvents([]) + DirectivesEvents(dirs) + SelectionsEvents(sels) + [LeaveNested]
  {
    assert ArgumentsEvents([]) == [];
  }

  /** The default values and directive arguments of an operation's variable definitions all resolve below `c`. */
  predicate DefinitionsResolve(t: Tree, c: Handle, vars: seq<VariableDefinition>)
    requires Valid(t) && c < |t.info|
  {
    forall i :: 0 <= i < |vars| ==>
      && (vars[i].defaultValue.Some? ==> ValueResolves(t, c, vars[i].defaultValue.value))
      && DirectivesResolve(t, c, vars[i].directives)
  }

  /** One variable definition appends its entry, if any, and leaves the cursor where it is. */
  lemma VariableCollected(w: Walk, roots: seq<Handle>, t0: Tree, v: VariableDefinition)
    requires At(w, roots, t0)
    requires v.defaultValue.Some? ==> ValueResolves(t0, w.cursor.value, v.defaultValue.value)
    requires DirectivesResolve(t0, w.cursor.value, v.directives)
    ensures var o := Run(w, roots, VariableEvents(v));
            o.Continue? && o.walk.cursor == w.cursor && o.walk.vars == w.vars + Declared([v])
  {
    var enter := EnterVariableDefinition(v.variable, v.vtype);
    var defaults := match v.defaultValue case Some(dv) => ValueEvents(dv) case None => [];
    var dirs := DirectivesEvents(v.directives);
    RunOne(w, roots, enter);
    var w1 := Step(w, roots, enter).walk;
    assert [v][1..] == [];
    assert w1.vars == w.vars + Declared([v]);
    assert Aligned(w1, Run(w1, roots, defaults)) by {
      if v.defaultValue.Some? {
        ValueAligned(w1, roots, t0, v.defaultValue.value);
      }
    }
    assert Run(w, roots, [enter] + defaults) == Run(w1, roots, defaults) by {
      RunThen(w, roots, [enter], defaults);
    }
    var w2 := Run(w1, roots, defaults).walk;
    assert Run(w, roots, [enter] + defaults + dirs) == Run(w2, roots, dirs) && At(w2, roots, t0) by {
      RunThen(w, roots, [enter] + defaults, dirs);
    }
    DirectivesAligned(w2, roots, t0, v.directives);
  }

  lemma DeclaredAppend(before: seq<VarDecl>, v: VariableDefinition, vars: seq<VariableDefinition>)
    requires vars != [] && vars[0] == v
    ensures before + Declared([v]) + Declared(vars[1..]) == before + Declared(vars)
  {
    assert [v][1..] == [];
    assert Declared(vars) == Declared([v]) + Declared(vars[1..]);
  }

  /** The variable definitions append their entries to the collected list and leave the cursor where it is. */
  lemma {:induction false} VariablesCollected(w: Walk, roots: seq<Handle>, t0: Tree, vars: seq<VariableDefinition>)
    requires At(w, roots, t0) && DefinitionsResolve(t0, w.cursor.value, vars)
    ensures var o := Run(w, roots, VariablesEvents(vars));
            o.Continue? && o.walk.cursor == w.cursor && o.walk.vars == w.vars + Declared(vars)
    decreases vars
  {
    if vars == [] {
      assert w.vars + [] == w.vars;
    } else {
      var head, tail := VariableEvents(vars[0]), VariablesEvents(vars[1..]);
      assert VariablesEvents(vars) == head + tail;
      assert Run(w, roots, head).Continue? && Run(w, roots, head).walk.cursor == w.cursor
          && Run(w, roots, head).walk.vars == w.vars + Declared([vars[0]]) by {
        VariableCollected(w, roots, t0, vars[0]);
      }
      var w1 := Run(w, roots, head).walk;
      assert Run(w, roots, head + tail) == Run(w1, roots, tail) && At(w1, roots, t0) by {
        RunThen(w, roots, head, tail);
      }
      assert DefinitionsResolve(t0, w.cursor.value, vars[1..]) by {
        assert forall i :: 0 <= i < |vars[1..]| ==> vars[1..][i] == vars[i + 1];
      }
      VariablesCollected(w1, roots, t0, vars[1..]);
      DeclaredAppend(w.vars, vars[0], vars);
    }
  }

  lemma {:induction false} FirstNamedShape(t: Tree, u: Tree, hs: seq<Handle>, name: string)
    requires t.info == u.info && AllIn(t, hs)
    ensures FirstNamed(t, hs, name) == FirstNamed(u, hs, name)
  {
    if hs != [] {
      FirstNamedShape(t, u, hs[1..], name);
    }
  }

  /**
    An operation whose keyword names a root and whose every name resolves below
    it: the walk ends above the root, with exactly the operation's declared
    variables on the root, whatever was collected before. `t0` is any tree of
    the same shape as the walk's.
  */
  lemma OperationVariables(w: Walk, roots: seq<Handle>, t0: Tree, op: OperationType, vars: seq<VariableDefinition>,
                           dirs: seq<Directive>, sels: seq<Selection>)
    requires Sound(w) && Valid(t0) && w.tree.info == t0.info && AllIn(t0, roots) && Parentless(t0, roots)
    requires FindRoot(t0, roots, op).Some?
    requires var r := FindRoot(t0, roots, op).value;
             DefinitionsResolve(t0, r, vars) && DirectivesResolve(t0, r, dirs) && SelectionsResolve(t0, r, sels)
    ensures var o := Run(w, roots, DefinitionEvents(OperationDefinition(op, vars, dirs, sels)));
            var r := FindRoot(t0, roots, op).value;
            o.Continue? && o.walk.cursor.None? && o.walk.vars == Declared(vars)
            && o.walk.tree.state[r].variables == Declared(vars)
  {
    var r := FindRoot(t0, roots, op).value;
    var e1, vs, ds, ss := [EnterOperation(op)], VariablesEvents(vars), DirectivesEvents(dirs), SelectionsEvents(sels);
    var w1 := Walk(w.tree, Some(r), []);
    assert Run(w, roots, e1 + vs) == Run(w1, roots, vs) && At(w1, roots, t0) by {
      FirstNamedShape(w.tree, t0, roots, op.Keyword());
      RunOne(w, roots, EnterOperation(op));
      RunThen(w, roots, e1, vs);
    }
    assert Run(w1, roots, vs).Continue? && Run(w1, roots, vs).walk.cursor == Some(r)
        && Run(w1, roots, vs).walk.vars == Declared(vars) by {
      VariablesCollected(w1, roots, t0, vars);
      assert [] + Declared(vars) == Declared(vars);
    }
    var w2 := Run(w1, roots, vs).walk;
    assert Run(w, roots, e1 + vs + ds) == Run(w2, roots, ds) && At(w2, roots, t0) by {
      RunThen(w, roots, e1 + vs, ds);
    }
    assert Aligned(w2, Run(w2, roots, ds)) by {
      DirectivesAligned(w2, roots, t0, dirs);
    }
    var w3 := Run(w2, roots, ds).walk;
    assert Run(w, roots, e1 + vs + ds + ss) == Run(w3, roots, ss) && At(w3, roots, t0) by {
      RunThen(w, roots, e1 + vs + ds, ss);
    }
    assert Aligned(w3, Run(w3, roots, ss)) by {
      SelectionsAligned(w3, roots, t0, sels);
    }
    var w4 := Run(w3, roots, ss).walk;
    assert Run(w, roots, e1 + vs + ds + ss + [LeaveOperation]) == Step(w4, roots, LeaveOperation) by {
      RunThen(w, roots, e1 + vs + ds + ss, [LeaveOperation]);
      RunOne(w4, roots, LeaveOperation);
    }
    assert t0.info[r].parent.None? by {
      var i :| 0 <= i < |roots| && roots[i] == r;
    }
    LeaveOperationStep(w4, roots, r);
  }

  /** Leaving the operation stores the collected variables on its node and moves the cursor to the node's parent. */
  lemma LeaveOperationStep(w: Walk, roots: seq<Handle>, r: Handle)
    requires Sound(w) && AllIn(w.tree, roots) && w.cursor == Some(r)
    ensures var o := Step(w, roots, LeaveOperation);
            o.Continue? && o.walk.cursor == w.tree.info[r].parent && o.walk.vars == w.vars
            && o.walk.tree.state[r].variables == w.vars
  {
  }

  /**
    `documentToTree` on a document holding one such operation: its root ends
    selected, holding exactly the operation's declared variables.
  */
  lemma SyncOperation(t: Tree, roots: seq<Handle>, op: OperationType, vars: seq<VariableDefinition>,
                      dirs: seq<Directive>, sels: seq<Selection>)
    requires Valid(t) && AllIn(t, roots) && Parentless(t, roots)
    requires FindRoot(t, roots, op).Some?
    requires var r := FindRoot(t, roots, op).value;
             DefinitionsResolve(t, r, vars) && DirectivesResolve(t, r, dirs) && SelectionsResolve(t, r, sels)
    ensures var u := Sync(t, roots, Some(Document([OperationDefinition(op, vars, dirs, sels)])));
            var r := FindRoot(t, roots, op).value;
            u.state[r].selected && u.state[r].variables == Declared(vars)
  {
    var d := OperationDefinition(op, vars, dirs, sels);
    var doc := Document([d]);
    var r := FindRoot(t, roots, op).value;
    var w := Walk(ClearRoots(t, roots), None, []);
    assert Visit(doc) == DefinitionEvents(d) by {
      assert [d][1..] == [];
      assert DefinitionsEvents([d]) == DefinitionEvents(d) + DefinitionsEvents([]);
      assert DefinitionEvents(d) + [] == DefinitionEvents(d);
    }
    OperationVariables(w, roots, t, op, vars, dirs, sels);
    SyncCovered(t, roots, Some(doc));
    var i :| 0 <= i < |roots| && roots[i] == r;
  }

  /** The events of a one-field query whose field has one argument. */
  lemma OneArgumentEvents(op: OperationType, field: string, arg: string, v: Value)
    ensures Visit(Document([OperationDefinition(op, [], [], [Field(field, [Argument(arg, v)], [], [])])])) ==
              [EnterOperation(op), EnterField(field), EnterInput(arg, v)]
              + (ValueEvents(v) + [LeaveNested, LeaveField(field), LeaveOperation])
  {
    var sel := Field(field, [Argument(arg, v)], [], []);
    var d := OperationDefinition(op, [], [], [sel]);
    var input := [EnterInput(arg, v)] + ValueEvents(v) + [LeaveNested];
    assert Visit(Document([d])) == DefinitionEvents(d) by {
      assert [d][1..] == [];
      assert DefinitionsEvents([d]) == DefinitionEvents(d) + DefinitionsEvents([]);
    }
    assert SelectionsEvents([sel]) == [EnterField(field)] + input + [LeaveField(field)] by {
      assert [sel][1..] == [] && [Argument(arg, v)][1..] == [];
      assert ArgumentsEvents([Argument(arg, v)]) == input + [];
      assert SelectionsEvents([sel]) == SelectionEvents(sel) + SelectionsEvents([]);
      assert SelectionEvents(sel) == [EnterField(field)] + (input + []) + [] + [] + [LeaveField(field)];
    }
    assert DefinitionEvents(d) == [EnterOperation(op)] + [] + [] + SelectionsEvents([sel]) + [LeaveOperation];
    EventsShape(EnterOperation(op), EnterField(field), EnterInput(arg, v), ValueEvents(v),
                LeaveNested, LeaveField(field), LeaveOperation);
  }

  lemma EventsShape(e1: Event, e2: Event, e3: Event, vs: seq<Event>, l1: Event, l2: Event, l3: Event)
    ensures [e1] + [] + [] + ([e2] + ([e3] + vs + [l1]) + [l2]) + [l3] == [e1, e2, e3] + (vs + [l1, l2, l3])
  {
  }

  /** A literal for an input the cursor has no child for throws, with the tree as it was. */
  lemma LiteralWithoutChild(w: Walk, roots: seq<Handle>, name: string, value: Value)
    requires Sound(w) && AllIn(w.tree, roots) && w.cursor.Some? && Literal(value).Some?
    requires FindChild(w.tree, w.cursor.value, Input, name).None?
    ensures Step(w, roots, EnterInput(name, value)) == Thrown(w.tree)
  {
  }

  /**
    A literal argument whose name no input child carries throws inside the
    walk, after the clear: the tree is left with the roots' subtrees cleared
    and only what was matched before the throw selected again.
  */
  lemma ThrowAfterClear(t: Tree, roots: seq<Handle>, op: OperationType, field: string, arg: string, v: Value)
    requires Valid(t) && AllIn(t, roots) && FindRoot(t, roots, op).Some?
    requires FindChild(t, FindRoot(t, roots, op).value, Output, field).Some?
    requires FindChild(t, FindChild(t, FindRoot(t, roots, op).value, Output, field).value, Input, arg).None?
    requires Literal(v).Some?
    ensures var doc := Document([OperationDefinition(op, [], [], [Field(field, [Argument(arg, v)], [], [])])]);
            var n := FindChild(t, FindRoot(t, roots, op).value, Output, field).value;
            Sync(t, roots, Some(doc)) == Select(ClearRoots(t, roots), n)
  {
    var r := FindRoot(t, roots, op).value;
    var n := FindChild(t, r, Output, field).value;
    var u := ClearRoots(t, roots);
    var e1, e2, e3 := EnterOperation(op), EnterField(field), EnterInput(arg, v);
    var rest := ValueEvents(v) + [LeaveNested, LeaveField(field), LeaveOperation];
    OneArgumentEvents(op, field, arg, v);
    var w0, w1 := Walk(u, None, []), Walk(u, Some(r), []);
    assert Step(w0, roots, e1) == Continue(w1) by {
      FirstNamedShape(u, t, roots, op.Keyword());
    }
    var w2 := Walk(Select(u, n), Some(n), []);
    assert Step(w1, roots, e2) == Continue(w2) by {
      FindChildShape(u, t, r, Output, field);
    }
    assert Step(w2, roots, e3) == Thrown(Select(u, n)) by {
      FindChildShape(Select(u, n), t, n, Input, arg);
      LiteralWithoutChild(w2, roots, arg, v);
    }
    ThreeSteps(w0, roots, e1, e2, e3, rest);
  }

  /** Three events whose third throws: the rest of the events is never reached. */
  lemma ThreeSteps(w0: Walk, roots: seq<Handle>, e1: Event, e2: Event, e3: Event, rest: seq<Event>)
    requires Sound(w0) && AllIn(w0.tree, roots)
    requires Step(w0, roots, e1).Continue? && Step(Step(w0, roots, e1).walk, roots, e2).Continue?
    requires Step(Step(Step(w0, roots, e1).walk, roots, e2).walk, roots, e3).Thrown?
    ensures Run(w0, roots, [e1, e2, e3] + rest) == Step(Step(Step(w0, roots, e1).walk, roots, e2).walk, roots, e3)
  {
    var w1 := Step(w0, roots, e1).walk;
    var w2 := Step(w1, roots, e2).walk;
    var s1, s2 := [e2] + ([e3] + rest), [e3] + rest;
    assert [e1, e2, e3] + rest == [e1] + s1 by {
      Cons3(e1, e2, e3, rest);
    }
    assert Run(w0, roots, [e1] + s1) == Run(w1, roots, s1) by {
      RunCons(w0, roots, e1, s1);
    }
    assert Run(w1, roots, s1) == Run(w2, roots, s2) by {
      RunCons(w1, roots, e2, s2);
    }
    assert Run(w2, roots, s2) == Step(w2, roots, e3) by {
      RunCons(w2, roots, e3, rest);
    }
  }

  lemma Cons3(e1: Event, e2: Event, e3: Event, rest: seq<Event>)
    ensures [e1, e2, e3] + rest == [e1] + ([e2] + ([e3] + rest))
  {
  }

  /** The first event decides: a throw ends the walk, otherwise the rest runs from where it left the walk. */
  lemma RunCons(w: Walk, roots: seq<Handle>, e: Event, evs: seq<Event>)
    requires Sound(w) && AllIn(w.tree, roots)
    ensures Step(w, roots, e).Thrown? ==> Run(w, roots, [e] + evs) == Step(w, roots, e)
    ensures Step(w, roots, e).Continue? ==> Run(w, roots, [e] + evs) == Run(Step(w, roots, e).walk, roots, evs)
  {
    assert ([e] + evs)[0] == e && ([e] + evs)[1..] == evs;
  }
}
