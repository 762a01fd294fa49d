/** What the renderer of the selection tree guarantees about the text it produces. */
module GeneratorProperties {
  import opened Common
  import opened SelectionTree
  import opened DocumentGenerator

  /**
    The variable header of a root is empty exactly when no variable was
    collected; otherwise it is parenthesised and opens with the first entry.
  */
  lemma VariableStringShape(vars: seq<VarDecl>)
    ensures VariableString(vars) == "" <==> vars == []
    ensures vars != [] ==>
              var s, first := VariableString(vars), "$" + vars[0].name + ": " + TypeText(vars[0].typeText);
              |s| >= |first| + 2 && s[0] == '(' && s[|s| - 1] == ')' && s[1..|first| + 1] == first
  {
    if vars != [] {
      var entries := VariableEntries(vars);
      var body := Join(entries, ", ");
      JoinPrefix(entries, ", ");
      assert VariableString(vars) == "(" + body + ")";
      assert ("(" + body + ")")[1..|entries[0]| + 1] == body[..|entries[0]|];
    }
  }

  /** The nodes of `hs` that `checkingGeneration` lets through, in order. */
  function Emitted(t: Tree, hs: seq<Handle>): (r: seq<Handle>)
    requires Valid(t) && AllIn(t, hs)
    ensures AllIn(t, r) && |r| <= |hs|
    ensures forall i :: 0 <= i < |r| ==> r[i] in hs && CheckingGeneration(t, r[i])
    ensures forall x :: x in hs && CheckingGeneration(t, x) ==> x in r
  {
    if hs == [] then []
    else (if CheckingGeneration(t, hs[0]) then [hs[0]] else []) + Emitted(t, hs[1..])
  }

  /**
    A node of the list gets a line of its own in the output exactly when it
    is selected and is not an operation root without an active child.
  */
  lemma EmittedIff(t: Tree, hs: seq<Handle>, h: Handle, level: nat)
    requires Valid(t) && AllIn(t, hs) && h < |t.info|
    ensures h in Emitted(t, hs) <==>
              h in hs && t.state[h].selected && (!IsOperationLabel(t.info[h].name) || HasActiveChild(t, h))
    ensures h in Emitted(t, hs) ==> NodeLine(t, h, level) in Rendered(t, hs, level)
    ensures Rendered(t, [h], level)
              == if t.state[h].selected && (!IsOperationLabel(t.info[h].name) || HasActiveChild(t, h))
                 then [NodeLine(t, h, level)] else []
  {
    if h in Emitted(t, hs) {
      LineOf(t, hs, h, level);
    }
    assert Rendered(t, [h], level) == (if CheckingGeneration(t, h) then [NodeLine(t, h, level)] else []) by {
      RenderedCons(t, [h], level);
      assert [h][1..] == [];
    }
  }

  lemma LineOf(t: Tree, hs: seq<Handle>, h: Handle, level: nat)
    requires Valid(t) && AllIn(t, hs) && h in Emitted(t, hs)
    ensures NodeLine(t, h, level) in Rendered(t, hs, level)
  {
    var emitted := Emitted(t, hs);
    var j := IndexOf(emitted, h);
    RenderedLines(t, hs, level);
    assert Rendered(t, hs, level)[j] == NodeLine(t, emitted[j], level);
  }

  /** Emitting a concatenation emits each part in turn: the order of the nodes is kept. */
  lemma {:induction false} EmittedAppend(t: Tree, a: seq<Handle>, b: seq<Handle>)
    requires Valid(t) && AllIn(t, a) && AllIn(t, b)
    ensures AllIn(t, a + b)
    ensures Emitted(t, a + b) == Emitted(t, a) + Emitted(t, b)
  {
    assert AllIn(t, a + b);
    if a == [] {
      assert a + b == b;
    } else {
      assert (a + b)[1..] == a[1..] + b;
      EmittedAppend(t, a[1..], b);
      var head := if CheckingGeneration(t, a[0]) then [a[0]] else [];
      assert Emitted(t, a + b) == head + (Emitted(t, a[1..]) + Emitted(t, b));
      HandlesAssoc(head, Emitted(t, a[1..]), Emitted(t, b));
    }
  }

  /** The line of an operation root: its label, its variables and its block one level down. */
  lemma RootLine(t: Tree, h: Handle)
    requires Valid(t) && h < |t.info| && t.info[h].parent.None?
    ensures NodeLine(t, h, 0) ==
              t.info[h].name + VariableString(t.state[h].variables)
              + FieldString(t, OfKind(t, t.info[h].children, Output), 1)
  {
    ChildrenAbove(t, h, t.info[h].children);
  }

  /**
    The line of a node below the roots: its label, written `... on label` when
    the parent's type is a union, then its arguments and its block one level down.
  */
  lemma NestedLine(t: Tree, h: Handle, level: nat)
    requires Valid(t) && h < |t.info| && level > 0
    ensures AllIn(t, t.info[h].children)
    ensures var inputs, outputs := OfKind(t, t.info[h].children, Input), OfKind(t, t.info[h].children, Output);
            && (ParentIsUnion(t, h) ==>
                  NodeLine(t, h, level)
                  == "... on " + t.info[h].name + ArgumentString(t, inputs, true) + FieldString(t, outputs, level + 1))
            && (!ParentIsUnion(t, h) ==>
                  NodeLine(t, h, level)
                  == t.info[h].name + ArgumentString(t, inputs, true) + FieldString(t, outputs, level + 1))
  {
    var cs := t.info[h].children;
    ChildrenAbove(t, h, cs);
    var inputs, outputs := OfKind(t, cs, Input), OfKind(t, cs, Output);
    assert NodeLine(t, h, level) == NodeName(t, h) + ArgumentString(t, inputs, true) + FieldString(t, outputs, level + 1);
  }

  /** A node with no children renders as its label. */
  lemma LeafLine(t: Tree, h: Handle, level: nat)
    requires Valid(t) && h < |t.info| && level > 0 && t.info[h].children == [] && t.info[h].parent.Some?
    requires !t.info[t.info[h].parent.value].unionType
    ensures NodeLine(t, h, level) == t.info[h].name
  {
    assert OfKind(t, [], Output) == [] && OfKind(t, [], Input) == [];
    assert Rendered(t, [], level + 1) == [];
    assert ArgumentParts(t, []) == [];
  }

  /** `selectedNodes` holds exactly one line per emitted node, in the order of `hs`. */
  lemma {:induction false} RenderedLines(t: Tree, hs: seq<Handle>, level: nat)
    requires Valid(t) && AllIn(t, hs)
    ensures |Rendered(t, hs, level)| == |Emitted(t, hs)|
    ensures forall i :: 0 <= i < |Emitted(t, hs)| ==> Rendered(t, hs, level)[i] == NodeLine(t, Emitted(t, hs)[i], level)
  {
    if hs != [] {
      var lines, emitted := Rendered(t, hs, level), Emitted(t, hs);
      var tail, emittedTail := Rendered(t, hs[1..], level), Emitted(t, hs[1..]);
      RenderedLines(t, hs[1..], level);
      assert lines == (if CheckingGeneration(t, hs[0]) then [NodeLine(t, hs[0], level)] else []) + tail by {
        RenderedCons(t, hs, level);
      }
      assert emitted == (if CheckingGeneration(t, hs[0]) then [hs[0]] else []) + emittedTail;
      if CheckingGeneration(t, hs[0]) {
        LinesCons(t, hs[0], tail, emittedTail, level);
      } else {
        assert lines == tail && emitted == emittedTail;
      }
    }
  }

  /** Prepending an emitted node and its line keeps the lines paired with the nodes. */
  lemma LinesCons(t: Tree, h: Handle, lines: seq<string>, emitted: seq<Handle>, level: nat)
    requires Valid(t) && h < |t.info| && AllIn(t, emitted) && |lines| == |emitted|
    requires forall i :: 0 <= i < |emitted| ==> lines[i] == NodeLine(t, emitted[i], level)
    ensures forall i :: 0 <= i < |emitted| + 1 ==> ([NodeLine(t, h, level)] + lines)[i] == NodeLine(t, ([h] + emitted)[i], level)
  {
    var line := NodeLine(t, h, level);
    forall i | 0 <= i < |emitted| + 1
      ensures ([line] + lines)[i] == NodeLine(t, ([h] + emitted)[i], level)
    {
      if i > 0 {
        ConsAt(line, h, lines, emitted, i);
      }
    }
  }

  lemma ConsAt(x: string, y: Handle, xs: seq<string>, ys: seq<Handle>, i: nat)
    requires 0 < i <= |xs| && |xs| == |ys|
    ensures ([x] + xs)[i] == xs[i - 1] && ([y] + ys)[i] == ys[i - 1]
  {
  }

  lemma {:induction false} RenderedAppend(t: Tree, a: seq<Handle>, b: seq<Handle>, level: nat)
    requires Valid(t) && AllIn(t, a) && AllIn(t, b)
    ensures Rendered(t, a + b, level) == Rendered(t, a, level) + Rendered(t, b, level)
  {
    if a == [] {
      assert a + b == b;
    } else {
      var head := if CheckingGeneration(t, a[0]) then [NodeLine(t, a[0], level)] else [];
      var rest, rb := Rendered(t, a[1..], level), Rendered(t, b, level);
      assert Rendered(t, a + b, level) == head + (rest + rb) by {
        RenderedConsAppend(t, a, b, level);
        RenderedAppend(t, a[1..], b, level);
      }
      assert Rendered(t, a, level) == head + rest by {
        RenderedCons(t, a, level);
      }
      LinesAssoc(head, rest, rb);
    }
  }

  lemma RenderedConsAppend(t: Tree, a: seq<Handle>, b: seq<Handle>, level: nat)
    requires Valid(t) && AllIn(t, a) && AllIn(t, b) && a != []
    ensures Rendered(t, a + b, level)
              == (if CheckingGeneration(t, a[0]) then [NodeLine(t, a[0], level)] else []) + Rendered(t, a[1..] + b, level)
  {
    assert (a + b)[0] == a[0] && (a + b)[1..] == a[1..] + b;
    RenderedCons(t, a + b, level);
  }

  lemma LinesAssoc(x: seq<string>, y: seq<string>, z: seq<string>)
    ensures x + (y + z) == x + y + z
  {
  }

  lemma RenderedCons(t: Tree, hs: seq<Handle>, level: nat)
    requires Valid(t) && AllIn(t, hs) && hs != []
    ensures Rendered(t, hs, level)
              == (if CheckingGeneration(t, hs[0]) then [NodeLine(t, hs[0], level)] else []) + Rendered(t, hs[1..], level)
  {
  }

  /** A selected operation root with nothing active below it leaves no trace in the document. */
  lemma OperationOmitted(t: Tree, roots: seq<Handle>, i: nat)
    requires Valid(t) && AllIn(t, roots) && i < |roots|
    requires t.state[roots[i]].selected && IsOperationLabel(t.info[roots[i]].name)
    requires !HasActiveChild(t, roots[i])
    ensures Generate(t, roots) == Generate(t, roots[..i] + roots[i + 1..])
  {
    var before, after := roots[..i], roots[i + 1..];
    assert roots == before + [roots[i]] + after;
    RenderedAppend(t, before + [roots[i]], after, 0);
    RenderedAppend(t, before, [roots[i]], 0);
    RenderedAppend(t, before, after, 0);
    assert !CheckingGeneration(t, roots[i]);
    assert [roots[i]][1..] == [];
    assert Rendered(t, [roots[i]], 0) == [];
    assert Rendered(t, roots, 0) == Rendered(t, before + after, 0);
    SameLines(t, roots, before + after, 0);
  }

  /**
    Operation roots are separated by a blank line: two groups of roots that
    each render something give their two documents joined by `\n\n`.
  */
  lemma GenerateAppend(t: Tree, a: seq<Handle>, b: seq<Handle>)
    requires Valid(t) && AllIn(t, a) && AllIn(t, b)
    requires Generate(t, a) != "" && Generate(t, b) != ""
    ensures Generate(t, a + b) == Generate(t, a) + "\n\n" + Generate(t, b)
  {
    var ra, rb := Rendered(t, a, 0), Rendered(t, b, 0);
    RenderedAppend(t, a, b, 0);
    RootsJoined(ra, rb);
  }

  lemma RootsJoined(ra: seq<string>, rb: seq<string>)
    requires ra != [] && rb != []
    ensures Join(Indented(ra + rb, 0), "\n\n") == Join(Indented(ra, 0), "\n\n") + "\n\n" + Join(Indented(rb, 0), "\n\n")
  {
    assert Indented(ra + rb, 0) == Indented(ra, 0) + Indented(rb, 0);
    JoinAppend(Indented(ra, 0), Indented(rb, 0), "\n\n");
  }

  lemma {:induction false} JoinAppend(a: seq<string>, b: seq<string>, sep: string)
    requires a != [] && b != []
    ensures Join(a + b, sep) == Join(a, sep) + sep + Join(b, sep)
    decreases |a|
  {
    if |a| == 1 {
      assert (a + b)[1..] == b;
    } else {
      assert (a + b)[1..] == a[1..] + b;
      JoinAppend(a[1..], b, sep);
    }
  }

  /** The text of a list of nodes depends only on the lines they render to. */
  lemma SameLines(t: Tree, a: seq<Handle>, b: seq<Handle>, level: nat)
    requires Valid(t) && AllIn(t, a) && AllIn(t, b)
    requires Rendered(t, a, level) == Rendered(t, b, level)
    ensures FieldString(t, a, level) == FieldString(t, b, level)
  {
  }

  lemma {:induction false} JoinEmpty(parts: seq<string>, sep: string)
    requires parts != [] && parts[0] != ""
    ensures Join(parts, sep) != "" && Join(parts, sep)[0] == parts[0][0]
  {
  }

  /**
    Below the roots, the children's text is a block: empty exactly when no
    child is emitted, otherwise ` {`, a line per child indented by `level`
    tabs, and the closing brace indented one tab less.
  */
  lemma BlockLayout(t: Tree, hs: seq<Handle>, level: nat)
    requires Valid(t) && AllIn(t, hs) && level > 0
    ensures FieldString(t, hs, level) == "" <==> Emitted(t, hs) == []
    ensures Emitted(t, hs) != [] ==>
              var s := FieldString(t, hs, level);
              var close := "\n" + Tabs(level - 1) + "}";
              |s| >= 3 + level + |close|
              && s[..3 + level] == " {\n" + Tabs(level)
              && s[|s| - |close|..] == close
  {
    var lines := Rendered(t, hs, level);
    assert |lines| == |Emitted(t, hs)| by { RenderedLines(t, hs, level); }
    if lines != [] {
      BlockShape(lines, level);
    }
  }

  lemma BlockShape(lines: seq<string>, level: nat)
    requires lines != [] && level > 0
    ensures var s := " {\n" + Join(Indented(lines, level), "\n") + "\n" + Tabs(level - 1) + "}";
            var close := "\n" + Tabs(level - 1) + "}";
            |s| >= 3 + level + |close|
            && s[..3 + level] == " {\n" + Tabs(level)
            && s[|s| - |close|..] == close
  {
    var tabbed := Indented(lines, level);
    JoinPrefix(tabbed, "\n");
    BlockText(Join(tabbed, "\n"), level);
  }

  /** The text of a non-empty block, given its body starts with `level` tabs. */
  lemma BlockText(body: string, level: nat)
    requires level > 0 && |body| >= level && body[..level] == Tabs(level)
    ensures var s := " {\n" + body + "\n" + Tabs(level - 1) + "}";
            var close := "\n" + Tabs(level - 1) + "}";
            |s| >= 3 + level + |close|
            && s[..3 + level] == " {\n" + Tabs(level)
            && s[|s| - |close|..] == close
  {
    var close := "\n" + Tabs(level - 1) + "}";
    var s := " {\n" + body + "\n" + Tabs(level - 1) + "}";
    assert s == " {\n" + body + close;
    assert s[..3 + level] == " {\n" + body[..level];
    assert s[|s| - |close|..] == close;
  }

  lemma {:induction false} JoinPrefix(parts: seq<string>, sep: string)
    requires parts != []
    ensures |Join(parts, sep)| >= |parts[0]| && Join(parts, sep)[..|parts[0]|] == parts[0]
  {
  }

  /** The input nodes that contribute an entry to an argument string. */
  predicate Contributes(t: Tree, h: Handle)
    requires h < |t.info| && |t.state| == |t.info|
  {
    t.state[h].selected && t.info[h].inputClass in {Scalar, Enum, InputObject}
  }

  lemma {:induction false} ArgumentPartsEmpty(t: Tree, hs: seq<Handle>)
    requires Valid(t) && AllIn(t, hs)
    ensures ArgumentParts(t, hs) == [] <==> forall i :: 0 <= i < |hs| ==> !Contributes(t, hs[i])
    ensures ArgumentParts(t, hs) != [] ==> ArgumentParts(t, hs)[0] != ""
  {
    if hs != [] {
      ArgumentPartsEmpty(t, hs[1..]);
    }
  }

  /**
    An argument string is empty exactly when no input node is selected with a
    scalar, enum or input-object type; only the first level is parenthesised.
  */
  lemma ArgumentStringShape(t: Tree, hs: seq<Handle>)
    requires Valid(t) && AllIn(t, hs)
    ensures ArgumentString(t, hs, false) == "" <==> forall i :: 0 <= i < |hs| ==> !Contributes(t, hs[i])
    ensures ArgumentString(t, hs, true) ==
              if ArgumentString(t, hs, false) == "" then "" else "(" + ArgumentString(t, hs, false) + ")"
  {
    ArgumentPartsEmpty(t, hs);
    if ArgumentParts(t, hs) != [] {
      JoinEmpty(ArgumentParts(t, hs), ", ");
    }
  }

  /** The entries of a concatenation are the entries of each part, in children order. */
  lemma {:induction false} ArgumentPartsAppend(t: Tree, a: seq<Handle>, b: seq<Handle>)
    requires Valid(t) && AllIn(t, a) && AllIn(t, b)
    ensures AllIn(t, a + b)
    ensures ArgumentParts(t, a + b) == ArgumentParts(t, a) + ArgumentParts(t, b)
  {
    assert AllIn(t, a + b);
    if a == [] {
      assert a + b == b;
    } else {
      assert (a + b)[1..] == a[1..] + b;
      ArgumentPartsAppend(t, a[1..], b);
      var head := ArgumentPart(t, a[0]);
      assert ArgumentParts(t, a + b) == head + (ArgumentParts(t, a[1..]) + ArgumentParts(t, b));
      LinesAssoc(head, ArgumentParts(t, a[1..]), ArgumentParts(t, b));
    }
  }

  /**
    The entry of one input node: none unless it contributes; `label: value`
    for a scalar or an enum, with the stored value verbatim; `label: { … }`
    around the unparenthesised entries of its children for an input object.
  */
  lemma ArgumentEntry(t: Tree, h: Handle)
    requires Valid(t) && h < |t.info|
    ensures AllIn(t, t.info[h].children)
    ensures var n := t.info[h];
            && (!Contributes(t, h) ==> ArgumentParts(t, [h]) == [])
            && (Contributes(t, h) && n.inputClass != InputObject ==>
                  ArgumentParts(t, [h]) == [n.name + ": " + t.state[h].inputValue])
            && (Contributes(t, h) && n.inputClass == InputObject ==>
                  ArgumentParts(t, [h]) == [n.name + ": { " + ArgumentString(t, n.children, false) + " }"])
  {
    ChildrenAbove(t, h, t.info[h].children);
    assert [h][1..] == [];
    assert ArgumentParts(t, [h]) == ArgumentPart(t, h) + ArgumentParts(t, []);
  }
}
