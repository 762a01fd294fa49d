/**
  A worked example over a schema with `type Query { user(id: ID!): User }`,
  `type User { name: String, role: Role }` and `type Role { title: String }`.
*/
module Scenario {
  import opened Common
  import opened SelectionTree
  import opened DocumentGenerator
  import opened GeneratorProperties

  /**
    The explorer tree of the schema, everything selected, with `"42"` typed as
    the `id` argument and no variables on the query: node 0 is the query root,
    node 1 `user` with its `id` argument (node 2), `name` (node 3) and `role`
    (node 4), whose only field is `title` (node 5).
  */
  predicate Example(t: Tree)
  {
    && |t.info| == 6 && |t.state| == 6
    && t.info[0] == NodeInfo(Output, "query", false, OtherInput, [1], None)
    && t.info[1] == NodeInfo(Output, "user", false, OtherInput, [2, 3, 4], Some(0))
    && t.info[2] == NodeInfo(Input, "id", false, Scalar, [], Some(1))
    && t.info[3] == NodeInfo(Output, "name", false, OtherInput, [], Some(1))
    && t.info[4] == NodeInfo(Output, "role", false, OtherInput, [5], Some(1))
    && t.info[5] == NodeInfo(Output, "title", false, OtherInput, [], Some(4))
    && (forall h :: 0 <= h < 6 ==> t.state[h].selected)
    && t.state[0].variables == []
    && t.state[2].inputValue == "\"42\""
  }

  /** A tree of that shape is well formed. */
  lemma ExampleValid(t: Tree)
    requires Example(t)
    ensures Valid(t)
  {
    ExampleLinks(t);
    ExampleParents(t);
    ExampleInputs(t);
  }

  lemma ExampleLinks(t: Tree)
    requires Example(t)
    ensures forall h, i :: 0 <= h < |t.info| && 0 <= i < |t.info[h].children| ==>
              h < t.info[h].children[i] < |t.info| && t.info[t.info[h].children[i]].parent == Some(h)
  {
    forall h, i | 0 <= h < |t.info| && 0 <= i < |t.info[h].children|
      ensures h < t.info[h].children[i] < |t.info| && t.info[t.info[h].children[i]].parent == Some(h)
    {
      if h == 1 {
        assert i == 0 || i == 1 || i == 2;
      } else {
        assert h == 0 || h == 4;
      }
    }
  }

  lemma ExampleParents(t: Tree)
    requires Example(t)
    ensures forall n :: 0 <= n < |t.info| && t.info[n].parent.Some? ==>
              t.info[n].parent.value < n && n in t.info[t.info[n].parent.value].children
  {
    forall n | 0 <= n < |t.info| && t.info[n].parent.Some?
      ensures t.info[n].parent.value < n && n in t.info[t.info[n].parent.value].children
    {
      if n == 1 {
        assert t.info[0].children[0] == 1;
      } else if n == 2 || n == 3 || n == 4 {
        assert t.info[1].children[n - 2] == n;
      } else {
        assert t.info[4].children[0] == 5;
      }
    }
  }

  /** The only input node, `id`, has no children. */
  lemma ExampleInputs(t: Tree)
    requires Example(t)
    ensures forall h :: 0 <= h < |t.info| && t.info[h].kind == Input ==> t.info[h].children == []
  {
  }

  /** One such tree exists. */
  lemma ExampleExists()
    ensures Example(Tree(
      [ NodeInfo(Output, "query", false, OtherInput, [1], None),
        NodeInfo(Output, "user", false, OtherInput, [2, 3, 4], Some(0)),
        NodeInfo(Input, "id", false, Scalar, [], Some(1)),
        NodeInfo(Output, "name", false, OtherInput, [], Some(1)),
        NodeInfo(Output, "role", false, OtherInput, [5], Some(1)),
        NodeInfo(Output, "title", false, OtherInput, [], Some(4)) ],
      [ NodeState(true, "", []), NodeState(true, "", []), NodeState(true, "\"42\"", []),
        NodeState(true, "", []), NodeState(true, "", []), NodeState(true, "", []) ]))
  {
  }

  /** A block holding one emitted node. */
  lemma OneLineBlock(t: Tree, h: Handle, level: nat)
    requires Valid(t) && h < |t.info| && level > 0 && CheckingGeneration(t, h)
    ensures FieldString(t, [h], level) == " {\n" + Tabs(level) + NodeLine(t, h, level) + "\n" + Tabs(level - 1) + "}"
  {
    var x := NodeLine(t, h, level);
    assert FieldString(t, [h], level) == " {\n" + Join(Indented([x], level), "\n") + "\n" + Tabs(level - 1) + "}" by {
      RenderedOne(t, h, level);
    }
    assert Join(Indented([x], level), "\n") == Tabs(level) + x;
    BlockOfOne(Tabs(level), x, Tabs(level - 1));
  }

  lemma BlockOfOne(tabs: string, x: string, close: string)
    ensures " {\n" + (tabs + x) + "\n" + close + "}" == " {\n" + tabs + x + "\n" + close + "}"
  {
  }

  /** A block holding two emitted nodes, one per line. */
  lemma TwoLineBlock(t: Tree, a: Handle, b: Handle, level: nat)
    requires Valid(t) && a < |t.info| && b < |t.info| && level > 0
    requires CheckingGeneration(t, a) && CheckingGeneration(t, b)
    ensures FieldString(t, [a, b], level) ==
              " {\n" + Tabs(level) + NodeLine(t, a, level) + "\n" + Tabs(level) + NodeLine(t, b, level)
              + "\n" + Tabs(level - 1) + "}"
  {
    var x, y := NodeLine(t, a, level), NodeLine(t, b, level);
    assert FieldString(t, [a, b], level) == " {\n" + Join(Indented([x, y], level), "\n") + "\n" + Tabs(level - 1) + "}" by {
      RenderedPair(t, a, b, level);
    }
    JoinPair(x, y, level);
    BlockOfTwo(Tabs(level), x, y, Tabs(level - 1));
  }

  lemma BlockOfTwo(tabs: string, x: string, y: string, close: string)
    ensures " {\n" + (tabs + x + "\n" + tabs + y) + "\n" + close + "}" == " {\n" + tabs + x + "\n" + tabs + y + "\n" + close + "}"
  {
  }

  lemma RenderedPair(t: Tree, a: Handle, b: Handle, level: nat)
    requires Valid(t) && a < |t.info| && b < |t.info|
    requires CheckingGeneration(t, a) && CheckingGeneration(t, b)
    ensures Rendered(t, [a, b], level) == [NodeLine(t, a, level), NodeLine(t, b, level)]
  {
    assert [a, b] == [a] + [b];
    RenderedAppend(t, [a], [b], level);
    RenderedOne(t, a, level);
    RenderedOne(t, b, level);
  }

  lemma RenderedOne(t: Tree, h: Handle, level: nat)
    requires Valid(t) && h < |t.info| && CheckingGeneration(t, h)
    ensures Rendered(t, [h], level) == [NodeLine(t, h, level)]
  {
    assert [h][1..] == [];
  }

  lemma JoinPair(x: string, y: string, level: nat)
    ensures Join(Indented([x, y], level), "\n") == Tabs(level) + x + "\n" + Tabs(level) + y
  {
    var lines := Indented([x, y], level);
    assert lines[1..] == [Tabs(level) + y];
  }

  lemma TitleBlock(t: Tree)
    requires Example(t)
    ensures FieldString(t, [5], 3) == " {\n" + Tabs(3) + "title" + "\n" + Tabs(2) + "}"
  {
    ExampleValid(t);
    LeafLine(t, 5, 3);
    OneLineBlock(t, 5, 3);
  }

  /** The line of a node below the roots whose parent is not a union. */
  lemma PlainLine(t: Tree, h: Handle, level: nat)
    requires Valid(t) && h < |t.info| && level > 0 && t.info[h].parent.Some?
    requires !t.info[t.info[h].parent.value].unionType
    ensures AllIn(t, t.info[h].children)
    ensures NodeLine(t, h, level) ==
              t.info[h].name + ArgumentString(t, OfKind(t, t.info[h].children, Input), true)
              + FieldString(t, OfKind(t, t.info[h].children, Output), level + 1)
  {
    NestedLine(t, h, level);
  }

  lemma RoleLine(t: Tree)
    requires Example(t)
    ensures NodeLine(t, 4, 2) == "role" + (" {\n" + Tabs(3) + "title" + "\n" + Tabs(2) + "}")
  {
    ExampleValid(t);
    var block := " {\n" + Tabs(3) + "title" + "\n" + Tabs(2) + "}";
    assert FieldString(t, [5], 3) == block by {
      TitleBlock(t);
    }
    assert ArgumentString(t, [], true) == "" by {
      NoArguments(t);
    }
    assert NodeLine(t, 4, 2) == "role" + ArgumentString(t, [], true) + FieldString(t, [5], 3) by {
      PlainLine(t, 4, 2);
      RoleChildren(t);
    }
    EmptyMiddle("role", block);
  }

  lemma EmptyMiddle(x: string, y: string)
    ensures x + "" + y == x + y
  {
  }

  /** `role`'s only child is the `title` field. */
  lemma RoleChildren(t: Tree)
    requires Example(t)
    ensures OfKind(t, t.info[4].children, Input) == [] && OfKind(t, t.info[4].children, Output) == [5]
  {
    assert [5][1..] == [];
  }

  lemma NoArguments(t: Tree)
    requires Valid(t)
    ensures ArgumentString(t, [], true) == ""
  {
    assert ArgumentParts(t, []) == [];
  }

  lemma UserBlock(t: Tree)
    requires Example(t)
    ensures FieldString(t, [3, 4], 2) ==
              " {\n" + Tabs(2) + "name" + "\n" + Tabs(2) + ("role" + (" {\n" + Tabs(3) + "title" + "\n" + Tabs(2) + "}"))
              + "\n" + Tabs(1) + "}"
  {
    ExampleValid(t);
    assert NodeLine(t, 3, 2) == "name" by {
      LeafLine(t, 3, 2);
    }
    RoleLine(t);
    assert CheckingGeneration(t, 3) && CheckingGeneration(t, 4);
    TwoLineBlock(t, 3, 4, 2);
  }

  /** `user`'s children: the `id` argument, then the `name` and `role` fields. */
  lemma UserChildren(t: Tree)
    requires Example(t)
    ensures OfKind(t, t.info[1].children, Input) == [2] && OfKind(t, t.info[1].children, Output) == [3, 4]
  {
    assert [2, 3, 4][1..] == [3, 4] && [3, 4][1..] == [4] && [4][1..] == [];
    assert OfKind(t, [4], Input) == [] && OfKind(t, [4], Output) == [4];
    assert OfKind(t, [3, 4], Input) == [] && OfKind(t, [3, 4], Output) == [3, 4];
  }

  lemma UserArguments(t: Tree)
    requires Example(t)
    ensures ArgumentString(t, [2], true) == "(" + "id" + ": " + "\"42\"" + ")"
  {
    ExampleValid(t);
    assert [2][1..] == [];
    assert ArgumentParts(t, []) == [];
    assert ArgumentParts(t, [2]) == ArgumentPart(t, 2) + ArgumentParts(t, []);
    assert ArgumentParts(t, [2]) == ["id" + ": " + "\"42\""];
  }

  lemma UserLine(t: Tree)
    requires Example(t)
    ensures NodeLine(t, 1, 1) ==
              "user" + ("(" + "id" + ": " + "\"42\"" + ")")
              + (" {\n" + Tabs(2) + "name" + "\n" + Tabs(2) + ("role" + (" {\n" + Tabs(3) + "title" + "\n" + Tabs(2) + "}"))
                 + "\n" + Tabs(1) + "}")
  {
    ExampleValid(t);
    assert NodeLine(t, 1, 1) == "user" + ArgumentString(t, [2], true) + FieldString(t, [3, 4], 2) by {
      PlainLine(t, 1, 1);
      UserChildren(t);
    }
    UserArguments(t);
    UserBlock(t);
  }

  lemma QueryLine(t: Tree)
    requires Example(t)
    ensures NodeLine(t, 0, 0) ==
              "query" + (" {\n" + Tabs(1) + NodeLine(t, 1, 1) + "\n" + Tabs(0) + "}")
  {
    ExampleValid(t);
    assert NodeLine(t, 0, 0) == "query" + FieldString(t, [1], 1) by {
      RootLine(t, 0);
      assert OfKind(t, [1], Output) == [1];
      assert VariableString(t.state[0].variables) == "";
    }
    assert CheckingGeneration(t, 1) by {
      assert ActiveOutput(t, 1, t.info[1].children[1]);
    }
    OneLineBlock(t, 1, 1);
  }

  /**
    The generated query, one output line per source line: each block opens
    with ` {`, holds its selections one tab deeper and closes one tab shallower.
  */
  lemma GeneratedQuery(t: Tree)
    requires Example(t)
    ensures Generate(t, [0]) ==
              "query" + (" {\n"
                + Tabs(1) + ("user" + ("(" + "id" + ": " + "\"42\"" + ")") + (" {\n"
                  + Tabs(2) + "name" + "\n"
                  + Tabs(2) + ("role" + (" {\n"
                    + Tabs(3) + "title" + "\n"
                    + Tabs(2) + "}"))
                  + "\n" + Tabs(1) + "}"))
                + "\n" + Tabs(0) + "}")
  {
    ExampleValid(t);
    assert CheckingGeneration(t, 0) by {
      assert ActiveOutput(t, 0, t.info[0].children[0]);
    }
    var query := NodeLine(t, 0, 0);
    assert Rendered(t, [0], 0) == [query] by {
      RenderedOne(t, 0, 0);
    }
    assert Indented([query], 0) == [query] by {
      assert Tabs(0) + query == query;
    }
    QueryLine(t);
    UserLine(t);
  }
}
