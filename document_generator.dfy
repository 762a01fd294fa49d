/**
  Tree to text: the console's renderer of the selection tree into query text
  (`createFieldStringFromNodes`, `checkingGeneration`, `createVariableString`,
  `createArgumentStringFromNode`). Every function here only reads the tree.
*/
module DocumentGenerator {
  import opened Common
  import opened SelectionTree

  predicate IsOperationLabel(name: string)
  {
    name == "query" || name == "mutation" || name == "subscription"
  }

  /** `checkingGeneration`: whether a node is emitted at all. */
  predicate CheckingGeneration(t: Tree, h: Handle)
    requires Valid(t) && h < |t.info|
  {
    var selected := t.state[h].selected;
    var isOperation := IsOperationLabel(t.info[h].name);
    (selected && !isOperation) || (selected && isOperation && HasActiveChild(t, h))
  }

  /** The parent's field type is a union, so the node is written as an inline fragment. */
  predicate ParentIsUnion(t: Tree, h: Handle)
    requires Valid(t) && h < |t.info|
  {
    t.info[h].parent.Some? && t.info[t.info[h].parent.value].unionType
  }

  function NodeName(t: Tree, h: Handle): string
    requires Valid(t) && h < |t.info|
  {
    if ParentIsUnion(t, h) then "... on " + t.info[h].name else t.info[h].name
  }

  /** `${v.type}` of a variable entry: an undefined type prints as `undefined`. */
  function TypeText(typeText: Option<string>): string
  {
    match typeText
    case Some(s) => s
    case None => "undefined"
  }

  function VariableEntries(vars: seq<VarDecl>): (r: seq<string>)
    ensures |r| == |vars|
    ensures forall i :: 0 <= i < |vars| ==> r[i] == "$" + vars[i].name + ": " + TypeText(vars[i].typeText)
  {
    if vars == [] then [] else ["$" + vars[0].name + ": " + TypeText(vars[0].typeText)] + VariableEntries(vars[1..])
  }

  /** `createVariableString`: the variable header of an operation root. */
  function VariableString(vars: seq<VarDecl>): string
  {
    if |vars| > 0 then "(" + Join(VariableEntries(vars), ", ") + ")" else ""
  }

  /** `createArgumentStringFromNode(nodes, firstLevel)`. */
  function ArgumentString(t: Tree, hs: seq<Handle>, firstLevel: bool): string
    requires Valid(t) && AllIn(t, hs)
    decreases |t.info| - Floor(t, hs), 2, 0
  {
    var parts := ArgumentParts(t, hs);
    if |parts| > 0 then (if firstLevel then "(" + Join(parts, ", ") + ")" else Join(parts, ", ")) else ""
  }

  /** The entries the loop of `createArgumentStringFromNode` collects, in order. */
  function ArgumentParts(t: Tree, hs: seq<Handle>): seq<string>
    requires Valid(t) && AllIn(t, hs)
    decreases |t.info| - Floor(t, hs), 1, |hs|
  {
    if hs == [] then []
    else
      var h := hs[0];
      FloorTail(t, hs);
      ArgumentPart(t, h) + ArgumentParts(t, hs[1..])
  }

  function ArgumentPart(t: Tree, h: Handle): seq<string>
    requires Valid(t) && h < |t.info|
    decreases |t.info| - h, 0, 0
  {
    var n := t.info[h];
    if !t.state[h].selected then []
    else if n.inputClass == Scalar || n.inputClass == Enum then [n.name + ": " + t.state[h].inputValue]
    else if n.inputClass == InputObject then
      ChildrenAbove(t, h, n.children);
      [n.name + ": { " + ArgumentString(t, n.children, false) + " }"]
    else []
  }

  /** `createFieldStringFromNodes(nodes, level)`. */
  function FieldString(t: Tree, hs: seq<Handle>, level: nat): string
    requires Valid(t) && AllIn(t, hs)
    decreases |t.info| - Floor(t, hs), 2, 0
  {
    var lines := Rendered(t, hs, level);
    if |lines| == 0 then ""
    else if level == 0 then Join(Indented(lines, level), "\n\n")
    else " {\n" + Join(Indented(lines, level), "\n") + "\n" + Tabs(level - 1) + "}"
  }

  /** `selectedNodes` before indentation: one line per emitted node of `hs`, in order. */
  function Rendered(t: Tree, hs: seq<Handle>, level: nat): seq<string>
    requires Valid(t) && AllIn(t, hs)
    decreases |t.info| - Floor(t, hs), 1, |hs|
  {
    if hs == [] then []
    else
      FloorTail(t, hs);
      (if CheckingGeneration(t, hs[0]) then [NodeLine(t, hs[0], level)] else []) + Rendered(t, hs[1..], level)
  }

  /** The text pushed for one emitted node (lines 504-509). */
  function NodeLine(t: Tree, h: Handle, level: nat): string
    requires Valid(t) && h < |t.info|
    decreases |t.info| - h, 0, 0
  {
    var children := t.info[h].children;
    ChildrenAbove(t, h, children);
    var outputs := OfKind(t, children, Output);
    ChildrenAbove(t, h, outputs);
    NodeName(t, h)
    + (if level == 0 then VariableString(t.state[h].variables) else ArgumentString(t, OfKind(t, children, Input), true))
    + FieldString(t, outputs, level + 1)
  }

  function Indented(lines: seq<string>, level: nat): (r: seq<string>)
    ensures |r| == |lines|
    ensures forall i :: 0 <= i < |lines| ==> r[i] == Tabs(level) + lines[i]
  {
    if lines == [] then [] else [Tabs(level) + lines[0]] + Indented(lines[1..], level)
  }

  /** `generateDocument`: the text of the whole tree, from the operation roots. */
  function Generate(t: Tree, roots: seq<Handle>): string
    requires Valid(t) && AllIn(t, roots)
  {
    FieldString(t, roots, 0)
  }
}
