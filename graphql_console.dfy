/**
  The GraphQL console's state and the operations of it that keep the query
  text, the validator's verdict and the explorer tree in step, plus the two
  small text helpers of the same component.
*/
module GraphqlConsole {
  import opened Common
  import opened GraphqlAst
  import opened SelectionTree
  import opened TreeSync
  import opened DocumentGenerator

  /** A position the parser reports, 1-based. */
  datatype Location = Location(line: nat, column: nat)

  /** A syntax error as the parser raises it; `locations` is `None` when the error carries no location list. */
  datatype SyntaxError = SyntaxError(message: string, locations: Option<seq<Location>>)

  /** The text `tryParseGraphQLSchema` shows for an error whose first location is `location`. */
  function ErrorText(message: string, location: Option<Location>): (r: string)
    ensures |r| >= |message| && r[..|message|] == message
  {
    match location
    case None => message
    case Some(l) => message + " Line: " + Dec(l.line) + ". Column: " + Dec(l.column) + "."
  }

  /** How many decimal digits `s` starts with. */
  function DigitRun(s: string): (k: nat)
    ensures k <= |s| && IsDigits(s[..k])
    ensures k < |s| ==> !('0' <= s[k] <= '9')
  {
    if s != [] && '0' <= s[0] <= '9' then 1 + DigitRun(s[1..]) else 0
  }

  lemma {:induction false} DigitRunOf(d: string, rest: string)
    requires IsDigits(d)
    requires rest != [] ==> !('0' <= rest[0] <= '9')
    ensures DigitRun(d + rest) == |d|
  {
    if d != [] {
      assert (d + rest)[1..] == d[1..] + rest;
      DigitRunOf(d[1..], rest);
    } else {
      assert d + rest == rest;
    }
  }

  /** Reading the position suffix of an error text back: the inverse of `ErrorText` after the message. */
  function ReadPosition(suffix: string): Option<Location>
  {
    var lineTag, columnTag := " Line: ", ". Column: ";
    if |suffix| < |lineTag| || suffix[..|lineTag|] != lineTag then None
    else
      var rest := suffix[|lineTag|..];
      var k := DigitRun(rest);
      var after := rest[k..];
      if k == 0 || |after| < |columnTag| || after[..|columnTag|] != columnTag then None
      else
        var rest2 := after[|columnTag|..];
        var k2 := DigitRun(rest2);
        if k2 == 0 || rest2[k2..] != "." then None
        else Some(Location(DecValue(rest[..k]), DecValue(rest2[..k2])))
  }

  /** The error text keeps the message and, after it, exactly the location it was given. */
  lemma ErrorTextRoundTrip(message: string, location: Option<Location>)
    ensures ReadPosition(ErrorText(message, location)[|message|..]) == location
  {
    var r := ErrorText(message, location);
    if location.Some? {
      var l := location.value;
      var line, column := Dec(l.line), Dec(l.column);
      assert r[|message|..] == " Line: " + line + ". Column: " + column + ".";
      ReadDigits(line, column);
      DecRoundTrip(l.line);
      DecRoundTrip(l.column);
    } else {
      assert r[|message|..] == [];
    }
  }

  lemma ReadDigits(line: string, column: string)
    requires IsDigits(line) && IsDigits(column) && line != [] && column != []
    ensures ReadPosition(" Line: " + line + ". Column: " + column + ".") == Some(Location(DecValue(line), DecValue(column)))
  {
    var suffix := " Line: " + line + ". Column: " + column + ".";
    var tail := ". Column: " + column + ".";
    assert suffix[..7] == " Line: ";
    var rest := suffix[7..];
    assert rest == line + tail;
    DigitRunOf(line, tail);
    assert rest[..|line|] == line && rest[|line|..] == tail;
    ReadColumn(column);
  }

  lemma ReadColumn(column: string)
    requires IsDigits(column) && column != []
    ensures var tail := ". Column: " + column + ".";
            |tail| >= 10 && tail[..10] == ". Column: " && DigitRun(tail[10..]) == |column|
            && tail[10..][..|column|] == column && tail[10..][|column|..] == "."
  {
    var tail := ". Column: " + column + ".";
    assert tail[10..] == column + ".";
    DigitRunOf(column, ".");
  }

  /** A row of the headers editor; a value that was never typed is `None`. */
  datatype ConsoleHeader = ConsoleHeader(name: string, value: Option<string>)

  datatype HttpHeader = HttpHeader(name: string, value: string)

  /** A header as sent: a missing value becomes the empty string. */
  function AsSent(h: ConsoleHeader): HttpHeader
  {
    HttpHeader(h.name, match h.value case Some(v) => v case None => "")
  }

  /** `addSystemHeaders`: the headers as sent, keeping only those with a non-empty name and value, in order. */
  function AddSystemHeaders(headers: seq<ConsoleHeader>): (r: seq<HttpHeader>)
    ensures |r| <= |headers|
    ensures forall i :: 0 <= i < |r| ==> r[i].name != "" && r[i].value != ""
  {
    if headers == [] then []
    else
      var h := AsSent(headers[0]);
      (if h.name != "" && h.value != "" then [h] else []) + AddSystemHeaders(headers[1..])
  }

  /** A header is sent exactly when some row turns into it and it has both a name and a value. */
  lemma {:induction false} SentIff(headers: seq<ConsoleHeader>, x: HttpHeader)
    ensures x in AddSystemHeaders(headers) <==>
              x.name != "" && x.value != "" && exists i :: 0 <= i < |headers| && AsSent(headers[i]) == x
  {
    if headers != [] {
      SentIff(headers[1..], x);
      if exists i :: 0 <= i < |headers[1..]| && AsSent(headers[1..][i]) == x {
        var i :| 0 <= i < |headers[1..]| && AsSent(headers[1..][i]) == x;
        assert AsSent(headers[i + 1]) == x;
      }
      if exists i :: 0 <= i < |headers| && AsSent(headers[i]) == x {
        var i :| 0 <= i < |headers| && AsSent(headers[i]) == x;
        if i > 0 {
          assert AsSent(headers[1..][i - 1]) == x;
        }
      }
    }
  }

  /** The filter keeps order: the rows of two editors send the headers of each, one after the other. */
  lemma {:induction false} SentAppend(a: seq<ConsoleHeader>, b: seq<ConsoleHeader>)
    ensures AddSystemHeaders(a + b) == AddSystemHeaders(a) + AddSystemHeaders(b)
  {
    if a == [] {
      assert a + b == b;
    } else {
      assert (a + b)[0] == a[0] && (a + b)[1..] == a[1..] + b;
      SentAppend(a[1..], b);
    }
  }

  /** `gqlFieldName`: an input's name gets `*` when required, then `:`; an output's name is unchanged. */
  function GqlFieldName(name: string, isRequired: bool, isInputNode: bool): (r: string)
    ensures |r| >= |name| && r[..|name|] == name
  {
    name + (if isRequired && isInputNode then "*" else "") + (if isInputNode then ":" else "")
  }

  /** Reading a caption back into the name and the two flags it shows. */
  function ReadFieldName(caption: string): (string, bool, bool)
  {
    if |caption| > 0 && caption[|caption| - 1] == ':' then
      var s := caption[..|caption| - 1];
      if |s| > 0 && s[|s| - 1] == '*' then (s[..|s| - 1], true, true) else (s, false, true)
    else (caption, false, false)
  }

  /**
    A caption shows everything it is made from: for a name without `*` or `:`,
    the name, whether the field is an input and whether an input is required.
  */
  lemma FieldNameRoundTrip(name: string, isRequired: bool, isInputNode: bool)
    requires '*' !in name && ':' !in name
    ensures ReadFieldName(GqlFieldName(name, isRequired, isInputNode)) == (name, isRequired && isInputNode, isInputNode)
  {
    var r := GqlFieldName(name, isRequired, isInputNode);
    if |name| > 0 {
      assert name[|name| - 1] in name;
    }
    if isInputNode {
      var s := r[..|r| - 1];
      if isRequired {
        assert s == name + "*";
        assert s[..|s| - 1] == name;
      } else {
        assert s == name;
      }
    } else {
      assert r == name;
    }
  }

  /** The console's state that the modelled operations read and write. */
  class Console {
    var tree: Tree
    var globalNodes: seq<Handle>      // the operation roots, in order
    var document: string              // the query text
    var isContentValid: bool
    var contentParseErrors: Option<string>

    ghost predicate Consistent()
      reads this
    {
      Valid(tree) && AllIn(tree, globalNodes)
    }

    /** A console over a tree built from the schema, with its operation roots. */
    constructor(built: Tree, roots: seq<Handle>)
      requires Valid(built) && AllIn(built, roots)
      ensures Consistent()
      ensures tree == built && globalNodes == roots
      ensures document == "" && isContentValid && contentParseErrors.None?
    {
      tree := built;
      globalNodes := roots;
      document := "";
      isContentValid := true;
      contentParseErrors := None;
    }

    /** `generateDocument`: the query text becomes the rendering of the tree from the operation roots. */
    method GenerateDocument()
      requires Consistent()
      modifies this
      ensures Consistent()
      ensures document == Generate(tree, globalNodes)
      ensures tree == old(tree) && globalNodes == old(globalNodes)
      ensures isContentValid == old(isContentValid) && contentParseErrors == old(contentParseErrors)
    {
      document := Generate(tree, globalNodes);
    }

    /**
      `tryParseGraphQLSchema`, given what the parser raised (`None` when the
      text parses). `thrown` reports the exception the method itself raises
      when the error has no location list.
    */
    method TryParseGraphQLSchema(error: Option<SyntaxError>) returns (thrown: bool)
      modifies this
      ensures tree == old(tree) && globalNodes == old(globalNodes) && document == old(document)
      ensures error.None? ==> !thrown && isContentValid == old(isContentValid) && contentParseErrors == old(contentParseErrors)
      ensures error.Some? ==> !isContentValid
      ensures error.Some? ==> (thrown <==> error.value.locations.None?)
      ensures error.Some? && thrown ==> contentParseErrors == old(contentParseErrors)
      ensures error.Some? && !thrown ==>
                var locs := error.value.locations.value;
                contentParseErrors == Some(ErrorText(error.value.message, if locs == [] then None else Some(locs[0])))
    {
      thrown := false;
      if error.None? {
        return;
      }
      isContentValid := false;
      var message := error.value.message;
      if error.value.locations.None? {
        thrown := true;
        return;
      }
      var locations := error.value.locations.value;
      var location: Option<Location> := if locations == [] then None else Some(locations[0]);
      var position := if location.Some? then " Line: " + Dec(location.value.line) + ". Column: " + Dec(location.value.column) + "." else "";
      assert message + position == ErrorText(message, location);
      contentParseErrors := Some(message + position);
    }

    /**
      `documentToTree`, given the parsed document (`None` when the text does
      not parse): clear and reselect every operation root, then replay the
      callbacks of the visit over the tree, stopping where one throws.
    */
    method DocumentToTree(parsed: Option<Document>)
      requires Consistent()
      modifies this
      ensures Consistent()
      ensures globalNodes == old(globalNodes) && document == old(document)
      ensures isContentValid == old(isContentValid) && contentParseErrors == old(contentParseErrors)
      ensures tree == Sync(old(tree), old(globalNodes), parsed)
    {
      if parsed.None? {
        return;
      }
      ResetRoots();
      Replay(Visit(parsed.value));
    }

    /**
      `visit(ast, { enter, leave })` from an undefined cursor and no collected
      variables: the callbacks in order, stopping at the first that throws.
    */
    method Replay(events: seq<Event>)
      requires Consistent()
      modifies this
      ensures Consistent()
      ensures globalNodes == old(globalNodes) && document == old(document)
      ensures isContentValid == old(isContentValid) && contentParseErrors == old(contentParseErrors)
      ensures tree == Run(Walk(old(tree), None, []), globalNodes, events).Final()
    {
      var cursor: Option<Handle> := None;
      var variables: seq<VarDecl> := [];
      ghost var start := Walk(tree, cursor, variables);
      var k := 0;
      while k < |events|
        invariant globalNodes == old(globalNodes) && document == old(document)
        invariant isContentValid == old(isContentValid) && contentParseErrors == old(contentParseErrors)
        invariant 0 <= k <= |events|
        invariant AllIn(tree, globalNodes) && tree.info == old(tree).info
        invariant Sound(Walk(tree, cursor, variables))
        invariant Run(Walk(tree, cursor, variables), globalNodes, events[k..]) == Run(start, globalNodes, events)
      {
        ghost var before := Walk(tree, cursor, variables);
        var thrown;
        thrown, cursor, variables := Callback(events[k], cursor, variables);
        if thrown {
          RunFrom(before, globalNodes, events, k);
          return;
        }
        Advance(before, globalNodes, events, k, Walk(tree, cursor, variables));
        k := k + 1;
      }
      assert events[k..] == [];
    }

    /** The callback the visit calls for `e`: `leave` for the leave events, `enter` for the others. */
    method Callback(e: Event, cursor: Option<Handle>, variables: seq<VarDecl>)
      returns (thrown: bool, cursor': Option<Handle>, variables': seq<VarDecl>)
      requires Consistent() && Sound(Walk(tree, cursor, variables))
      modifies this
      ensures globalNodes == old(globalNodes) && document == old(document)
      ensures isContentValid == old(isContentValid) && contentParseErrors == old(contentParseErrors)
      ensures thrown ==> Step(Walk(old(tree), cursor, variables), globalNodes, e) == Thrown(tree)
      ensures !thrown ==> Step(Walk(old(tree), cursor, variables), globalNodes, e) == Continue(Walk(tree, cursor', variables'))
    {
      if e.LeaveOperation? || e.LeaveField? || e.LeaveNested? {
        thrown, variables' := false, variables;
        cursor' := Leave(e, cursor, variables);
      } else {
        thrown, cursor', variables' := Enter(e, cursor, variables);
      }
    }

    /** The loop over `globalNodes` before the walk: each root is cleared, then selected without propagating. */
    method ResetRoots()
      requires Consistent()
      modifies this
      ensures Consistent()
      ensures globalNodes == old(globalNodes) && document == old(document)
      ensures isContentValid == old(isContentValid) && contentParseErrors == old(contentParseErrors)
      ensures tree == ClearRoots(old(tree), globalNodes)
    {
      var i := 0;
      while i < |globalNodes|
        invariant globalNodes == old(globalNodes) && document == old(document)
        invariant isContentValid == old(isContentValid) && contentParseErrors == old(contentParseErrors)
        invariant 0 <= i <= |globalNodes|
        invariant Valid(tree) && tree.info == old(tree).info && AllIn(tree, globalNodes)
        invariant tree == ClearRoots(old(tree), globalNodes[..i])
      {
        var node := globalNodes[i];
        assert globalNodes[..i + 1][..i] == globalNodes[..i];
        tree := Deselect(tree, node);
        tree := Select(tree, node);
        i := i + 1;
      }
      assert globalNodes[..i] == globalNodes;

    }

    /**
      The `enter` callback of the visit. `thrown` reports a dereference of an
      undefined node, raised before anything changed.
    */
    method Enter(e: Event, cursor: Option<Handle>, variables: seq<VarDecl>)
      returns (thrown: bool, cursor': Option<Handle>, variables': seq<VarDecl>)
      requires Consistent() && Sound(Walk(tree, cursor, variables))
      requires !(e.LeaveOperation? || e.LeaveField? || e.LeaveNested?)
      modifies this
      ensures Consistent() && tree.info == old(tree).info
      ensures globalNodes == old(globalNodes) && document == old(document)
      ensures isContentValid == old(isContentValid) && contentParseErrors == old(contentParseErrors)
      ensures thrown ==> tree == old(tree) && Step(Walk(old(tree), cursor, variables), globalNodes, e) == Thrown(tree)
      ensures !thrown ==> Step(Walk(old(tree), cursor, variables), globalNodes, e) == Continue(Walk(tree, cursor', variables'))
    {
      thrown, cursor', variables' := false, cursor, variables;
      match e {
        case EnterOperation(op) =>
          variables' := [];
          cursor' := FindRoot(tree, globalNodes, op);
        case EnterField(name) =>
          if cursor.None? {
            thrown := true;
            return;
          }
          var target := FindChild(tree, cursor.value, Output, name);
          if target.Some? {
            cursor' := target;
            tree := Select(tree, target.value);
          }
        case EnterInlineFragment(typeCondition) =>
          if cursor.None? {
            thrown := true;
            return;
          }
          if typeCondition.None? {
            thrown := OfKind(tree, tree.info[cursor.value].children, Output) != [];
          } else {
            var target := FindChild(tree, cursor.value, Output, typeCondition.value);
            if target.Some? {
              cursor' := target;
              tree := Select(tree, target.value);
            }
          }
        case EnterInput(name, value) =>
          if cursor.None? {
            thrown := true;
            return;
          }
          var inputNode := FindChild(tree, cursor.value, Input, name);
          var text := Literal(value);
          if text.Some? {
            if inputNode.None? {
              thrown := true;
              return;
            }
            tree := SetInput(tree, inputNode.value, text.value);
          }
          if inputNode.Some? {
            cursor' := inputNode;
            tree := Select(tree, inputNode.value);
          }
        case EnterVariableDefinition(variable, vtype) =>
          var declared := DeclaredVariable(variable, vtype);
          if declared.Some? {
            variables' := variables + [declared.value];
          }
      }
    }

    /** The `leave` callback of the visit: store the variables on leaving an operation, then pop. */
    method Leave(e: Event, cursor: Option<Handle>, variables: seq<VarDecl>) returns (cursor': Option<Handle>)
      requires Consistent() && Sound(Walk(tree, cursor, variables))
      requires e.LeaveOperation? || e.LeaveField? || e.LeaveNested?
      modifies this
      ensures Consistent() && tree.info == old(tree).info
      ensures globalNodes == old(globalNodes) && document == old(document)
      ensures isContentValid == old(isContentValid) && contentParseErrors == old(contentParseErrors)
      ensures Step(Walk(old(tree), cursor, variables), globalNodes, e) == Continue(Walk(tree, cursor', variables))
    {
      cursor' := cursor;
      if cursor.Some? && !(e.LeaveField? && e.name == "__typename") {
        if e.LeaveOperation? {
          tree := SetVariables(tree, cursor.value, variables);
        }
        cursor' := Up(tree, cursor.value);
      }
    }
  }
}
