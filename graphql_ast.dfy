/**
  The parsed query document, as the GraphQL parser hands it to the explorer,
  and the order in which the library's `visit` walks it.

  Only the syntax kinds that reach the synchroniser's callbacks are kept;
  a definition of the type system (`type Foo { ... }`) is not representable.
*/
module GraphqlAst {
  import opened Common

  datatype OperationType = Query | Mutation | Subscription
  {
    /** The keyword a parsed operation reports as its `operation`. */
    function Keyword(): string
    {
      match this
      case Query => "query"
      case Mutation => "mutation"
      case Subscription => "subscription"
    }
  }

  /** A literal in argument position; `IntValue`/`FloatValue` keep their source text. */
  datatype Value =
    | StringValue(value: string)
    | IntValue(text: string)
    | FloatValue(text: string)
    | BooleanValue(b: bool)
    | NullValue
    | EnumValue(name: string)
    | VariableValue(name: string)
    | ListValue(values: seq<Value>)
    | ObjectValue(fields: seq<ObjectField>)

  datatype ObjectField = ObjectField(name: string, value: Value)

  datatype Argument = Argument(name: string, value: Value)

  datatype Directive = Directive(name: string, arguments: seq<Argument>)

  datatype Selection =
    | Field(name: string, arguments: seq<Argument>, directives: seq<Directive>, selections: seq<Selection>)
    | FragmentSpread(fragment: string, directives: seq<Directive>)
    | InlineFragment(typeCondition: Option<string>, directives: seq<Directive>, selections: seq<Selection>)

  datatype TypeRef = NamedType(name: string) | ListType(ofType: TypeRef) | NonNullType(ofType: TypeRef)

  datatype VariableDefinition = VariableDefinition(variable: string, vtype: TypeRef, defaultValue: Option<Value>,
                                                    directives: seq<Directive>)

  datatype Definition =
    | OperationDefinition(operation: OperationType, variableDefinitions: seq<VariableDefinition>,
                          directives: seq<Directive>, selections: seq<Selection>)
    | FragmentDefinition(name: string, typeCondition: string, directives: seq<Directive>, selections: seq<Selection>)

  datatype Document = Document(definitions: seq<Definition>)

  /**
    The callbacks of the synchroniser that a visit reaches, in order. An
    argument and an object field take the same branch, so they share
    `EnterInput`; every leave but the operation's and a field's shares `LeaveNested`.
  */
  datatype Event =
    | EnterOperation(operation: OperationType)
    | EnterField(name: string)
    | EnterInlineFragment(typeCondition: Option<string>)
    | EnterInput(name: string, value: Value)
    | EnterVariableDefinition(variable: string, vtype: TypeRef)
    | LeaveOperation
    | LeaveField(name: string)
    | LeaveNested

  /** Depth-first enter/leave order of the library's `visit` over a document. */
  function Visit(doc: Document): seq<Event>
  {
    DefinitionsEvents(doc.definitions)
  }

  function DefinitionsEvents(defs: seq<Definition>): seq<Event>
  {
    if defs == [] then [] else DefinitionEvents(defs[0]) + DefinitionsEvents(defs[1..])
  }

  function DefinitionEvents(d: Definition): seq<Event>
  {
    match d
    case OperationDefinition(op, vars, dirs, sels) =>
      [EnterOperation(op)] + VariablesEvents(vars) + DirectivesEvents(dirs) + SelectionsEvents(sels) + [LeaveOperation]
    case FragmentDefinition(_, _, dirs, sels) =>
      DirectivesEvents(dirs) + SelectionsEvents(sels)
  }

  function VariablesEvents(vars: seq<VariableDefinition>): seq<Event>
  {
    if vars == [] then [] else VariableEvents(vars[0]) + VariablesEvents(vars[1..])
  }

  /** A variable definition, then its default value. */
  function VariableEvents(v: VariableDefinition): seq<Event>
  {
    [EnterVariableDefinition(v.variable, v.vtype)] + (match v.defaultValue case Some(dv) => ValueEvents(dv) case None => [])
    + DirectivesEvents(v.directives)
  }

  function DirectivesEvents(dirs: seq<Directive>): seq<Event>
  {
    if dirs == [] then [] else ArgumentsEvents(dirs[0].arguments) + DirectivesEvents(dirs[1..])
  }

  function ArgumentsEvents(args: seq<Argument>): seq<Event>
  {
    if args == [] then []
    else [EnterInput(args[0].name, args[0].value)] + ValueEvents(args[0].value) + [LeaveNested] + ArgumentsEvents(args[1..])
  }

  function ValueEvents(v: Value): seq<Event>
  {
    match v
    case ListValue(vs) => ListEvents(vs)
    case ObjectValue(fields) => ObjectFieldsEvents(fields)
    case _ => []
  }

  function ListEvents(vs: seq<Value>): seq<Event>
  {
    if vs == [] then [] else ValueEvents(vs[0]) + ListEvents(vs[1..])
  }

  function ObjectFieldsEvents(fields: seq<ObjectField>): seq<Event>
  {
    if fields == [] then []
    else [EnterInput(fields[0].name, fields[0].value)] + ValueEvents(fields[0].value) + [LeaveNested] + ObjectFieldsEvents(fields[1..])
  }

  function SelectionsEvents(sels: seq<Selection>): seq<Event>
  {
    if sels == [] then [] else SelectionEvents(sels[0]) + SelectionsEvents(sels[1..])
  }

  function SelectionEvents(s: Selection): seq<Event>
  {
    match s
    case Field(name, args, dirs, sels) =>
      [EnterField(name)] + ArgumentsEvents(args) + DirectivesEvents(dirs) + SelectionsEvents(sels) + [LeaveField(name)]
    case FragmentSpread(_, dirs) =>
      DirectivesEvents(dirs)
    case InlineFragment(tc, dirs, sels) =>
      [EnterInlineFragment(tc)] + DirectivesEvents(dirs) + SelectionsEvents(sels) + [LeaveNested]
  }
}
