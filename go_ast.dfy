/**
 * The parts of Go's syntax tree (go/ast) that the core inspects.
 *
 * Type expressions, fields and type specs are plain values. The nodes that the
 * usage scanners visit are listed in traversal order and carry the answers the
 * type oracle gives about them (TypesInfo.TypeOf and ObjectOf).
 */
module GoAst {
  import opened Common
  import opened GoTypes

  datatype ChanDir = Both | SendOnly | RecvOnly

  /** A type expression (ast.Expr in type position). */
  datatype TypeExpr =
    | Ident(name: string)                                       // T
    | Star(x: TypeExpr)                                         // *T
    | Selector(x: TypeExpr, sel: string)                        // pkg.T
    | ArrayType(len: Option<string>, elt: TypeExpr)            // []T or [N]T
    | MapType(key: TypeExpr, value: TypeExpr)                   // map[K]V
    | InterfaceType(methods: seq<Field>)                        // interface{ ... }
    | ChanType(dir: ChanDir, value: TypeExpr)                   // chan T, chan<- T, <-chan T
    | FuncType(params: Option<seq<Field>>, results: Option<seq<Field>>)
    | OtherExpr                                                 // any other expression (struct, ...T, generic instance)
    | NoExpr                                                    // a nil expression

  /** An ast.Field: zero names for an embedded field, one or more for a declaration. */
  datatype Field = Field(names: seq<string>, typ: TypeExpr)

  /** A type spec `type name[typeParams] typ`; typeParams is None when there is no list. */
  datatype TypeSpec = TypeSpec(name: string, typeParams: Option<seq<Field>>, typ: TypeExpr)

  predicate IsEmbedded(f: Field)
  {
    |f.names| == 0
  }

  /** The total number of names declared by a field list; embedded fields add none. */
  function NameCount(fields: seq<Field>): nat
  {
    if fields == [] then 0
    else NameCount(fields[..|fields| - 1]) + |fields[|fields| - 1].names|
  }

  /** All names declared by a field list, field by field in source order. */
  function AllNames(fields: seq<Field>): seq<string>
  {
    if fields == [] then []
    else AllNames(fields[..|fields| - 1]) + fields[|fields| - 1].names
  }

  lemma {:induction false} AllNamesLength(fields: seq<Field>)
    ensures |AllNames(fields)| == NameCount(fields)
  {
    if fields != [] {
      AllNamesLength(fields[..|fields| - 1]);
    }
  }

  /** An object an identifier resolves to (types.Object). */
  datatype Obj<S> =
    | NoObject                    // no entry in the type tables
    | VarObject                   // *types.Var: a variable, parameter or struct field
    | TypeNameObject(typ: Type<S>) // *types.TypeName with its type
    | OtherObject                 // a package name, constant, function, ...

  /** The operand of a selector: an identifier with its object, or any other expression. */
  datatype SelBase<S> = IdentBase(name: string, obj: Obj<S>) | OtherBase

  /** A selector expression `x.sel` with TypeOf(x) and TypeOf(sel). */
  datatype SelectorExpr<S> = SelectorExpr(base: SelBase<S>, sel: string, baseType: Option<Type<S>>, selType: Option<Type<S>>)

  /** The function part of a call expression. */
  datatype Callee<S> = SelectorCallee(s: SelectorExpr<S>) | OtherCallee

  /** The type of a struct or parameter field, when it is a plain identifier. */
  datatype FieldTypeRef<S> = IdentTypeRef(name: string, obj: Obj<S>) | OtherTypeRef

  /** A node visited by ast.Inspect, with the shapes the scanners tell apart. */
  datatype Node<S> =
    | CallNode(fun: Callee<S>)
    | SelectorNode(s: SelectorExpr<S>)
    | FieldNode(typ: FieldTypeRef<S>)
    | OtherNode
}
