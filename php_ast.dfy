/** The few shapes of PHP-Parser nodes the visitor distinguishes.

    Parsing and name resolution happen before the visitor runs; what reaches it is
    a node whose declared symbol either carries its resolved `namespacedName`
    (`Some`) or does not (`None`). */
module PhpAst {
  import opened Wrappers

  /** The value of a call argument. */
  datatype Value =
    | StringLiteral(value: string)          // Node\Scalar\String_, with its contents
    | InterpolatedString                    // Node\Scalar\Encapsed, e.g. "FOO_{$x}"
    | OtherValue(asString: Option<string>)  // any other expression; None when `(string)` throws

  /** What stands in the name position of a function call. */
  datatype CallName =
    | Name(text: string)  // a Node\Name, given by its string form
    | DynamicName         // an expression, as in `$f(...)`

  datatype Expr =
    | FuncCall(callee: CallName, args: Option<seq<Value>>)  // args: the values of the arguments
    | OtherExpr

  /** One entry of a `const A = 1, B = 2;` statement. */
  datatype ConstEntry = ConstEntry(namespacedName: Option<string>)

  datatype Node =
    | Class(namespacedName: Option<string>)      // Node\Stmt\Class_
    | Interface(namespacedName: Option<string>)  // Node\Stmt\Interface_
    | Function(namespacedName: Option<string>)   // Node\Stmt\Function_
    | Trait(namespacedName: Option<string>)      // Node\Stmt\Trait_
    | Const(consts: seq<ConstEntry>)             // Node\Stmt\Const_
    | Expression(expr: Expr)                     // Node\Stmt\Expression
    | OtherNode                                  // every other kind of node

  /** An expression statement calling, by a plain name, exactly `define` (case-sensitive). */
  predicate IsDefineCall(node: Node) {
    && node.Expression?
    && node.expr.FuncCall?
    && node.expr.callee.Name?
    && node.expr.callee.text == "define"
  }
}
