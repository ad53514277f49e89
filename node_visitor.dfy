/** The `Categorize` visitor: five buckets of names, filled in place as the
    traverser leaves each node, and read back as sorted copies. */
module NodeVisitor {
  import opened Wrappers
  import opened PhpAst
  import opened Categorization
  import Sorting
  import NaturalOrder

  class Categorize {
    var classes: seq<string>
    var interfaces: seq<string>
    var functions: seq<string>
    var traits: seq<string>
    var constants: seq<string>

    /** The buckets as a value, in insertion order. */
    function Snapshot(): Buckets
      reads this
    {
      Buckets(classes, interfaces, functions, traits, constants)
    }

    constructor ()
      ensures Snapshot() == Empty
    {
      classes, interfaces, functions, traits, constants := [], [], [], [], [];
    }

    /** The traversal-start hook: resets the buckets and asks for no replacement of
        the node list. `interfaces` is not reset. */
    method BeforeTraverse(nodes: seq<Node>) returns (replacement: Option<seq<Node>>)
      modifies this
      ensures replacement == None
      ensures classes == [] && functions == [] && traits == [] && constants == []
      ensures interfaces == old(interfaces)
      ensures Snapshot() == Categorization.Reset(old(Snapshot()))
    {
      Reset();
      replacement := None;
    }

    /** The node-leave hook: dispatches on the kind of node. `Pass` is PHP's
        `return null`; `Fail` is the RuntimeException it throws. */
    method LeaveNode(node: Node) returns (outcome: Outcome<Error>)
      modifies this
      ensures StepResult(Snapshot(), outcome) == Step(old(Snapshot()), node)
    {
      if node.Class? {
        outcome := AddClassNames(node.namespacedName);
        return;
      }
      if node.Interface? {
        outcome := AddInterfaceNames(node.namespacedName);
        return;
      }
      if node.Function? {
        outcome := AddFunctionNames(node.namespacedName);
        return;
      }
      if node.Trait? {
        outcome := AddTraitNames(node.namespacedName);
        return;
      }
      if node.Const? {
        outcome := AddConstantNames(node.consts);
        return;
      }
      outcome := Pass;
      if IsDefineCall(node) {
        outcome := AddDefineConstantNames(node.expr.args);
      }
    }

    method Classes() returns (sorted: seq<string>)
      ensures Sorting.SortedBy(sorted, NaturalOrder.NatCaseLe)
      ensures multiset(sorted) == multiset(classes)
    {
      NaturalOrder.NatCaseLeIsTotalPreorder();
      sorted := Sorting.SortedCopy(classes, NaturalOrder.NatCaseLe);
    }

    method Functions() returns (sorted: seq<string>)
      ensures Sorting.SortedBy(sorted, NaturalOrder.NatCaseLe)
      ensures multiset(sorted) == multiset(functions)
    {
      NaturalOrder.NatCaseLeIsTotalPreorder();
      sorted := Sorting.SortedCopy(functions, NaturalOrder.NatCaseLe);
    }

    method Traits() returns (sorted: seq<string>)
      ensures Sorting.SortedBy(sorted, NaturalOrder.NatCaseLe)
      ensures multiset(sorted) == multiset(traits)
    {
      NaturalOrder.NatCaseLeIsTotalPreorder();
      sorted := Sorting.SortedCopy(traits, NaturalOrder.NatCaseLe);
    }

    method Constants() returns (sorted: seq<string>)
      ensures Sorting.SortedBy(sorted, NaturalOrder.NatCaseLe)
      ensures multiset(sorted) == multiset(constants)
    {
      NaturalOrder.NatCaseLeIsTotalPreorder();
      sorted := Sorting.SortedCopy(constants, NaturalOrder.NatCaseLe);
    }

    method Interfaces() returns (sorted: seq<string>)
      ensures Sorting.SortedBy(sorted, NaturalOrder.NatCaseLe)
      ensures multiset(sorted) == multiset(interfaces)
    {
      NaturalOrder.NatCaseLeIsTotalPreorder();
      sorted := Sorting.SortedCopy(interfaces, NaturalOrder.NatCaseLe);
    }

    method Reset()
      modifies this
      ensures Snapshot() == Categorization.Reset(old(Snapshot()))
    {
      classes := [];
      functions := [];
      traits := [];
      constants := [];
    }

    method AddClassNames(namespacedName: Option<string>) returns (outcome: Outcome<Error>)
      modifies this
      ensures StepResult(Snapshot(), outcome) == Declare(old(Snapshot()), ClassBucket, namespacedName)
    {
      if namespacedName.None? {
        return Fail(MissingNamespacedName(ClassBucket));
      }
      classes := classes + [namespacedName.value];
      outcome := Pass;
    }

    method AddFunctionNames(namespacedName: Option<string>) returns (outcome: Outcome<Error>)
      modifies this
      ensures StepResult(Snapshot(), outcome) == Declare(old(Snapshot()), FunctionBucket, namespacedName)
    {
      if namespacedName.None? {
        return Fail(MissingNamespacedName(FunctionBucket));
      }
      functions := functions + [namespacedName.value];
      outcome := Pass;
    }

    method AddTraitNames(namespacedName: Option<string>) returns (outcome: Outcome<Error>)
      modifies this
      ensures StepResult(Snapshot(), outcome) == Declare(old(Snapshot()), TraitBucket, namespacedName)
    {
      if namespacedName.None? {
        return Fail(MissingNamespacedName(TraitBucket));
      }
      traits := traits + [namespacedName.value];
      outcome := Pass;
    }

    /** Appends the entries' names one at a time; an unnamed entry throws with the
        names before it already appended. */
    method AddConstantNames(consts: seq<ConstEntry>) returns (outcome: Outcome<Error>)
      modifies this
      ensures StepResult(Snapshot(), outcome) == DeclareConstants(old(Snapshot()), consts)
    {
      if |consts| == 0 {
        return Fail(EmptyConstDeclaration);
      }
      var i := 0;
      while i < |consts|
        invariant 0 <= i <= |consts|
        invariant forall k :: 0 <= k < i ==> consts[k].namespacedName.Some?
        invariant constants + LeadingNames(consts[i..]) == old(constants) + LeadingNames(consts)
        invariant Snapshot() == old(Snapshot()).(constants := constants)
      {
        if consts[i].namespacedName.None? {
          assert constants == old(constants) + LeadingNames(consts);
          return Fail(MissingNamespacedName(ConstantBucket));
        }
        assert consts[i..][1..] == consts[i + 1..];
        constants := constants + [consts[i].namespacedName.value];
        i := i + 1;
      }
      assert consts[i..] == [];
      outcome := Pass;
    }

    /** The first argument of `define(...)` names the constant, unless it is an
        interpolated string; reading it or casting it to a string may fail. */
    method AddDefineConstantNames(args: Option<seq<Value>>) returns (outcome: Outcome<Error>)
      modifies this
      ensures StepResult(Snapshot(), outcome) == DefineConstant(old(Snapshot()), args)
    {
      if args.None? {
        return Fail(NoDefineName);
      }
      if |args.value| == 0 {
        return Fail(NoDefineName);
      }
      var constantName: string;
      match args.value[0] {
        case StringLiteral(s) =>
          constantName := s;
        case InterpolatedString =>
          return Pass;
        case OtherValue(cast) =>
          if cast.None? {
            return Fail(NoDefineName);
          }
          constantName := cast.value;
      }
      constants := constants + [constantName];
      outcome := Pass;
    }

    method AddInterfaceNames(namespacedName: Option<string>) returns (outcome: Outcome<Error>)
      modifies this
      ensures StepResult(Snapshot(), outcome) == Declare(old(Snapshot()), InterfaceBucket, namespacedName)
    {
      if namespacedName.None? {
        return Fail(MissingNamespacedName(InterfaceBucket));
      }
      interfaces := interfaces + [namespacedName.value];
      outcome := Pass;
    }
  }
}
