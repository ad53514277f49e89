/** What one call of the visitor's `leaveNode` does to the five buckets, stated on
    values, and what a whole traversal does.

    The `Categorize` class in module NodeVisitor is proved to change its fields
    exactly as `Step` and `Reset` say; the lemmas here state what those functions
    promise. */
module Categorization {
  import opened Wrappers
  import opened PhpAst

  /** The five buckets, one per kind of declared symbol. */
  datatype Category = ClassBucket | InterfaceBucket | FunctionBucket | TraitBucket | ConstantBucket

  datatype Error =
    | MissingNamespacedName(category: Category)  // a declaration (or const entry) without a resolved name
    | EmptyConstDeclaration                      // a const statement with no entries
    | NoDefineName                               // define() whose first argument cannot be read
  {
    /** The message of the RuntimeException the visitor throws. */
    function Message(): string {
      match this
      case MissingNamespacedName(ClassBucket) => "Class node was expected to be a namespacedName attribute."
      case MissingNamespacedName(InterfaceBucket) => "Interface node was expected to be a namespacedName attribute."
      case MissingNamespacedName(FunctionBucket) => "Function node was expected to have a namespacedName attribute."
      case MissingNamespacedName(TraitBucket) => "Trait node was expected to have a namespacedName attribute."
      case MissingNamespacedName(ConstantBucket) => "Const node was expected to have a namespacedName attribute."
      case EmptyConstDeclaration => "Constant declaration node has no constants."
      case NoDefineName => "define() declaration has no constant name."
    }
  }

  /** The names collected so far, each bucket in insertion order. */
  datatype Buckets = Buckets(
    classes: seq<string>,
    interfaces: seq<string>,
    functions: seq<string>,
    traits: seq<string>,
    constants: seq<string>)
  {
    function Get(c: Category): seq<string> {
      match c
      case ClassBucket => classes
      case InterfaceBucket => interfaces
      case FunctionBucket => functions
      case TraitBucket => traits
      case ConstantBucket => constants
    }

    /** Appends `names` to bucket `c` and to no other. */
    function Append(c: Category, names: seq<string>): (b: Buckets)
      ensures b.Get(c) == Get(c) + names
      ensures forall d :: d != c ==> b.Get(d) == Get(d)
    {
      match c
      case ClassBucket => this.(classes := classes + names)
      case InterfaceBucket => this.(interfaces := interfaces + names)
      case FunctionBucket => this.(functions := functions + names)
      case TraitBucket => this.(traits := traits + names)
      case ConstantBucket => this.(constants := constants + names)
    }
  }

  const Empty := Buckets([], [], [], [], [])

  /** The reset done before each traversal: every bucket but `interfaces` is emptied. */
  function Reset(b: Buckets): (r: Buckets)
    ensures forall c :: r.Get(c) == if c == InterfaceBucket then b.Get(c) else []
  {
    b.(classes := [], functions := [], traits := [], constants := [])
  }

  /** The buckets after one call, and whether the call returned or threw. */
  datatype StepResult = StepResult(buckets: Buckets, outcome: Outcome<Error>)

  /** A class, interface, function or trait declaration: its resolved name goes to
      bucket `c`; without one the visitor throws before touching anything. */
  function Declare(b: Buckets, c: Category, namespacedName: Option<string>): StepResult {
    match namespacedName
    case None => StepResult(b, Fail(MissingNamespacedName(c)))
    case Some(name) => StepResult(b.Append(c, [name]), Pass)
  }

  predicate AllNamed(consts: seq<ConstEntry>) {
    forall i :: 0 <= i < |consts| ==> consts[i].namespacedName.Some?
  }

  /** The names the const loop appends before it stops: those of the entries up to
      the first one without a resolved name. */
  function LeadingNames(consts: seq<ConstEntry>): seq<string> {
    if consts == [] || consts[0].namespacedName.None? then []
    else [consts[0].namespacedName.value] + LeadingNames(consts[1..])
  }

  /** A `const` statement. The entries are appended one by one, so an unnamed entry
      throws after the names of the entries before it are already in the bucket. */
  function DeclareConstants(b: Buckets, consts: seq<ConstEntry>): StepResult {
    if |consts| == 0 then StepResult(b, Fail(EmptyConstDeclaration))
    else StepResult(
      b.Append(ConstantBucket, LeadingNames(consts)),
      if AllNamed(consts) then Pass else Fail(MissingNamespacedName(ConstantBucket)))
  }

  /** The value of the first argument of a call, if there is one. An empty argument
      list counts as having none: reading `args[0]` is assumed to raise. */
  function FirstArgument(args: Option<seq<Value>>): Option<Value> {
    if args.None? || |args.value| == 0 then None else Some(args.value[0])
  }

  /** A `define(...)` call: a string literal or a value with a string form names the
      constant; an interpolated string is skipped; anything else throws. */
  function DefineConstant(b: Buckets, args: Option<seq<Value>>): StepResult {
    match FirstArgument(args)
    case None => StepResult(b, Fail(NoDefineName))
    case Some(StringLiteral(name)) => StepResult(b.Append(ConstantBucket, [name]), Pass)
    case Some(InterpolatedString) => StepResult(b, Pass)
    case Some(OtherValue(None)) => StepResult(b, Fail(NoDefineName))
    case Some(OtherValue(Some(name))) => StepResult(b.Append(ConstantBucket, [name]), Pass)
  }

  /** The one bucket a node can change, if any. */
  function Target(node: Node): Option<Category> {
    match node
    case Class(_) => Some(ClassBucket)
    case Interface(_) => Some(InterfaceBucket)
    case Function(_) => Some(FunctionBucket)
    case Trait(_) => Some(TraitBucket)
    case Const(_) => Some(ConstantBucket)
    case _ => if IsDefineCall(node) then Some(ConstantBucket) else None
  }

  predicate IsDeclaration(node: Node) {
    node.Class? || node.Interface? || node.Function? || node.Trait?
  }

  /** One call of `leaveNode`. */
  function Step(b: Buckets, node: Node): StepResult {
    match node
    case Class(name) => Declare(b, ClassBucket, name)
    case Interface(name) => Declare(b, InterfaceBucket, name)
    case Function(name) => Declare(b, FunctionBucket, name)
    case Trait(name) => Declare(b, TraitBucket, name)
    case Const(consts) => DeclareConstants(b, consts)
    case _ => if IsDefineCall(node) then DefineConstant(b, node.expr.args) else StepResult(b, Pass)
  }

  /** `leaveNode` called on each node in turn; the first exception ends the walk. */
  function Walk(b: Buckets, nodes: seq<Node>): StepResult
    decreases |nodes|
  {
    if nodes == [] then StepResult(b, Pass)
    else
      var r := Step(b, nodes[0]);
      if r.outcome.Fail? then r else Walk(r.buckets, nodes[1..])
  }

  /** A whole traversal: the reset hook, then the walk. */
  function Traverse(b: Buckets, nodes: seq<Node>): StepResult {
    Walk(Reset(b), nodes)
  }

  // ---------------------------------------------------------------------------
  // One step

  /** A class, interface, function or trait node with a resolved name: exactly that
      name is appended to its own bucket, nothing else changes, and the call returns. */
  lemma StepNamedDeclaration(b: Buckets, node: Node)
    requires IsDeclaration(node) && node.namespacedName.Some?
    ensures Step(b, node).outcome == Pass
    ensures Step(b, node).buckets.Get(Target(node).value) == b.Get(Target(node).value) + [node.namespacedName.value]
    ensures forall c :: c != Target(node).value ==> Step(b, node).buckets.Get(c) == b.Get(c)
  {
  }

  /** The same node without a resolved name throws, and no bucket has changed. */
  lemma StepUnnamedDeclaration(b: Buckets, node: Node)
    requires IsDeclaration(node) && node.namespacedName.None?
    ensures Step(b, node) == StepResult(b, Fail(MissingNamespacedName(Target(node).value)))
  {
  }

  /** A const statement with no entries throws and changes nothing. */
  lemma StepEmptyConst(b: Buckets)
    ensures Step(b, Const([])) == StepResult(b, Fail(EmptyConstDeclaration))
  {
  }

  lemma {:induction false} LeadingNamesOfNamedPrefix(consts: seq<ConstEntry>, i: nat)
    requires i <= |consts|
    requires forall k :: 0 <= k < i ==> consts[k].namespacedName.Some?
    requires i < |consts| ==> consts[i].namespacedName.None?
    ensures |LeadingNames(consts)| == i
    ensures forall k :: 0 <= k < i ==> LeadingNames(consts)[k] == consts[k].namespacedName.value
    decreases i
  {
    if i > 0 {
      LeadingNamesOfNamedPrefix(consts[1..], i - 1);
    }
  }

  /** A const statement whose k > 0 entries all have resolved names: their names are
      appended to `constants` in declaration order, and the call returns. */
  lemma StepConstAllNamed(b: Buckets, consts: seq<ConstEntry>)
    requires |consts| > 0 && AllNamed(consts)
    ensures Step(b, Const(consts)).outcome == Pass
    ensures var after := Step(b, Const(consts)).buckets.constants;
      && |after| == |b.constants| + |consts|
      && after[..|b.constants|] == b.constants
      && forall k :: 0 <= k < |consts| ==> after[|b.constants| + k] == consts[k].namespacedName.value
    ensures forall c :: c != ConstantBucket ==> Step(b, Const(consts)).buckets.Get(c) == b.Get(c)
  {
    LeadingNamesOfNamedPrefix(consts, |consts|);
  }

  /** A const statement whose entry i is the first without a resolved name: the
      statement throws, but the names of entries 0 .. i-1 have already been appended. */
  lemma StepConstPartial(b: Buckets, consts: seq<ConstEntry>, i: nat)
    requires i < |consts| && consts[i].namespacedName.None?
    requires forall k :: 0 <= k < i ==> consts[k].namespacedName.Some?
    ensures Step(b, Const(consts)).outcome == Fail(MissingNamespacedName(ConstantBucket))
    ensures var after := Step(b, Const(consts)).buckets.constants;
      && |after| == |b.constants| + i
      && after[..|b.constants|] == b.constants
      && forall k :: 0 <= k < i ==> after[|b.constants| + k] == consts[k].namespacedName.value
    ensures forall c :: c != ConstantBucket ==> Step(b, Const(consts)).buckets.Get(c) == b.Get(c)
  {
    LeadingNamesOfNamedPrefix(consts, i);
  }

  /** A `define` call: a string literal or a value with a string form is appended to
      `constants`; an interpolated string changes nothing and raises nothing; a
      missing first argument or a failed string cast throws and changes nothing. */
  lemma StepDefine(b: Buckets, node: Node)
    requires IsDefineCall(node)
    ensures var first := FirstArgument(node.expr.args); var r := Step(b, node);
      && (first.None? ==> r == StepResult(b, Fail(NoDefineName)))
      && (first == Some(InterpolatedString) ==> r == StepResult(b, Pass))
      && (first == Some(OtherValue(None)) ==> r == StepResult(b, Fail(NoDefineName)))
      && (first.Some? && first.value.StringLiteral? ==>
            r == StepResult(b.Append(ConstantBucket, [first.value.value]), Pass))
      && (first.Some? && first.value.OtherValue? && first.value.asString.Some? ==>
            r == StepResult(b.Append(ConstantBucket, [first.value.asString.value]), Pass))
      && (r.outcome.Fail? ==> r.outcome.error.Message() == "define() declaration has no constant name.")
  {
  }

  /** `define` is recognised only as an expression statement calling the plain name
      `define`; every node that is not a declaration, a const statement or such a
      call changes nothing and returns. */
  lemma StepIgnoresOtherNodes(b: Buckets, node: Node)
    requires !IsDeclaration(node) && !node.Const? && !IsDefineCall(node)
    ensures Step(b, node) == StepResult(b, Pass)
    ensures Target(node).None?
  {
  }

  /** Every node changes at most its target bucket, and only by appending to it. */
  lemma StepAppendsToTargetOnly(b: Buckets, node: Node)
    ensures forall c :: Some(c) != Target(node) ==> Step(b, node).buckets.Get(c) == b.Get(c)
    ensures forall c :: b.Get(c) <= Step(b, node).buckets.Get(c)
  {
  }

  /** An exception leaves every bucket as it was, except for a const statement,
      whose loop may already have appended some names. */
  lemma StepFailureKeepsBuckets(b: Buckets, node: Node)
    requires Step(b, node).outcome.Fail? && !node.Const?
    ensures Step(b, node).buckets == b
  {
  }

  /** What a step appends and whether it throws depend on the node alone, not on
      what the buckets already hold. */
  lemma StepIndependentOfBuckets(b: Buckets, node: Node)
    ensures Step(b, node).outcome == Step(Empty, node).outcome
    ensures forall c :: Step(b, node).buckets.Get(c) == b.Get(c) + Step(Empty, node).buckets.Get(c)
  {
  }

  // ---------------------------------------------------------------------------
  // Whole traversals

  /** The same for a walk over many nodes. */
  lemma {:induction false} WalkIndependentOfBuckets(b: Buckets, nodes: seq<Node>)
    ensures Walk(b, nodes).outcome == Walk(Empty, nodes).outcome
    ensures forall c :: Walk(b, nodes).buckets.Get(c) == b.Get(c) + Walk(Empty, nodes).buckets.Get(c)
    decreases |nodes|
  {
    if nodes != [] {
      var r, e := Step(b, nodes[0]), Step(Empty, nodes[0]);
      StepIndependentOfBuckets(b, nodes[0]);
      if r.outcome.Pass? {
        WalkIndependentOfBuckets(r.buckets, nodes[1..]);
        WalkIndependentOfBuckets(e.buckets, nodes[1..]);
      }
    }
  }

  /** A traversal after an earlier one (on the same visitor) collects in `classes`,
      `functions`, `traits` and `constants` exactly what a fresh visitor would, but
      `interfaces` keeps what the earlier traversal collected, since the reset
      does not clear it. */
  lemma SecondTraversal(b: Buckets, first: seq<Node>, second: seq<Node>)
    ensures var earlier := Traverse(b, first).buckets;
      var again := Traverse(earlier, second);
      var anew := Traverse(Empty, second);
      && again.outcome == anew.outcome
      && (forall c :: c != InterfaceBucket ==> again.buckets.Get(c) == anew.buckets.Get(c))
      && again.buckets.interfaces == earlier.interfaces + anew.buckets.interfaces
  {
    var earlier := Traverse(b, first).buckets;
    WalkIndependentOfBuckets(Reset(earlier), second);
    assert Reset(Empty) == Empty;
    var again, anew := Traverse(earlier, second).buckets, Traverse(Empty, second).buckets;
    forall c | c != InterfaceBucket
      ensures again.Get(c) == anew.Get(c)
    {
      assert again.Get(c) == [] + anew.Get(c);
    }
    assert again.Get(InterfaceBucket) == earlier.Get(InterfaceBucket) + anew.Get(InterfaceBucket);
  }

  /** Nodes that declare nothing collect nothing. */
  lemma {:induction false} WalkOfIrrelevantNodes(b: Buckets, nodes: seq<Node>)
    requires forall i :: 0 <= i < |nodes| ==> Target(nodes[i]).None?
    ensures Walk(b, nodes) == StepResult(b, Pass)
    decreases |nodes|
  {
    if nodes != [] {
      assert Step(b, nodes[0]) == StepResult(b, Pass);
      WalkOfIrrelevantNodes(b, nodes[1..]);
    }
  }

  /** A fresh visitor that sees no declarations ends with five empty buckets. */
  lemma FreshTraversalOfIrrelevantNodes(nodes: seq<Node>)
    requires forall i :: 0 <= i < |nodes| ==> Target(nodes[i]).None?
    ensures Traverse(Empty, nodes) == StepResult(Empty, Pass)
  {
    assert Reset(Empty) == Empty;
    WalkOfIrrelevantNodes(Empty, nodes);
  }

  /** Class declarations with resolved names: `classes` gains exactly their names, in
      the order the nodes are left, and nothing else changes. */
  lemma {:induction false} WalkOfNamedClasses(b: Buckets, nodes: seq<Node>)
    requires forall i :: 0 <= i < |nodes| ==> nodes[i].Class? && nodes[i].namespacedName.Some?
    ensures Walk(b, nodes).outcome == Pass
    ensures var after := Walk(b, nodes).buckets.classes;
      && |after| == |b.classes| + |nodes|
      && after[..|b.classes|] == b.classes
      && forall i :: 0 <= i < |nodes| ==> after[|b.classes| + i] == nodes[i].namespacedName.value
    ensures forall c :: c != ClassBucket ==> Walk(b, nodes).buckets.Get(c) == b.Get(c)
    decreases |nodes|
  {
    if nodes != [] {
      var b' := Step(b, nodes[0]).buckets;
      assert b'.classes == b.classes + [nodes[0].namespacedName.value];
      WalkOfNamedClasses(b', nodes[1..]);
      var after := Walk(b, nodes).buckets.classes;
      forall i | 0 <= i < |nodes|
        ensures after[|b.classes| + i] == nodes[i].namespacedName.value
      {
        if i > 0 {
          assert nodes[1..][i - 1] == nodes[i];
        }
      }
    }
  }
}
