# Categorize: a verified model of the symbol-categorising AST visitor

This project models `Categorize`, the PHP-Parser node visitor of php-scoper-excludes.
The visitor sorts the declared symbols of a parsed PHP file into five buckets:
classes, interfaces, functions, traits and constants. Constants include those
declared with a `define("NAME", …)` call. The buckets are read back as
naturally ordered, case-insensitive sorted lists.

The model is written in Dafny and has six modules:

- `Wrappers`: `Option` (an unset property, a failed cast) and `Outcome` (PHP's `return null` or a thrown `RuntimeException`).
- `PhpAst`: the node shapes the visitor distinguishes. Each declaration carries an optional resolved `namespacedName`. `define` calls carry the values of their arguments.
- `Categorization`: the buckets as a value. `Step` is what one `leaveNode` call does. `Reset` is the traversal-start hook. `Walk` and `Traverse` are a whole traversal. The module also holds the lemmas stating what these promise.
- `NodeVisitor`: the class `Categorize`. Its five `seq<string>` fields are appended in place by `LeaveNode` and its private `Add…Names` methods. The const entries are appended by a loop. Each method is proved to change the fields exactly as `Step` or `Reset` says.
- `Sorting`: the readers' sort. A copy of the bucket goes into a fresh array, which is sorted in place by insertion sort under any total preorder. The result is proved sorted and a permutation of the bucket.
- `NaturalOrder`: the comparator. Digit runs compare by value, and letters are folded to upper case before comparing, as PHP's case-insensitive natural compare does; so `_` and `\` sort after every letter. It is proved to be a total preorder.

Behaviours of the code worth noting:

- The reset before a traversal empties four buckets and leaves `interfaces` alone. `SecondTraversal` states the resulting carry-over.
- A `const` statement with an unnamed entry throws only after the names of the entries before it are appended (`StepConstPartial`).
- A class node without a resolved name throws. This includes an anonymous class, which has no resolved name.

## Model

| member | source | states |
|---|---|---|
| `NodeVisitor.Categorize.constructor` | src/NodeVisitor/Categorize.php:26-46 | a new visitor starts with five empty buckets |
| `NodeVisitor.Categorize.BeforeTraverse` | src/NodeVisitor/Categorize.php:48-52 | returns no replacement; empties classes, functions, traits and constants; leaves interfaces as it was |
| `NodeVisitor.Categorize.Reset` | src/NodeVisitor/Categorize.php:123-129 | the new buckets are `Categorization.Reset` of the old ones |
| `NodeVisitor.Categorize.LeaveNode` | src/NodeVisitor/Categorize.php:54-86 | the new buckets and the return/throw outcome are exactly those of `Step` on the old buckets |
| `NodeVisitor.Categorize.AddClassNames` | src/NodeVisitor/Categorize.php:131-139 | throws with no change when the name is unresolved, else appends it to classes only |
| `NodeVisitor.Categorize.AddFunctionNames` | src/NodeVisitor/Categorize.php:141-149 | the same for functions |
| `NodeVisitor.Categorize.AddTraitNames` | src/NodeVisitor/Categorize.php:151-159 | the same for traits |
| `NodeVisitor.Categorize.AddInterfaceNames` | src/NodeVisitor/Categorize.php:209-217 | the same for interfaces |
| `NodeVisitor.Categorize.AddConstantNames` | src/NodeVisitor/Categorize.php:161-176 | the loop appends entry names in order up to the first unnamed entry, then throws; an empty statement throws with no change |
| `NodeVisitor.Categorize.AddDefineConstantNames` | src/NodeVisitor/Categorize.php:178-207 | the new constants bucket and outcome are those of `DefineConstant` on the call's arguments |
| `NodeVisitor.Categorize.Classes` | src/NodeVisitor/Categorize.php:88-93 | result is sorted by the natural case-insensitive order and is a permutation of classes (duplicates kept); the bucket is not changed |
| `NodeVisitor.Categorize.Functions` | src/NodeVisitor/Categorize.php:95-100 | the same for functions |
| `NodeVisitor.Categorize.Traits` | src/NodeVisitor/Categorize.php:102-107 | the same for traits |
| `NodeVisitor.Categorize.Constants` | src/NodeVisitor/Categorize.php:109-114 | the same for constants |
| `NodeVisitor.Categorize.Interfaces` | src/NodeVisitor/Categorize.php:116-121 | the same for interfaces |
| `Sorting.SortedCopy` | src/NodeVisitor/Categorize.php:90-92 | a copy of the bucket sorted in place is ordered under the comparator and has the same multiset of elements |
| `Sorting.InsertionSort` | src/NodeVisitor/Categorize.php:91 | sorting an array in place leaves it ordered and a permutation of what it held |
| `NaturalOrder.NatCaseLe` | src/NodeVisitor/Categorize.php:91 | the readers' comparison: digit runs by value, letters folded to upper case; strings equal up to letter case are at most each other |
| `NaturalOrder.UnderscoreAfterLetters` | src/NodeVisitor/Categorize.php:91 | "WPLANG" sorts strictly before "WP_DEBUG": '_' comes after every letter once letters are upper-cased |
| `NaturalOrder.NatCaseLeIsTotalPreorder` | src/NodeVisitor/Categorize.php:91 | the natural case-insensitive comparison is reflexive, transitive and total |
| `NaturalOrder.LexLeTransitive` | src/NodeVisitor/Categorize.php:91 | chunk-by-chunk comparison is transitive |
| `NaturalOrder.LexLeTotal` | src/NodeVisitor/Categorize.php:91 | any two chunk sequences are comparable |
| `NaturalOrder.LexLeReflexive` | src/NodeVisitor/Categorize.php:91 | every chunk sequence is at most itself |
| `NaturalOrder.NatCaseLeIgnoresCase` | src/NodeVisitor/Categorize.php:91 | strings differing only in letter case compare alike against every string |
| `NaturalOrder.ChunksIgnoreCase` | src/NodeVisitor/Categorize.php:91 | such strings are read as the same chunks |
| `NaturalOrder.ItemsInNaturalOrder` | src/NodeVisitor/Categorize.php:91 | "Item1" < "item2" < "Item10" strictly: digit runs compare by value, letters by upper case |
| `NaturalOrder.SortedItems` | src/NodeVisitor/Categorize.php:88-93 | the only sorted permutation of ["Item10", "item2", "Item1"] is ["Item1", "item2", "Item10"] |
| `PhpAst.IsDefineCall` | src/NodeVisitor/Categorize.php:77-80 | the define test: an expression statement whose expression is a function call whose name is a plain name with string form exactly `define` |
| `Categorization.Error.Message` | src/NodeVisitor/Categorize.php:133-216 | the text of each RuntimeException the visitor throws, per missing-name kind, for an empty const statement and for an unreadable define name |
| `Categorization.Step` | src/NodeVisitor/Categorize.php:54-86 | one `leaveNode` call as a function of the buckets and the node, with the dispatch order of the source |
| `Categorization.Buckets.Append` | src/NodeVisitor/Categorize.php:138 | appending to one bucket extends that bucket by the names and leaves the other four unchanged |
| `Categorization.Reset` | src/NodeVisitor/Categorize.php:123-129 | every bucket but interfaces is empty afterwards; interfaces is unchanged |
| `Categorization.StepNamedDeclaration` | src/NodeVisitor/Categorize.php:56-71 | a class/interface/function/trait node with a resolved name returns, appends exactly that name to its own bucket, and changes no other |
| `Categorization.StepUnnamedDeclaration` | src/NodeVisitor/Categorize.php:131-217 | the same node without a resolved name throws the missing-name error of its kind, with every bucket unchanged |
| `Categorization.StepEmptyConst` | src/NodeVisitor/Categorize.php:163-165 | a const statement with no entries throws with every bucket unchanged |
| `Categorization.StepConstAllNamed` | src/NodeVisitor/Categorize.php:161-176 | k named entries: returns, and constants gains exactly their k names in declaration order; other buckets unchanged |
| `Categorization.StepConstPartial` | src/NodeVisitor/Categorize.php:167-175 | first unnamed entry at i: throws, with the names of entries 0..i-1 already appended to constants |
| `Categorization.LeadingNamesOfNamedPrefix` | src/NodeVisitor/Categorize.php:167-175 | the loop appends exactly the names of the entries before the first unnamed one, in order |
| `Categorization.StepDefine` | src/NodeVisitor/Categorize.php:178-207 | string literal or castable value: appended to constants; interpolated string: no change, no error; missing argument or failed cast: throws the "define() declaration has no constant name." error with no change |
| `Categorization.StepIgnoresOtherNodes` | src/NodeVisitor/Categorize.php:77-85 | a node that is not a declaration, a const statement, or an expression statement calling the plain name `define` changes nothing and returns |
| `Categorization.StepAppendsToTargetOnly` | src/NodeVisitor/Categorize.php:54-86 | each node changes at most the one bucket its kind selects, and only by appending |
| `Categorization.StepFailureKeepsBuckets` | src/NodeVisitor/Categorize.php:131-217 | a throwing node other than a const statement (a declaration without a name, or a define call without a readable name) leaves all buckets unchanged, since every check precedes the append |
| `Categorization.StepIndependentOfBuckets` | src/NodeVisitor/Categorize.php:54-86 | what a step appends and whether it throws depend only on the node |
| `Categorization.WalkIndependentOfBuckets` | src/NodeVisitor/Categorize.php:54-86 | the same for a sequence of nodes left in turn |
| `Categorization.SecondTraversal` | src/NodeVisitor/Categorize.php:48-52 | a second traversal yields the same classes, functions, traits and constants as a fresh visitor would; interfaces keeps the earlier traversal's names in front |
| `Categorization.WalkOfIrrelevantNodes` | src/NodeVisitor/Categorize.php:77-85 | nodes that declare nothing leave the buckets unchanged and raise nothing |
| `Categorization.FreshTraversalOfIrrelevantNodes` | src/NodeVisitor/Categorize.php:26-52 | a fresh visitor that sees no declarations ends with five empty buckets |
| `Categorization.WalkOfNamedClasses` | src/NodeVisitor/Categorize.php:131-139 | N named class nodes: classes gains exactly their N names in order, nothing else changes, nothing is thrown |

## Left out

- Parsing, the `NodeTraverser` that calls the hooks, and the name-resolution pass that sets `namespacedName` belong to PHP-Parser, which is not part of this model. Nodes arrive as values with an optional resolved name. `Walk` stands for the traverser leaving nodes in order and stopping at the first exception. `Name::toString` is taken as given: a call name is its string form.
- `NaturalOrder.NatCaseLe`: the comparison is a simplified form of PHP's case-insensitive natural compare. It folds ASCII letters to upper case as PHP does. Whitespace (which PHP skips at every position), leading zeros ("01" and "1" compare equal here), fractional digit runs and locale-dependent case folding follow the PHP runtime, not this model. A digit run is ordered where the character '0' would be.
- NodeVisitor.Categorize.Classes: promises a sorted permutation, not PHP's exact order among strings the comparator ranks equal (such as "A" and "a").
- NodeVisitor.Categorize.Functions: the same.
- NodeVisitor.Categorize.Traits: the same.
- NodeVisitor.Categorize.Constants: the same.
- NodeVisitor.Categorize.Interfaces: the same.
- The `(string)` cast of a non-literal first argument of `define` depends on foreign node classes. It is a partial value: `OtherValue(Some(s))` when the cast succeeds and `OtherValue(None)` when it throws.
- Categorization.FirstArgument: a `define()` call with an empty argument list passes the `isset` check, so what happens next depends on PHP's warning handling. The model assumes reading `args[0]` then raises, giving the "no constant name" error. Without a handler that turns warnings into exceptions, PHP only warns, `$valueNode` is null, and `(string) null` appends "" to `constants` with no error; that behaviour is not modelled.
- A variadic placeholder as the first argument of `define` (`define(...)`) is not modelled.
- Exception codes and previous-exception chaining are not modelled. The cause's message, which the source appends to the define error after a newline, is not modelled either. `Error.Message` gives each exception's own text.
- The `$nodes` argument of `beforeTraverse` is unused by the source and unused here.
- The hooks inherited from `NodeVisitorAbstract` (`enterNode`, `afterTraverse`) do nothing and are not modelled.
