# upptest-imgui test tree, modelled in Dafny

upptest-imgui draws the tests registered with the upptest framework as a
tree in an ImGui window. This project models the logic under that window,
all of it in `upptest_imgui.h`:

- `create_tree` splits each test's category string on a separator (with
  `std::getline` semantics) and inserts the test into a prefix tree of
  `test_node`s, using `add_node` and `test_node::add_child`;
- `test_node::update_stats` computes the pass/fail totals (`node_stats`)
  of each category it reaches without passing through a leaf, and caches
  them;
- `test_node::update_selected` sets a node's selection flag, and by default
  the flag of every node below it;
- `run_selected` runs the selected runnable leaves (or all runnable
  leaves) depth-first and stores their results;
- `update_tree` picks a verdict label ("Not run", "Failed", "Success") for
  each node.

The tree is a class `TestNodes.TestNode` whose fields the methods update in
place. A ghost `model` holds the node's value as a `TreeModel.Tree`
datatype, and a ghost `Repr` holds its footprint; `Valid()` links both to
the fields. Each method is proved against a function on `Tree`:

| source function | model function |
|---|---|
| `node_stats::operator +=` | `Stats.NodeStats.Plus` |
| the `getline` split loop | `CategoryPath.Segments` |
| the `std::find_if` child lookup | `TreeModel.FirstMatch` |
| `add_node` | `Insert` |
| `create_tree` | `Build` |
| `update_stats` | `StatsOf` and `Refresh` |
| `update_selected` | `SelectTree` |
| `run_selected` calls | `ToRun` |
| `run_selected` results | `RunTree` |

The modules `InsertFacts`, `OrderFacts`, `StatsFacts`, `SelectFacts`,
`RunFacts` and `Labels` prove properties of those functions. `Scenarios`
proves a few concrete trees.

The test framework is outside this model. A test descriptor is the value
`Info(name, category)`. The runner is the class `Upptest.Runner`. Its
results come from an arbitrary function `outcome`. Its ghost `calls`
records which descriptors were run, and in which order.

`add_node` looks up children by name with `std::find_if` at
upptest_imgui.h:183. That lookup searches only the children of the node
reached so far, takes the first child with the segment's name, and also
matches leaves. So when, at some level, the first child named after the next
segment is a test's leaf, the path continues below that leaf, and the new
test is attached under it. Neither `update_stats` nor `run_selected` looks below a
leaf. Such a test is therefore in the tree but is never counted or run.
The model keeps this behaviour as written. `Runnable` names the leaves that
are counted and run, and `Scenarios.HiddenBelowLeaf` shows the effect.

In the code every segment, the last one included, becomes a category
node: categories p.q and p.r give p two category children q and r, each
holding one leaf (see `Scenarios.SiblingCategories`).

## Model

| member | source | states |
|---|---|---|
| Stats.LeafStats | upptest_imgui.h:137-143 | a leaf reports count 1, pass count 1 exactly when its status is pass, failed count 1 exactly when it is fail; the totals are bounded |
| Stats.PlusBounded | upptest_imgui.h:78-84 | `+=` of two totals where passes plus failures do not exceed the count keeps that bound |
| Stats.PlusMonoid | upptest_imgui.h:54-84 | `+=` is associative, and the default-constructed all-zero totals are its identity |
| Upptest.Runner.Run | upptest_imgui.h:232-234 | a run returns the framework's result for the descriptor and appends the descriptor to the record of runs |
| TestNodes.TestNode.constructor | upptest_imgui.h:113-118 | a new node has the given name and descriptor, is unselected, has zero totals, a not-run result and no children |
| TestNodes.TestNode.AddCategory | upptest_imgui.h:120-125 | exactly one new category node is appended at the end of the children; earlier children stay; the new node has the name, no descriptor, no selection, zero totals |
| TestNodes.TestNode.AddTest | upptest_imgui.h:127-132 | exactly one new leaf is appended at the end of the children, named after the descriptor and holding it; earlier children stay |
| TestNodes.TestNode.UpdateStats | upptest_imgui.h:134-151 | returns the node's count over its runnable leaves; a leaf changes nothing; a category caches the sum of its children's freshly computed totals, and so does every category below it reached without passing through a leaf |
| TestNodes.TestNode.SumChildStats | upptest_imgui.h:145-148 | the loop's total is the componentwise sum, in child order, of the totals each child's update returns; each child is updated |
| TestNodes.TestNode.UpdateSelected | upptest_imgui.h:153-163 | the node's flag becomes the value; with recursion (the default) every descendant's flag does too; without it nothing below changes |
| TestNodes.TestNode.SelectChildren | upptest_imgui.h:156-162 | every child, and everything below it, gets the flag; the node itself is unchanged |
| TreeModel.FirstMatchIsFirst | upptest_imgui.h:183 | the name lookup finds the first child with that name, leaf or category, and no earlier child has it |
| TreeBuilder.FindChild | upptest_imgui.h:183 | the lookup over the real children returns the first child named after the segment, or the end position when none is |
| TreeBuilder.ChildFor | upptest_imgui.h:183-191 | the node descended into is the first child with the segment's name; a new category is appended exactly when there is none, and otherwise nothing changes |
| TreeBuilder.AddNode | upptest_imgui.h:174-193 | the tree becomes `Insert` of the old tree, and the returned node is the new leaf, in the tree, named after the descriptor and holding it |
| TreeBuilder.CreateTree | upptest_imgui.h:195-213 | the returned root is a new tree equal to every test inserted in order into an empty root, followed by one stats update |
| TreeBuilder.CreateTreeDefault | upptest_imgui.h:215-219 | the same with the separator `.` |
| TreeBuilder.CreatedTree | upptest_imgui.h:195-213 | the built root has an empty name and no descriptor; it holds every given test exactly as often as given; every category reached without passing through a leaf caches its totals; the root's totals count the runnable leaves |
| CategoryPath.GetLine | upptest_imgui.h:205 | one getline call returns the text up to the next separator or the end, and moves past the separator |
| CategoryPath.SplitCategory | upptest_imgui.h:202-207 | the split loop yields exactly the segments of the category |
| CategoryPath.SegmentsShape | upptest_imgui.h:202-207 | only the empty category has no segments, and no segment contains the separator |
| CategoryPath.JoinSegments | upptest_imgui.h:202-207 | rejoining the segments with the separator gives the category back; a trailing separator is the one thing lost |
| CategoryPath.SegmentsJoin | upptest_imgui.h:202-207 | splitting separator-free segments joined by the separator gives them back, when the last one is non-empty |
| InsertFacts.InsertAddsTest | upptest_imgui.h:174-193 | `add_node` adds exactly one descriptor to the tree and removes none |
| InsertFacts.InsertReachable | upptest_imgui.h:174-193 | after `add_node` the path can be followed from the node, and the node it leads to has the new leaf as its last child |
| InsertFacts.InsertExtends | upptest_imgui.h:174-193 | `add_node` keeps the order and names of the existing children, leaves every child but the one it descends into exactly as it was, and appends at most one; at every depth no existing node is removed, reordered or has a field changed, and each node gains at most one child |
| InsertFacts.InsertSize | upptest_imgui.h:174-193 | `add_node` adds at least one node and at most one more per segment |
| InsertFacts.InsertExistingPath | upptest_imgui.h:183-191 | along a path that already exists, `add_node` adds only the leaf and creates no category |
| InsertFacts.InsertKeepsPaths | upptest_imgui.h:174-193 | a path that can be followed before `add_node` can still be followed afterwards |
| InsertFacts.BuildHoldsTests | upptest_imgui.h:199-209 | the tree built from n tests holds exactly those descriptors, so it has n leaves |
| InsertFacts.BuildRoot | upptest_imgui.h:198 | the root is unnamed, holds no descriptor, and is not selected |
| InsertFacts.RefreshKeepsTests | upptest_imgui.h:134-151 | the stats update moves and drops no test |
| OrderFacts.InsertLeavesAt | upptest_imgui.h:174-193 | `add_node` appends the descriptor to the leaves under its own path and changes the leaves under no other path |
| OrderFacts.BuildLeavesInOrder | upptest_imgui.h:199-209 | under every path, the leaves are exactly the tests whose category splits into that path, in input order |
| StatsFacts.StatsAreTally | upptest_imgui.h:134-151 | a node's totals are the number of runnable leaves below it, and how many of them last passed and last failed |
| StatsFacts.StatsBounded | upptest_imgui.h:134-151 | at every node passes plus failures do not exceed the count |
| StatsFacts.CountPositive | upptest_imgui.h:140-141 | a status count is positive exactly when some counted leaf has that status |
| StatsFacts.CountAll | upptest_imgui.h:140-141 | a status count equals the number of leaves exactly when every counted leaf has that status |
| StatsFacts.RefreshCaches | upptest_imgui.h:145-149 | after the update the cached totals of every category reached without passing through a leaf equal the sum of its children's |
| StatsFacts.RefreshKeepsStats | upptest_imgui.h:134-151 | a second update computes the same totals, over the same runnable leaves |
| StatsFacts.RefreshOnlyStats | upptest_imgui.h:134-151 | the update changes no name, descriptor, result, selection flag or child count at any node of the tree, only cached totals; every leaf, at any depth, stays exactly as it was |
| SelectFacts.SelectAll | upptest_imgui.h:153-163 | the recursive update gives every node below the same flag, leaves and their children included |
| SelectFacts.SelectOnlyFlags | upptest_imgui.h:153-163 | selection changes nothing but selection flags |
| SelectFacts.SelectShallow | upptest_imgui.h:155-156 | without recursion only the node's own flag is set |
| SelectFacts.SelectIdempotent | upptest_imgui.h:153-163 | selecting twice with the same arguments is selecting once |
| SelectFacts.SelectOverrides | upptest_imgui.h:289-296 | "Select none" after "Select all" (or the reverse) gives the same tree as the last one alone |
| Dispatch.RunSelected | upptest_imgui.h:221-236 | the runner is called, in order, with exactly the descriptors `ToRun` lists; the tree becomes `RunTree` of the old one; selection is respected by default |
| Dispatch.RunChildren | upptest_imgui.h:223-229 | the children are run one after another in order; the calls are their lists concatenated |
| RunFacts.RunnableAreLeaves | upptest_imgui.h:223-230 | the nodes a run or a count reaches are leaves, never categories |
| RunFacts.ToRunIsChosen | upptest_imgui.h:221-236 | a run hands the runner the descriptors of the chosen runnable leaves, each once, depth-first in child order |
| RunFacts.ChosenAllWhenIgnoring | upptest_imgui.h:230 | when selection is ignored every runnable leaf is run |
| RunFacts.RunAllCount | upptest_imgui.h:284-287 | "Run all" on a node runs exactly as many tests as its totals count |
| RunFacts.RunTouchesRunnable | upptest_imgui.h:221-236 | after a run, the runnable leaves are the old ones, each with the runner's result exactly when it was chosen |
| RunFacts.RunAllThenCount | upptest_imgui.h:328-331 | after "Run All" and the stats update, the totals count the runner's verdicts on the runnable leaves |
| RunFacts.RunOnlyResults | upptest_imgui.h:221-236 | at every node of the tree a run changes no name, descriptor, selection flag, cached totals or shape, and a node whose result changes is a chosen leaf; categories keep their results, and everything below a leaf stays exactly as it was |
| Labels.LeafVerdict | upptest_imgui.h:264-275 | a leaf shows "Not run" exactly when not run, "Failed" exactly when failed, and "Success" otherwise |
| Labels.CategoryVerdict | upptest_imgui.h:301-312 | a category shows "Failed" exactly when its failed count is non-zero, "Success" exactly when nothing failed and the passes equal the count, and "Not run" otherwise |
| Labels.LeafVerdictAgrees | upptest_imgui.h:264-275 | a leaf's label is the one its own one-test totals would get as a category |
| Labels.CategoryVerdictMeaning | upptest_imgui.h:301-312 | with fresh totals a category shows "Failed" exactly when some runnable leaf below failed, and "Success" exactly when all passed, so also when there are none |
| Scenarios.SplitTwo | upptest_imgui.h:202-207 | "a.b" splits into "a" and "b" |
| Scenarios.SplitEmptyMiddle | upptest_imgui.h:202-207 | "a..b" splits into "a", "" and "b" |
| Scenarios.SplitTrailing | upptest_imgui.h:202-207 | "a." splits into "a" alone, and "" into no segment, so such a leaf goes directly under the root |
| Scenarios.OneSegment | upptest_imgui.h:202-207 | a category without separators is one segment |
| Scenarios.TwoSegments | upptest_imgui.h:202-207 | a category of two separator-free names joined by a separator splits into those names |
| Scenarios.SharedCategory | upptest_imgui.h:199-209 | two tests of one single-segment category become two leaves, in order, under one new category |
| Scenarios.SiblingCategories | upptest_imgui.h:199-209 | tests in p.q and p.r give p two category children q and r, each with one leaf |
| Scenarios.BuildBelowLeaf | upptest_imgui.h:183-192 | a test whose category is an earlier top-level test's name is placed below that test's leaf |
| Scenarios.HiddenBelowLeaf | upptest_imgui.h:183-192 | in that tree both tests are held, but the totals count one test and "Run all" runs only the first |

## Left out

- The ImGui drawing and input handling in `update_tree` and `window`
  (upptest_imgui.h:238-342) is not modelled. This includes the colours,
  the formatted label texts and the error message shown with "Failed".
  The model keeps only which of the three verdicts is chosen, and it
  treats the "Run", "Run all", "Select all", "Select none", "Run All" and
  "Run selected" actions as calls of the modelled operations.
- The `node_stats` copy and move constructors and assignments
  (upptest_imgui.h:56-76, 86-92) are not modelled. The totals are a value
  type here.
- Ownership through `shared_ptr` and `weak_ptr` is not modelled.
- The `parent` back-pointer is not modelled: the logic never reads it.
- The delegating constructors at upptest_imgui.h:105-111 are reduced to
  the one constructor they forward to.
- `upptest/upptest.h` is not part of this model: the `info`, `result`,
  `status` and runner types, and `utest::runner::run`. The runner is the
  function `Upptest.Runner.outcome`. Any further effect of running a test,
  and the value `r` that `run` returns, are not modelled.
- A default-constructed `result` is taken to have status not-run and an
  empty message.
- A test descriptor is a value (name and category). The pointer identity
  of `test_info` is not modelled: two equal descriptors are
  indistinguishable.
- TestNodes.TestNode.UpdateStats: the counters are unbounded naturals; the
  `size_t` wrap-around is not modelled.
- Stats.PlusBounded: the counters are unbounded naturals; the `size_t`
  wrap-around is not modelled.
- `stringstream` and `getline`'s handling of stream state is reduced to
  splitting the category string. `CategoryPath.GetLine` models a call that
  succeeds; the last, failing call is the loop guard of
  `CategoryPath.SplitCategory`.
- Categories are sequences of Dafny `char`, while the source splits bytes
  on a one-byte `char` separator. The two agree when the separator is an
  ASCII character.
- The iterator template parameters of `add_node` and `create_tree` become
  sequences (`seq<string>` of segments, `seq<Info>` of descriptors).
