# voxurf command engine, modelled in Dafny

voxurf carries out a natural-language command ("search for shoes and open the first result") on
a user interface. It does this in round trips ("trips") with a language model:

1. It takes the interface's element tree, rendered as text with one line per element.
2. It sends that text, the command and the descriptions of earlier trips, in a prompt, to the model.
3. It takes the model's answer. Inside a block fenced by "```" lines, the answer holds `CLICK`,
   `FILL`, `WAIT` and `FINISH` instructions.
4. It carries out the clicks and fills on the interface.

A `WAIT` that another line follows ends the trip. The next trip waits until the tree has changed
and settled again. A `FINISH` ends the command. The result is the newline-joined list of the
descriptions the model gave.

This project models that engine:

- **The executor** (`packages/voxurf/src/executor.rs`): the trip loop, the action parser, fence
  extraction, prompt assembly and the stability monitor. The monitor is what decides that the
  tree has changed and then settled.
- **Node rendering** (`packages/voxurf/src/tree.rs`).
- **Tree reconstitution in the browser extension**
  (`packages/voxurf-extension/src/compute_tree.rs`). Chrome's flat accessibility tree comes in as
  records that each name their parent. Reconstitution turns them into a nested tree and drops
  elements that cannot be focused, hoisting their children into their place.
- **The extension's earlier command loop** (`packages/voxurf-extension/src/command.rs`). It does
  the same work but panics where the executor returns errors. Each panic is modelled as a value
  that ends the command.

Each part of the source keeps its own form in the model:

- Pure computations are functions, with lemmas about them.
- Each loop of the imperative code is a `method` with a `while` loop. Its postcondition ties it
  to the function that specifies it:
  - the parser loop and the fence loop;
  - the tree-text loop and the stability loop;
  - the trip loops, the action loops and the selector-map loop;
  - the reconstitution passes.
- The two loops inside `Node::to_string` (over the properties and over the children) only build
  one string from the node's fields. They are recursive functions, `Tree.EntriesWithCommas` and
  `Tree.ChildrenText`, because the rendering they belong to is a pure, recursive function.
- The interface, the model, the browser and the page are oracles, passed in as function values.
  - In the executor, the interface's operations take the number of interface calls made earlier
    in the command.
  - The model takes the trip number.
  - This makes every run of a command a function of its inputs.

The executor never inserts anything into its id map (`executor.rs:45` creates it empty, and
nothing fills it). As written, every click or fill the model asks for therefore fails with
`IdNotFound`. The model keeps this behaviour, and `Executor.NewExecutorActionFails` proves it. A
design in which each trip builds its id map from that trip's tree does not appear in this code,
and neither do "virtual" ids spaced by a factor. The model follows the code: an action's id is
looked up in the id map directly.

## Model

| member | source | states |
|---|---|---|
| StdStr.Trim | packages/voxurf/src/executor.rs:396 | The result has no whitespace at either end and is no longer than the input. A string that already has none is returned unchanged. An all-whitespace string becomes empty. |
| StdStr.TrimStart | packages/voxurf/src/executor.rs:114 | The result is a suffix of the input. Everything dropped is whitespace, and the result does not start with whitespace. |
| StdStr.TrimEnd | packages/voxurf/src/executor.rs:114 | The result is a prefix of the input. Everything dropped is whitespace, and the result does not end with whitespace. |
| StdStr.SplitN | packages/voxurf/src/executor.rs:333 | `splitn(n, sep)` gives between 1 and n pieces. No piece but the last contains the separator. |
| StdStr.JoinSplitN | packages/voxurf/src/executor.rs:333-335 | Joining the pieces of `splitn` with the separator gives back the original line. |
| StdStr.SplitNFirst | packages/voxurf/src/executor.rs:333-335 | Splitting `a sep b`, where `a` has no separator, gives `a` followed by the pieces of `b`, split one fewer time. |
| StdStr.IndexOf | packages/voxurf/src/executor.rs:333 | The index found holds the character, and no earlier position does. When no index is found, the character is absent. |
| StdStr.Lines | packages/voxurf/src/executor.rs:128 | `str::lines` gives lines without line breaks. It gives no lines exactly for the empty string. |
| StdStr.LinesOfJoin | packages/voxurf/src/executor.rs:128 | Lines without breaks or trailing carriage returns, the last one non-empty, come back unchanged from `lines` after being joined with "\n". |
| StdStr.StripPrefix | packages/voxurf/src/executor.rs:342-344 | `strip_prefix(c)` succeeds exactly when the string starts with `c`, and then gives the rest. |
| StdStr.StripSuffix | packages/voxurf/src/executor.rs:345-346 | `strip_suffix(c)` succeeds exactly when the string ends with `c`, and then gives the rest. |
| StdStr.StripSuffixStr | packages/voxurf/src/tree.rs:62 | Stripping a string suffix succeeds exactly when the string ends with it, and then gives what comes before it. |
| StdStr.PrefixBefore | packages/voxurf/src/executor.rs:110-113 | The first piece of `split(p)` is a prefix of the string. It is either the whole string or followed by an occurrence of `p`. |
| StdStr.PrefixBeforeExcludes | packages/voxurf/src/executor.rs:110-113 | The first piece of `split(p)` never contains `p`. |
| StdStr.PrefixBeforeAbsent | packages/voxurf/src/executor.rs:110-113 | A string without `p` is its own first piece. |
| StdStr.TrimExcludes | packages/voxurf/src/executor.rs:114 | Trimming a string that does not contain `p` leaves a string that does not contain it either. |
| StdStr.ReplaceAbsent | packages/voxurf/src/executor.rs:97-107 | Replacing a pattern that does not occur leaves the string unchanged. |
| StdStr.ReplaceSkip | packages/voxurf/src/executor.rs:97-107 | When no occurrence of the pattern starts inside a leading part, `replace` leaves that part and works on the rest. |
| StdStr.ReplaceHere | packages/voxurf/src/executor.rs:97-107 | An occurrence at the start is replaced, and `replace` goes on after it. |
| StdStr.PrefixBeforeSkip | packages/voxurf/src/executor.rs:108-113 | When no occurrence of `p` starts inside a leading part, the first piece of `split(p)` keeps that part and goes on into the rest. |
| StdStr.PrefixBeforeHere | packages/voxurf/src/executor.rs:108-113 | A text that starts with `p` has an empty first piece. |
| StdStr.Decimal | packages/voxurf/src/tree.rs:42 | The decimal text of a number is a non-empty run of digits, with no leading zero unless it is "0". |
| StdStr.ParseDecimal | packages/voxurf/src/executor.rs:347-349 | `u32` parsing reads back the decimal text of any `u32`. |
| StdStr.ParseU32Rejects | packages/voxurf/src/executor.rs:347-349 | `u32` parsing rejects any text with a character that is not a digit, except a leading '+'. |
| StdStr.CountConcat | packages/voxurf/src/tree.rs:71-80 | The line breaks in two joined texts are those of each. |
| Tree.ForestSelectorsSize | packages/voxurf-extension/src/compute_tree.rs:209-210 | A forest has exactly one selector for each of its nodes. |
| Tree.ForestAppend | packages/voxurf-extension/src/compute_tree.rs:229-230 | The nodes and selectors of two forests side by side are those of each. |
| Tree.Details | packages/voxurf/src/tree.rs:40-70 | Specification of a node's line after its id: the name (or "<null>"), the role, the description, the properties and the state, each section empty when its field is absent. Its properties are `Tree.PropertiesTextJoined` and `Tree.HeaderSingleLine`. |
| Tree.Header | packages/voxurf/src/tree.rs:40-70 | Specification of a node's own line: its tabs, then `- [`, its id and `] "`, then the details. Its properties are `Tree.HeaderSingleLine` and `Tree.RenderStart`. |
| Tree.Render | packages/voxurf/src/tree.rs:38-82 | Specification of `to_string` with the state label as a parameter: the node's line, then a line break and the rendering of each child one level deeper. Its properties are `Tree.RenderLines`, `Tree.RenderStart` and `Tree.ChildrenTextLabelFree`. |
| Tree.ToString | packages/voxurf/src/tree.rs:38-82 | `to_string` with the executor's label " with state ". Its properties are those of `Tree.Render`. |
| Tree.PropertiesTextJoined | packages/voxurf/src/tree.rs:54-65 | No properties render as nothing. Otherwise they render as " {k: v, k: v}": the entries, in order, with ", " between them and no trailing separator. |
| Tree.EntriesWithCommasJoined | packages/voxurf/src/tree.rs:55-61 | The loop's text is the entries joined by ", " plus one trailing ", ", which `strip_suffix` then removes. |
| Tree.RenderLines | packages/voxurf/src/tree.rs:38-82 | A node whose fields have no line breaks renders as exactly one line per node of its subtree, so there is one "\n" fewer than its size. |
| Tree.ChildrenTextLines | packages/voxurf/src/tree.rs:71-80 | The children part of the text has exactly one line break for every node below. |
| Tree.HeaderSingleLine | packages/voxurf/src/tree.rs:40-70 | The part of a node's line before its children has no line break. |
| Tree.RenderStart | packages/voxurf/src/tree.rs:40-43 | A node's text starts with its indentation tabs, "- [", and its id. The id reads back from the text with `u32` parsing. |
| Tree.ChildrenTextLabelFree | packages/voxurf/src/tree.rs:66-70 | In a forest with no state, the state label makes no difference to the text. The executor's label " with state " and the extension's older label " with value " (command.rs:185-189) render such trees identically. |
| Tree.EntryTexts | packages/voxurf/src/tree.rs:56-60 | There is one entry text per property, "key: value", in order. |
| TreePaths.AppendAt | packages/voxurf-extension/src/compute_tree.rs:180-200 | Pushing onto the children list that a path names extends that list by exactly the node, and the path stays valid. |
| TreePaths.AppendAtFrame | packages/voxurf-extension/src/compute_tree.rs:180-200 | A push changes no list that a path off its own path names: such a path stays valid and names the same list. |
| TreePaths.AppendAtPath | packages/voxurf-extension/src/compute_tree.rs:180-200 | On the way down to the pushed list, each list keeps its length and its nodes. Only the node the path goes through next gets new children; its other fields are unchanged. |
| TreePaths.AppendAtCounts | packages/voxurf-extension/src/compute_tree.rs:209-210 | The forest gains exactly the nodes and selectors of the node pushed. |
| TreePaths.AppendKeepsValid | packages/voxurf-extension/src/compute_tree.rs:190-197 | A push never invalidates a path already recorded, so the unwraps in `get_tree_children` cannot fail. |
| TreePaths.LocExtend | packages/voxurf-extension/src/compute_tree.rs:211-212 | A path extended by an index is valid exactly when the index is within the list the path names, and it then names that child's children. |
| TreePaths.AppendedLoc | packages/voxurf-extension/src/compute_tree.rs:211-213 | The path recorded for a node just pushed (its parent's path plus its index) is valid, and names its own, empty, children list. |
| ComputeTree.AnyFocusable | packages/voxurf-extension/src/compute_tree.rs:62-65 | True exactly when some property is named "focusable" and its value is JavaScript `true`. |
| ComputeTree.KeptProperties | packages/voxurf-extension/src/compute_tree.rs:74-85 | No kept property is "focusable", and every other property is kept with its value's text. |
| ComputeTree.KeptSplit | packages/voxurf-extension/src/compute_tree.rs:74-85 | The `filter` and `map` work property by property, in order: the kept properties of two runs are those of the first followed by those of the second. |
| ComputeTree.KeptOne | packages/voxurf-extension/src/compute_tree.rs:76-84 | A single property is kept, as its name and its value's text, exactly when it is not "focusable". |
| ComputeTree.IntoIntermediate | packages/voxurf-extension/src/compute_tree.rs:59-90 | A record keeps its id and parent id. It is kept exactly when it has properties, one of them is focusable and true, it is not ignored, and its role is not "RootWebArea". It keeps no "focusable" property. |
| ComputeTree.IntoFinal | packages/voxurf-extension/src/compute_tree.rs:137-147 | Specification of `into_final`: a childless node with the record's DOM id, name, role, description, kept properties and value. `ComputeTree.FinalLeaf` states its shape. |
| ComputeTree.FinalLeaf | packages/voxurf-extension/src/compute_tree.rs:137-147 | The final node of a record is a single node whose id is the record's DOM id and whose state is its value. |
| ComputeTree.Flat | packages/voxurf-extension/src/compute_tree.rs:158-163 | There is one pending intermediate record per raw node, in order. |
| ComputeTree.Place | packages/voxurf-extension/src/compute_tree.rs:174-233 | Specification of placing one record: no change when its parent has no place yet, otherwise the push (for a kept record) and its place. Its properties are `ComputeTree.PlaceValid` and the `Place…` lemmas below. |
| ComputeTree.PlaceValid | packages/voxurf-extension/src/compute_tree.rs:174-233 | Placing a record fails exactly when its parent has no recorded place. Otherwise it keeps every recorded path valid, appends the record's selector exactly when the record is kept, and records a place for its id. |
| ComputeTree.Kept | packages/voxurf-extension/src/compute_tree.rs:208-215 | Pushing a kept record at a valid path, with its selector and its own path, keeps the arena consistent. |
| ComputeTree.PlaceKeptRoot | packages/voxurf-extension/src/compute_tree.rs:221-232 | A kept record without a parent becomes a new last root. Its selector is appended, and its place is the path to that root, with no children yet. |
| ComputeTree.PlaceKeptChild | packages/voxurf-extension/src/compute_tree.rs:200-215 | A kept record whose parent has a place becomes the last child in that place. Its selector is appended, and its own place is the path to it. |
| ComputeTree.PlaceRemoved | packages/voxurf-extension/src/compute_tree.rs:206-207 | A record flagged for removal changes neither the tree nor the selectors. Its place is its parent's place, or the top level. |
| ComputeTree.RemovedRootHoists | packages/voxurf-extension/src/compute_tree.rs:223-226 | A kept child of a removed top-level record becomes a root itself. |
| ComputeTree.RemovedChildSplices | packages/voxurf-extension/src/compute_tree.rs:203-207 | A kept child of a removed record joins the removed record's parent's children. |
| ComputeTree.Sweep | packages/voxurf-extension/src/compute_tree.rs:173-235 | Specification of one pass over the records, from a given index. Its properties are `ComputeTree.SweepEntries`, `ComputeTree.SweepValid` and `ComputeTree.SweepParentsFirst`. |
| ComputeTree.SweepEntries | packages/voxurf-extension/src/compute_tree.rs:173-235 | A pass only ever clears records. It never touches those before its starting point. |
| ComputeTree.SweepValid | packages/voxurf-extension/src/compute_tree.rs:173-235 | A pass keeps the arena consistent. |
| ComputeTree.Passes | packages/voxurf-extension/src/compute_tree.rs:172-247 | Specification of the `while` loop of passes, with at most `MAX_ITERS` passes. Its property is `ComputeTree.PassesResult`. |
| ComputeTree.PassesResult | packages/voxurf-extension/src/compute_tree.rs:172-247 | The passes either give a tree with one selector per node, listing exactly its nodes' selectors, or time out after `MAX_ITERS`. |
| ComputeTree.Reconstitute | packages/voxurf-extension/src/compute_tree.rs:152-248 | Specification of `get_ax_tree` on the deserialised records. Its properties are `ComputeTree.ReconstituteResult`, `ComputeTree.ParentsFirstOnePass` and `ComputeTree.OrphanTimesOut`. |
| ComputeTree.ReconstituteResult | packages/voxurf-extension/src/compute_tree.rs:152-248 | `get_ax_tree` gives a tree with one selector per node, listing exactly its nodes' selectors. It can also fail: with the deserialiser's message for a raw tree that does not deserialise, or with `TreeReconstitutionTimeout(50)`. |
| ComputeTree.SweepParentsFirst | packages/voxurf-extension/src/compute_tree.rs:173-235 | When every record's parent is placed or comes earlier, one pass places every record. |
| ComputeTree.ParentsFirstStep | packages/voxurf-extension/src/compute_tree.rs:174-233 | Placing the next record of such a list succeeds, and the rest of the list stays parents-first. |
| ComputeTree.ParentsFirstOnePass | packages/voxurf-extension/src/compute_tree.rs:172-247 | Records listed with every parent before its children are always reconstituted. |
| ComputeTree.SweepKeepsOrphan | packages/voxurf-extension/src/compute_tree.rs:216-220 | A record whose parent is never among the records stays pending through a pass. |
| ComputeTree.PassesKeepOrphan | packages/voxurf-extension/src/compute_tree.rs:216-242 | Such a record makes the passes time out. |
| ComputeTree.OrphanTimesOut | packages/voxurf-extension/src/compute_tree.rs:238-242 | A record whose parent id names no record makes `get_ax_tree` fail with `TreeReconstitutionTimeout(50)`. |
| ComputeTree.PlaceRecord | packages/voxurf-extension/src/compute_tree.rs:174-233 | The in-place placement of one record does what `Place` specifies, and changes nothing when the parent has no place yet. |
| ComputeTree.SweepPass | packages/voxurf-extension/src/compute_tree.rs:173-235 | The `for` loop over the records performs one pass, as `Sweep` specifies, and keeps the arena consistent. |
| ComputeTree.GetAxTree | packages/voxurf-extension/src/compute_tree.rs:152-248 | The `while` loop of passes computes `Reconstitute`, whose properties are proved above. |
| ActionParser.StepOf | packages/voxurf/src/executor.rs:333-411 | Specification of the decision for one line's pieces, given whether a line follows. Its properties are the `…Line` lemmas below. |
| ActionParser.Interpret | packages/voxurf/src/executor.rs:331-411 | Specification of one line: its pieces, then `StepOf`. |
| ActionParser.Run | packages/voxurf/src/executor.rs:327-416 | Specification of the loop's effect on the group: an action is added, a rejection ends the parse with its error, a `WAIT` ends it with an incomplete group, and a `FINISH` sets the description and completes the group. Its properties are `ActionParser.RunCollect` and `ActionParser.AroundRun`. |
| ActionParser.Parse | packages/voxurf/src/executor.rs:327-416 | Specification of `parse_action_strings`: the steps of the lines, run from the default group. Its properties are the lemmas from `ActionParser.ClickLine` on. |
| ActionParser.Pieces | packages/voxurf/src/executor.rs:333-335 | A line splits into between one and three pieces. |
| ActionParser.StripBrackets | packages/voxurf/src/executor.rs:342-346 | "[x]" becomes "x", and "x]" becomes "x". Without a closing ']' the id is kept as written, even with an opening '[', because `unwrap_or` falls back to the original id. |
| ActionParser.Unquote | packages/voxurf/src/executor.rs:366-372 | The text is accepted exactly when it is at least two characters long and single-quoted at both ends, and then gives the text between the quotes. |
| ActionParser.ActionStep | packages/voxurf/src/executor.rs:337-377 | A line that is neither `WAIT` nor `FINISH` is skipped, gives one action, or is rejected. |
| ActionParser.Steps | packages/voxurf/src/executor.rs:331 | There is one step per line. |
| ActionParser.ParseActionStrings | packages/voxurf/src/executor.rs:327-416 | The parser's loop computes `Parse`, whose behaviour the lemmas below pin down. |
| ActionParser.ParseLine | packages/voxurf/src/executor.rs:331-412 | The loop body decides each line as `Interpret` does, given whether another line follows. |
| ActionParser.ClickLine | packages/voxurf/src/executor.rs:337-351 | `CLICK id` gives a click on the parsed id, or the id's parse error. |
| ActionParser.FillLine | packages/voxurf/src/executor.rs:352-365 | `FILL id` without text is rejected: with the id's parse error, or with `MissingTextInType`. |
| ActionParser.FillTextLine | packages/voxurf/src/executor.rs:352-377 | `FILL id rest` gives typing of the unquoted rest into the parsed id. It is rejected with the id's error, or with `TextInTypeNotSingleQuoted(rest)`. |
| ActionParser.ActionWord | packages/voxurf/src/executor.rs:337-352 | A line that is neither `WAIT` nor `FINISH` is decided the same way whether or not another line follows. |
| ActionParser.MissingIdBare | packages/voxurf/src/executor.rs:338-340 | A bare `CLICK` or `FILL` is rejected with `MissingId` naming the instruction. |
| ActionParser.BracketedId | packages/voxurf/src/executor.rs:342-349 | A bracketed id parses to the same result as the id alone. |
| ActionParser.ClickBracketsOptional | packages/voxurf/src/executor.rs:341-349 | `CLICK [x]` and `CLICK x` give the same step. |
| ActionParser.FillBracketsOptional | packages/voxurf/src/executor.rs:356-377 | `FILL [x] rest` is decided as `FILL x rest`. |
| ActionParser.ClickDecimal | packages/voxurf/src/executor.rs:337-351 | `CLICK n` and `CLICK [n]` both click the element `n`, for every `u32` n. |
| ActionParser.UnclosedBracket | packages/voxurf/src/executor.rs:342-349 | `CLICK [x` without a closing ']' is rejected with `NonIntegerId("[x")`. The id keeps its '['. |
| ActionParser.NonIntegerIdRejected | packages/voxurf/src/executor.rs:347-349 | A `CLICK` or `FILL` whose id (brackets stripped) is not a `u32` is rejected with `NonIntegerId` of the stripped id, before any text is looked at. |
| ActionParser.FillMissingText | packages/voxurf/src/executor.rs:365 | `FILL id` with a valid id and no text gives `MissingTextInType`. |
| ActionParser.FillQuoted | packages/voxurf/src/executor.rs:366-377 | `FILL id 'text'` types exactly the text between the quotes into the id. |
| ActionParser.FillNotQuoted | packages/voxurf/src/executor.rs:366-372 | `FILL id text` with unquoted text gives `TextInTypeNotSingleQuoted(text)`. |
| ActionParser.WaitLine | packages/voxurf/src/executor.rs:378-400 | `WAIT d` is skipped when it is the last line. Otherwise it is rejected when `d` is empty, or waits with the trimmed `d`. |
| ActionParser.FinishLine | packages/voxurf/src/executor.rs:401-411 | `FINISH d` is rejected when `d` is empty, or when another line follows. Otherwise it finishes with the trimmed `d`. |
| ActionParser.BareDescriptionWords | packages/voxurf/src/executor.rs:389-405 | A bare `FINISH` is always `MissingDescription`. A bare `WAIT` is `MissingDescription` when a line follows, and is skipped when it is the last line. |
| ActionParser.PlainIgnoresMore | packages/voxurf/src/executor.rs:337-377 | An action line, or an unknown one, is decided without looking at what follows. |
| ActionParser.PlainSteps | packages/voxurf/src/executor.rs:337-377 | Lines without `WAIT` or `FINISH` give only skips, actions and rejections. |
| ActionParser.StepsOfPlainPrefix | packages/voxurf/src/executor.rs:331-377 | The steps of plain lines followed by more lines are those plain steps followed by the steps of the rest. |
| ActionParser.RunCollect | packages/voxurf/src/executor.rs:331-377 | Running steps that only add actions either stops at their first rejection or adds all their actions, in order, and goes on. |
| ActionParser.PlainPrefix | packages/voxurf/src/executor.rs:331-377 | Plain leading lines either reject the block with their first error or contribute their actions, in order, before the rest is parsed. |
| ActionParser.NoControlLines | packages/voxurf/src/executor.rs:315-324 | A block with no `WAIT` or `FINISH` gives its actions in order, with an empty description and `complete`, which is the default group. The alternative is its first line's error. |
| ActionParser.StepsCons | packages/voxurf/src/executor.rs:331-389 | Each line is decided knowing whether any line follows it. |
| ActionParser.AroundRun | packages/voxurf/src/executor.rs:331-413 | Parsing plain lines, then some line, then more: the plain lines' actions carry on into parsing the rest, or their error ends the parse. |
| ActionParser.WaitStops | packages/voxurf/src/executor.rs:389-399 | A `WAIT d` that a line follows ends the parse. The group has the earlier actions, the trimmed description, and is not complete; everything after the `WAIT` is ignored. An empty `d` is `MissingDescription`. |
| ActionParser.TrailingWait | packages/voxurf/src/executor.rs:389 | A final `WAIT` changes nothing. |
| ActionParser.FinishLast | packages/voxurf/src/executor.rs:401-411 | A final `FINISH d` completes the group, with the earlier actions and the trimmed `d`. It is rejected when `d` is empty. |
| ActionParser.FinishNotLast | packages/voxurf/src/executor.rs:401-411 | A `FINISH` that a line follows is rejected: with `ActionsAfterFinish`, or with `MissingDescription` when it has none. |
| Prompt.Fenced | packages/voxurf/src/executor.rs:126-137 | No instruction line is itself a fence line. |
| Prompt.Inside | packages/voxurf/src/executor.rs:129-133 | The lines collected inside a fence are a prefix of what follows the opening fence, with no fence line among them. |
| Prompt.ExtractInstructions | packages/voxurf/src/executor.rs:126-137 | The fence loop over the answer's lines computes `Fenced`. |
| Prompt.SkipOutside | packages/voxurf/src/executor.rs:134-135 | Lines before the first fence are ignored. |
| Prompt.TakeInside | packages/voxurf/src/executor.rs:129-133 | Every line inside an open fence is collected, in order. |
| Prompt.NoFenceNoInstructions | packages/voxurf/src/executor.rs:126-137 | An answer without a fence line has no instructions. |
| Prompt.FencedBlock | packages/voxurf/src/executor.rs:126-137 | The instructions are exactly the lines between the first fence and the next one, or to the end when it is not closed. Everything around them is discarded. |
| Prompt.ClosedBlock | packages/voxurf/src/executor.rs:126-137 | A closed block gives exactly its body, whatever follows it. |
| Prompt.OpenBlock | packages/voxurf/src/executor.rs:126-137 | A block left open gives everything after its fence. |
| Prompt.FencedAlone | packages/voxurf/src/executor.rs:126-137 | A fenced body alone gives back that body. |
| Prompt.AnswerRoundTrip | packages/voxurf/src/executor.rs:126-137 | A body of single lines, fenced and written out with "\n", is read back exactly from the answer's text. |
| Prompt.FramedPlain | packages/voxurf/src/executor.rs:128 | The framed body's lines are all single lines, and the body has no fence line. |
| Prompt.TreeText | packages/voxurf/src/executor.rs:92-96 | Specification of the tree text: each root rendered at indent 0 and followed by "\n". Its property is `Prompt.TreeTextLines`. |
| Prompt.TreeTextStep | packages/voxurf/src/executor.rs:93-96 | Each root adds its rendering and one "\n" to the tree text. |
| Prompt.BuildTreeText | packages/voxurf/src/executor.rs:92-96 | The loop over the roots builds `TreeText`: each root rendered at indent 0, followed by a line break. |
| Prompt.TreeTextLines | packages/voxurf/src/executor.rs:92-96 | The tree text has exactly one line per node of the tree. |
| Prompt.History | packages/voxurf/src/executor.rs:102-106 | Specification of the history text: empty with no descriptions, otherwise "- " and the descriptions joined by "\n- ". Its property is `Prompt.HistoryBullets`. |
| Prompt.Bullets | packages/voxurf/src/executor.rs:102-103 | There is one bullet "- d" per earlier description, in order. |
| Prompt.HistoryBullets | packages/voxurf/src/executor.rs:102-103 | The history text is the bullets joined by line breaks. |
| Prompt.Substituted | packages/voxurf/src/executor.rs:97-107 | Specification of the three `replace` calls, in the source's order. Its properties are `Prompt.SubstitutedLayout` and `Prompt.PlainTemplate`. |
| Prompt.AssemblePrompt | packages/voxurf/src/executor.rs:97-118 | Specification of the prompt: the substituted template, cut off before the marker and trimmed on the first trip, with the marker removed on later ones. Its properties are `Prompt.FirstPromptLayout`, `Prompt.LaterPromptLayout` and `Prompt.FirstPromptHasNoCutoff`. |
| Prompt.FirstPromptHasNoCutoff | packages/voxurf/src/executor.rs:108-115 | With no earlier descriptions, the prompt never contains the cutoff marker. It is cut off before the marker. |
| Prompt.PlainTemplate | packages/voxurf/src/executor.rs:97-118 | A template without placeholders gives itself as the prompt, trimmed on the first trip. |
| Prompt.NoOpenPairBlocks | packages/voxurf/src/executor.rs:97-118 | No placeholder can begin inside text in which every '{' has a following character other than '{'. |
| Prompt.MarkerBlocks | packages/voxurf/src/executor.rs:97-118 | No placeholder begins inside another placeholder, whatever follows it. |
| Prompt.SubstitutedLayout | packages/voxurf/src/executor.rs:97-107 | For a template with the tree text, the command, the cutoff marker and the history placeholder in that order, around texts in which no placeholder can begin, the three replacements put the tree text, the command and the history each in its placeholder's place, and leave everything else as written. |
| Prompt.FirstPromptLayout | packages/voxurf/src/executor.rs:97-115 | For such a template, the first prompt is the trimmed text before the cutoff marker, with the tree text and the command in place, so the history part is cut away. |
| Prompt.LaterPromptLayout | packages/voxurf/src/executor.rs:97-118 | For such a template, a later prompt is the whole template with the tree text, the command and the history in place, and the cutoff marker removed. |
| Stability.Settle | packages/voxurf/src/executor.rs:218-237 | Specification of the polling loop, as counters on a monitor state. Its properties are `Stability.SettleTracks` and `Stability.SettleUnchanged`. |
| Stability.StableTree | packages/voxurf/src/executor.rs:206-252 | Specification of `get_stable_tree`: the divisions, the loop and the final checks. Its properties are the lemmas from `Stability.ZeroThreshold` on. |
| Stability.Observe | packages/voxurf/src/executor.rs:227-235 | A poll counts once and becomes the last tree. A tree whose roots differ (tree.rs's equality, `Tree.SameTree`) records a change and resets the stable count. An equal tree adds one to the stable count only once a change has been recorded. |
| Stability.ObserveTracks | packages/voxurf/src/executor.rs:221-235 | One poll keeps the monitor's counters faithful to the polls made. |
| Stability.SettleTracks | packages/voxurf/src/executor.rs:218-237 | The polling loop stops at the timeout count or at the stable count. Every poll it made succeeded, and its counters describe them. Otherwise it fails with the first interface error among its polls. |
| Stability.SettleUnchanged | packages/voxurf/src/executor.rs:227-232 | While every tree equals the last one, nothing is ever recorded, up to the timeout. |
| Stability.GetStableTree | packages/voxurf/src/executor.rs:206-252 | The monitor's loop, with the millisecond-to-poll divisions and final checks, computes `StableTree`, whose outcomes are proved below. |
| Stability.ZeroThreshold | packages/voxurf/src/executor.rs:209-218 | A threshold below the poll interval makes zero stable polls. The loop never runs, and the monitor reports `NoTreeUpdate`. |
| Stability.NoUpdateExactly | packages/voxurf/src/executor.rs:239-243 | The monitor reports `NoTreeUpdate(threshold)` exactly when every poll up to the timeout returns a tree with the same roots as the reference tree. |
| Stability.StableResult | packages/voxurf/src/executor.rs:218-251 | A stable tree is the last poll's tree, and the last polls, stable-count plus one of them, all returned trees equal to it. Some earlier poll differed from the old tree, and the polls stayed within the timeout. The last poll is the first one that settles (`Stability.Settled`): the monitor stops at the first point where the stable count is reached. |
| Stability.TimeoutResult | packages/voxurf/src/executor.rs:244-248 | `TreeStabilisationTimeout` means every poll up to the timeout succeeded and some tree differed. It also means that no poll settled: no poll had, after a change, the stable count of earlier polls all returning its roots. So the stable count stayed below `threshold / interval`. |
| Stability.SettleUnsettled | packages/voxurf/src/executor.rs:218-237 | The polling loop never passes over a poll that settles the tree. Every poll before the last one was unsettled, and so was the last one while the stable count is short. |
| Stability.SettledAtEnd | packages/voxurf/src/executor.rs:227-237 | Once a change has been recorded and the stable count has reached its target, the latest poll settles the tree. |
| Stability.InterfaceFailure | packages/voxurf/src/executor.rs:221-225 | An interface error is the error of one of the polls made. |
| Stability.StableTreeErrors | packages/voxurf/src/executor.rs:209-249 | The monitor fails with `PollIntervalZero` exactly when the poll interval is zero (the division panics). Otherwise it fails only with an interface error, `NoTreeUpdate` or `TreeStabilisationTimeout`. |
| Executor.New | packages/voxurf/src/executor.rs:31-47 | A new executor has the given options and template, and an empty id map. |
| Executor.ExecuteAction | packages/voxurf/src/executor.rs:164-189 | An action whose id is not in the id map fails with `IdNotFound(id)`, and only such an action does. Otherwise a click makes one primary click on the mapped selector, and a fill types the action's text into it. The action passes, having made one interface call, exactly when that call passes; otherwise it fails with `InterfaceError` carrying that call's message. |
| Executor.ExecuteActions | packages/voxurf/src/executor.rs:141-143 | Carrying out a group makes one interface call per action. It fails only with `IdNotFound` or an interface error. |
| Executor.ExecuteActionsAllPass | packages/voxurf/src/executor.rs:141-143 | The group passes exactly when each action passes in turn, each one after the calls of those before it. |
| Executor.ExecuteActionsFirstFailure | packages/voxurf/src/executor.rs:141-143 | A failing group fails with the error of the first failing action, and every action before it passed. |
| Executor.ExecuteActionList | packages/voxurf/src/executor.rs:141-143 | The loop over the actions computes `ExecuteActions`. |
| Executor.EmptyMapRejects | packages/voxurf/src/executor.rs:164-170 | With an empty id map, the first action of any group fails with `IdNotFound`. |
| Executor.TripActions | packages/voxurf/src/executor.rs:92-144 | A trip after its tree makes one interface call per action of its group. It fails only with a model, parse, id or interface error. |
| Executor.TakeTrip | packages/voxurf/src/executor.rs:92-144 | The prompt, the model call, the fence loop, the parse and the actions compute `TripActions`. |
| Executor.Acquire | packages/voxurf/src/executor.rs:76-88 | Specification of how a trip gets its tree: from the interface on trip 0, from the stability monitor afterwards. `Executor.FirstTripUnsettled` states the first case. |
| Executor.AcquireTree | packages/voxurf/src/executor.rs:76-89 | The first trip takes the tree directly, and later ones go through the stability monitor, as `Acquire` specifies. |
| Executor.FirstTripUnsettled | packages/voxurf/src/executor.rs:76-82 | The first trip's tree is the interface's first tree, taken with one call, and its error is an interface error. |
| Executor.TripOf | packages/voxurf/src/executor.rs:76-144 | Specification of one trip: its tree, then `TripActions`. `Executor.TripErrors` and `Executor.FirstTrip` state its properties. |
| Executor.RunTrip | packages/voxurf/src/executor.rs:76-144 | One trip of the loop body computes `TripOf`. |
| Executor.TripErrors | packages/voxurf/src/executor.rs:76-144 | No single trip fails with `CommandNotFinished`. |
| Executor.NextRound | packages/voxurf/src/executor.rs:76-152 | One pass of the loop either ends the command with the rest of the loop's result, or moves to the next trip with the state the rest of the loop continues from. |
| Executor.Rounds | packages/voxurf/src/executor.rs:70-159 | Specification of the trip loop from a given trip, with the state it carries. Its properties are `Executor.RoundsTrace`, `Executor.RoundsJoin` and `Executor.RoundsNotFinished`. |
| Executor.TripLoop | packages/voxurf/src/executor.rs:70-159 | The trip loop computes `Rounds` from the first trip. |
| Executor.Command | packages/voxurf/src/executor.rs:56-160 | Specification of `execute_command`: the loop from trip 0, no calls, no tree and no descriptions. Its properties are `Executor.CommandOutcome` and the lemmas after it. |
| Executor.ExecuteCommand | packages/voxurf/src/executor.rs:56-160 | `execute_command` computes `Command`, whose outcomes are proved below. |
| Executor.RoundsNotFinished | packages/voxurf/src/executor.rs:151-156 | `CommandNotFinished` is reported only after the maximum number of trips, and carries that number. |
| Executor.Trace | packages/voxurf/src/executor.rs:71-153 | The trips the loop makes, each from the state the one before left: at most the remaining number, starting with the next trip when one is allowed. |
| Executor.Descriptions | packages/voxurf/src/executor.rs:144 | The descriptions pushed by a list of successful trips: one per trip, in order. |
| Executor.TraceShape | packages/voxurf/src/executor.rs:146-152 | Every trip but the last returned an incomplete group. A last trip that is incomplete, or no trip at all, means that every allowed trip was made. |
| Executor.RoundsTrace | packages/voxurf/src/executor.rs:139-159 | The loop succeeds exactly when its last trip completes. A failing last trip is the loop's error. A last trip that is incomplete, or no trip, gives `CommandNotFinished` with the limit. |
| Executor.RoundsJoin | packages/voxurf/src/executor.rs:144-158 | A successful loop returns the descriptions it started with followed by those of all its trips, joined by "\n". |
| Executor.NoRoundTrips | packages/voxurf/src/executor.rs:71-156 | With zero round trips allowed, a command makes no trip and reports `CommandNotFinished(0)`. |
| Executor.CommandOutcome | packages/voxurf/src/executor.rs:56-160 | Read off its trips, a command succeeds exactly when the last trip completes, and then returns the descriptions of all its trips joined by "\n". Every earlier trip was incomplete. A failing last trip is its error. It fails with `CommandNotFinished`, carrying the limit, exactly when every allowed trip was made and was incomplete. |
| Executor.FirstRound | packages/voxurf/src/executor.rs:139-153 | A first trip that fails makes the command fail with its error. A first trip whose group is complete makes the command return its description. |
| Executor.FirstTrip | packages/voxurf/src/executor.rs:76-153 | The same for the executor: the first trip, on the interface's first tree, decides the command when it fails or completes. |
| Executor.OnlyRoundIncomplete | packages/voxurf/src/executor.rs:146-156 | With one round trip allowed, a first trip whose group is not complete, whatever the work, leaves the command with `CommandNotFinished(1)`. |
| Executor.WaitOnOnlyTrip | packages/voxurf/src/executor.rs:71-156 | With one round trip allowed, a first answer that waits, giving an incomplete group with no actions, makes the command fail with `CommandNotFinished(1)`. |
| Executor.NewExecutorActionFails | packages/voxurf/src/executor.rs:45 | A new executor fails every command whose first group has an action, with `IdNotFound` for that action's id, because its id map is empty. |
| Executor.FirstModelError | packages/voxurf/src/executor.rs:120-125 | A model error on the first prompt is the command's `ModelError`. |
| Executor.SingleTrip | packages/voxurf/src/executor.rs:139-158 | A first answer that finishes with no actions makes the command return its description, with no stability monitoring. |
| LegacyCommand.AxTree | packages/voxurf-extension/src/command.rs:227-329 | Specification of the extension's `get_ax_tree`, with its panics as values. Its property is `LegacyCommand.AxTreeResult`. |
| LegacyCommand.AxTreeResult | packages/voxurf-extension/src/command.rs:227-329 | The extension's tree has one selector per node, listing exactly its nodes' selectors. It can also fail: a raw tree that does not deserialise is the unwrap's panic, and one never reconstituted is the timeout panic. |
| LegacyCommand.CountingSweep | packages/voxurf-extension/src/command.rs:248-311 | The `for` loop over the records, which counts its insertions, performs one pass. The count always equals the number of selectors. |
| LegacyCommand.GetAxTree | packages/voxurf-extension/src/command.rs:227-329 | The extension's `get_ax_tree` computes `AxTree`, and its count of insertions is the number of nodes kept. |
| LegacyCommand.SelectorMap | packages/voxurf-extension/src/command.rs:352-359 | Specification of the loop filling `dom_id_map`. Its property is `LegacyCommand.SelectorMapSpec`. |
| LegacyCommand.SelectorMapSpec | packages/voxurf-extension/src/command.rs:352-359 | The selector map is built exactly when every DOM id has a string selector, and then maps each id to its selector. Otherwise the panic names an id without one. |
| LegacyCommand.BuildSelectorMap | packages/voxurf-extension/src/command.rs:352-359 | The loop filling `dom_id_map` computes `SelectorMap`. |
| LegacyCommand.Answer | packages/voxurf-extension/src/command.rs:416-490 | Specification of `get_llm_response`. Its properties are the `LegacyCommand.Answer…` lemmas below. |
| LegacyCommand.GetLlmResponse | packages/voxurf-extension/src/command.rs:416-490 | `get_llm_response` computes `Answer`: a model failure, an answer without a block, or the parse of the block's trimmed lines, each parser error being a panic. |
| LegacyCommand.Perform | packages/voxurf-extension/src/command.rs:548-552 | Specification of carrying out a group: the calls made and the outcome. Its properties are `LegacyCommand.PerformSpec` and `LegacyCommand.PerformUnique`. |
| LegacyCommand.PerformSpec | packages/voxurf-extension/src/command.rs:510-552 | The calls made are those of a prefix of the actions, on their selectors, in order. The group passes exactly when every id has a selector, and otherwise panics on the first that has none before making its call. |
| LegacyCommand.ExecuteGroup | packages/voxurf-extension/src/command.rs:548-552 | The loop over the actions computes `Perform`. |
| LegacyCommand.PerformUnique | packages/voxurf-extension/src/command.rs:548-552 | What `PerformSpec` states determines the calls and the outcome. |
| LegacyCommand.LegacyTrip | packages/voxurf-extension/src/command.rs:342-396 | Specification of one trip of the extension's loop. |
| LegacyCommand.TakeTrip | packages/voxurf-extension/src/command.rs:342-396 | One trip (tree, selectors, prompt with the trimmed tree text, answer, actions) computes `LegacyTrip`. |
| LegacyCommand.NextTrip | packages/voxurf-extension/src/command.rs:340-403 | One pass of the loop either ends the command with its final calls and result, or continues it from the next trip. |
| LegacyCommand.Trips | packages/voxurf-extension/src/command.rs:338-411 | Specification of the extension's trip loop from a given trip. Its properties are `LegacyCommand.TripsStep`, `LegacyCommand.TripsEnd` and `LegacyCommand.TwoTrips`. |
| LegacyCommand.TripsStep | packages/voxurf-extension/src/command.rs:393-403 | After a trip, a panic ends the command with the calls so far. A complete group ends it with the joined descriptions. Otherwise the command continues with that description added. |
| LegacyCommand.TripsEnd | packages/voxurf-extension/src/command.rs:406-407 | Running out of trips is the "failed to complete" panic. |
| LegacyCommand.TripLoop | packages/voxurf-extension/src/command.rs:338-411 | The trip loop computes `Trips` from the first trip. |
| LegacyCommand.LegacyCommandRun | packages/voxurf-extension/src/command.rs:335-412 | Specification of the extension's `execute_command`. Its property is `LegacyCommand.CommandByTrips`. |
| LegacyCommand.ExecuteCommand | packages/voxurf-extension/src/command.rs:335-412 | `execute_command` computes `LegacyCommandRun`. |
| LegacyCommand.AnswerWaitStops | packages/voxurf-extension/src/command.rs:460-469 | A `WAIT d` with lines after it in the answer's block gives the earlier actions, the trimmed `d`, and an incomplete group. |
| LegacyCommand.AnswerTrailingWait | packages/voxurf-extension/src/command.rs:460 | A final `WAIT` in the block is ignored, and the group keeps the default completion. |
| LegacyCommand.AnswerAfterFinish | packages/voxurf-extension/src/command.rs:479-481 | A `FINISH` with lines after it is the "found stages after finish" panic. |
| LegacyCommand.AnswerUnquotedFill | packages/voxurf-extension/src/command.rs:446 | A fill with unquoted text is the "not single-quoted" panic. |
| LegacyCommand.AnswerBareClick | packages/voxurf-extension/src/command.rs:434-436 | A bare `CLICK` is the "expected id in click stage" panic. |
| LegacyCommand.Rejected | packages/voxurf-extension/src/command.rs:426-482 | A line that its position rejects, after accepted plain lines, rejects the whole block. |
| LegacyCommand.TwoTrips | packages/voxurf-extension/src/command.rs:340-411 | Over at most two trips, this pins down when the command ends without completing, when it panics and with which trip's panic, and which calls it made. It succeeds exactly when the first trip completes, or the second does after an incomplete first, and then returns that one description or the two joined by "\n". |
| LegacyCommand.CommandByTrips | packages/voxurf-extension/src/command.rs:335-412 | The same for the extension's command, trip by trip, with the same exact result on success. |

## Left out

- The interface, the model, the browser debugger and the page are oracles passed as parameters:
  - `compute_tree`, `primary_click_element` and `type_into_element`;
  - `Model::prompt`;
  - `get_raw_ax_tree` and `dom_id_to_selector`;
  - `click_element`, `fill_element` and the LLM call.
  - Their effects on the page happen outside the model. The extension's clicks and fills are recorded, in order, as effects.
- `get_tab_id`, `attach_debugger`, `detach_debugger`, `dom_enable`, `dom_disable` and logging have no effect on any result and are not modelled. The `as_f64().unwrap()` on the tab id is not modelled either.
- The sleep between polls of the stability monitor, and time in general, are not modelled. The monitor counts polls.
- Async execution is modelled as sequential calls, because each `.await` completes before the next step.
- The prompt template (`prompt.txt`, included at compile time) is a parameter. Its text is not part of this model.
- The legacy regular expression that captures the fenced block is an oracle, `Env.fence`. The regular-expression engine is not modelled.
- Deserialising the raw accessibility tree is an input `Result`: the records, or the deserialiser's message.
- `js_value_to_string` and `as_string` are modelled as fields of `JsValue`: its text and its string value. Debug formatting of JavaScript values is not modelled.
- `Tree` follows the shape that compute_tree.rs:244-247 builds and interface.rs:29 returns: the roots together with the selector list. tree.rs:6-10 declares a `Tree` with the roots alone. Tree equality in the stability monitor is tree.rs's derived equality, `Tree.SameTree`, which compares only the roots, so two polls that differ only in the order of their selector lists count as unchanged.
- `HashMap` property maps are sequences in iteration order. Their iteration order, which Rust leaves unspecified, is not modelled. Node equality in the stability monitor therefore also compares property order.
- The id map and the selector map are Dafny maps.
- `IntermediateNode.children` is always empty in the source and is not modelled.
- `IdNotFound` carries a `nat` for the source's `usize`.
- The `debug_assert!`s in `Executor::new` are not modelled. They are off in release builds and do not change a result.
- A zero `tree_poll_interval_ms` makes the divisions at executor.rs:209-210 panic. The model turns that panic into the value `PollIntervalZero`, which ends the command like an error. It is not a variant of the source's `ExecutionError`. The first trip never divides, so it is unaffected.
- `Stability.StableIters`, `Stability.TimeoutIters`, `Stability.ZeroThreshold`, `Stability.NoUpdateExactly`, `Stability.StableResult`, `Stability.TimeoutResult` and `Stability.InterfaceFailure` describe the polling that follows the divisions, so they are stated for a non-zero interval; `Stability.StableTreeErrors` covers the zero case.
- ComputeTree.KeptProperties: the source collects the kept properties into a `HashMap`, so a name that occurs twice keeps only its last value (compute_tree.rs:74-85, and command.rs:81-92 in the extension's older copy). The model keeps every entry, in order, and does not model that collapse, because the model keeps property maps as sequences (see the `HashMap` line above).
- Prompt.FirstPromptLayout, Prompt.LaterPromptLayout and Prompt.SubstitutedLayout are stated for templates with the tree text, the command, the cutoff marker and the history placeholder in that order, each once. They also require texts in which no placeholder can begin: every '{' has a next character and it is not '{'. Other layouts, and values that themselves hold placeholders, are covered only by the general `Substituted` and `AssemblePrompt` definitions.
- `ComputeTree.PlaceRecord`, `ComputeTree.SweepPass` and `LegacyCommand.CountingSweep`: these require the arena invariant `Valid`, which holds on entry to every pass. Under it, the `unwrap`s of `get_tree_children` never fail, so the model has no path for them.
- `STABILITY_TIMEOUT` and `STABILITY_THRESHOLD` in command.rs are never used and are not modelled.
- Each `unwrap`, `expect` and `panic!` of command.rs that input can reach becomes a `LegacyCommand.Panic` value. A parser panic carries the parse error, and `PanicText` gives its message.
- The debug-only log of the node counts in command.rs is not modelled. The count itself is, in `LegacyCommand.GetAxTree`.
