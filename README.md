# html-encoder, modelled in Dafny

html-encoder compiles an XML template into the source text of a renderer
class. The template may carry processing instructions: `<?=path?>` and
`<?==path?>` bind text and html, `<?attr ...?>` and `<?css ...?>` set
attributes and classes, `<?item:index@list?>...<?/@?>` loops, and
`<?cond?>...<?/??>` blocks are conditional. The class's constructor builds
the DOM tree from a data object and returns the root node. When live ids
(`#id`) were used, the node also carries a `set` proxy: reading and writing
its keys reads and updates the bound nodes in place. A hand-written copy of
the runtime part, `src/Node.js`, carries the same helpers with a few
differences.

The model follows the program's layers:

| file | module | what it models |
|---|---|---|
| values.dfy | `Values` | JavaScript values: truthiness, property lookup, `for-in` key order, `String(v)`, `split`/`join`; the output DOM tree |
| paths.dfy | `Paths` | `_getValue` and `_setValue` on dotted paths |
| program.dfy | `Program` | the parsed markup (`TNode`) and the compiled instruction tree |
| dsl.dfy | `Dsl` | `parseAttrValue`/`parseCssValue` (the two regular expressions) and `getAttributeInstructions`/`getCssInstructions` |
| compiler.dfy | `Compiler` | `parseNode`: the dispatch on processing instructions and the stack of open `SubRoutine` blocks |
| trees.dfy | `Trees` | node addressing by child-index paths; `setAttribute`, `removeAttribute`, `replaceChild`; registry bindings |
| render.dfy | `Render` | what the emitted constructor does with each instruction, including `_getFirstOrSelf`, loops, conditionals and registration in `this.set` |
| runtime.dfy | `Runtime` | the runtime class of `src/Node.js`: `_setValue`, `_forEach` and `_getSubTemplate` on its `data` field |
| registry.dfy | `Registry` | the `get`/`set` traps of the `set` proxy, emitted variant and `src/Node.js` variant, and the live node as an object |

Compilation is a pure function `CompileNode`. The method `ParseNode` follows
the source's loop, which keeps an `element` accumulator and a `stack`, and
is proved equal to it. The emitted JavaScript text is not generated.
Instead each instruction gets the meaning of the code emitted for it, and
the shapes that make the emitted text fail to parse are reported as
`SyntaxError` (`Render.CodeOk`). Three shapes make the emitted class fail:

- An `attr` or `css` instruction inside a loop or conditional block. The
  block's `push` keeps only the first line of its instruction list, which
  leaves a brace open. The class does not parse (`SyntaxError`).
- Two loops in one statement list. Both declare `const orig` in the same
  block, so the class does not parse (`SyntaxError`).
- A loop placed directly in another loop's body. This one parses. The inner
  loop's `const list` shares the outer pass's block, so the outer pass's
  `list[k]` reads it before its declaration. The first pass, over a
  non-empty list, throws a ReferenceError right after the index write
  (`Render.NestedLoop`). An empty outer list runs no pass and does not throw.

A root that is a close marker compiles to `null`. The constructor then
returns the instance itself rather than a node, and no `set` is attached
(`Render.Render` yields no node). A root block or instruction list makes
the emitted text fail to parse.

DOM nodes held by the registry are named by their child-index path from the
root. The constructor only appends children and changes attributes in place,
so these paths stay valid (`Render.RenderSound`). An html write replaces the
bound node, but the registry entry keeps pointing at the old, detached node.
This is modelled by `Trees.Binding.DetachedHtml`: later reads return the old
node, and a second write finds no parent and throws.

A processing instruction whose tag starts with `:` gets no special
treatment: it passes through as a plain processing instruction (see
`Compiler.ClassifyPI`). Sub-templates exist only as the runtime helper
`_getSubTemplate` of `src/Node.js`.

## Model

| member | source | states |
|---|---|---|
| `Values.Truthy` | src/Node.js:87 | JavaScript truthiness: undefined, null, `false`, `0` and `""` are falsy, everything else is truthy |
| `Values.Lookup` | src/Node.js:87 | `ptr[step]`: an object's own property or undefined, and an array index key reads the element at that index |
| `Values.ToJsString` | src/html-encoder.js:144 | `String(v)` as `setAttribute` and `createTextNode` apply it: a string is itself, an array joins its elements with `,` |
| `Values.ForInKeys` | src/Node.js:68 | `for (k in v)` visits an object's keys in the order the model keeps them (insertion order), an array's positions as index strings; every other value has no keys in the model, including a class and a node |
| `Values.ForInArrayElement` | src/html-encoder.js:41-43 | each key for-in yields on an array reads back the element at that position |
| `Values.FieldSet` | src/Node.js:93 | assigning a property makes it read back the value and leaves every other property alone; a new key goes last in key order |
| `Values.Split` | src/Node.js:87 | `split` returns at least one part, no part contains the separator, and a string without separators is its own only part |
| `Values.JoinSplit` | src/html-encoder.js:181 | splitting a `join` of separator-free parts on that separator gives back the parts |
| `Values.SplitJoin` | src/Node.js:91 | joining the parts of `split(c)` with `c` gives back the string |
| `Paths.GetValue` | src/Node.js:84-88 | a `!` path is the boolean negation of the truthiness of the rest; any other path is the step-by-step walk of its dotted segments |
| `Paths.DoubleNegation` | src/Node.js:85-86 | `!!p` reads the truthiness of `p` as a boolean |
| `Paths.WalkFalsy` | src/Node.js:87 | once the walk meets a falsy value it returns that value for every remaining step |
| `Paths.ShortCircuit` | src/Node.js:87 | the walk's result is the first falsy intermediate value, when there is one |
| `Paths.WalkConcat` | src/Node.js:87 | walking `a + b` is walking `b` from where `a` ends |
| `Paths.DigitsInjective` | src/Node.js:87 | two canonical array index strings with the same numeric value are the same string, so distinct keys name distinct positions |
| `Paths.SetValue` | src/Node.js:90-94 | `_setValue`: the last step is assigned on the container the other steps resolve to, and the write fails when that is not an object |
| `Paths.SetValueSucceeds` | src/Node.js:90-94 | `_setValue` succeeds exactly when the path's prefix resolves to an object |
| `Paths.GetAfterSet` | src/Node.js:90-94 | after `_setValue(path, v)`, `_getValue(path)` reads `v` |
| `Paths.SetKeepsSiblings` | src/Node.js:93 | every other property of the written container keeps its value |
| `Paths.SetFrame` | src/html-encoder.js:259 | a path that diverges from the written one reads the same value as before |
| `Dsl.ParseAttrFails` | src/html-encoder.js:126-129 | the attribute token regex matches exactly when the token has a character other than `=`, `.` or a line terminator |
| `Dsl.ParseAttrValue` | src/html-encoder.js:126-129 | `parseAttrValue`: groups 2, 3 and 5 of the attribute regex as condition, name and var; no result when the regex does not match |
| `Dsl.ParseCssValue` | src/html-encoder.js:173-176 | `parseCssValue`: groups 2 and 3 of the class regex as condition and name; no result when it does not match |
| `Dsl.ParsedNameIsMaximal` | src/html-encoder.js:127 | the captured attribute name is non-empty, consists of name characters only, and occurs in the token followed by its end, `=` or `.`, so the greedy group could not be extended |
| `Dsl.AttrTokenRoundTrip` | src/html-encoder.js:125-129 | a well-formed `cond?name=var` token parses back to its condition, name and var |
| `Dsl.ParseCssFails` | src/html-encoder.js:173-176 | the class token regex matches exactly when the token has a name character |
| `Dsl.CssTokenRoundTrip` | src/html-encoder.js:172-176 | a well-formed `cond?name` class token parses back to its condition and name |
| `Dsl.SplitLiveId` | src/html-encoder.js:133-136 | a last token starting with `#` is removed and its remainder is the live id; otherwise the id is empty and the tokens are unchanged |
| `Dsl.ParseAttrTokens` | src/html-encoder.js:138-139 | every token is parsed in order; the block fails on a token the regex rejects, naming that token |
| `Dsl.AttrTokensStopAt` | src/html-encoder.js:138-139 | the first rejected token is the one reported |
| `Dsl.ParseCssTokens` | src/html-encoder.js:184-185 | every class token is parsed in order; a rejected token is reported |
| `Dsl.CssTokensStopAt` | src/html-encoder.js:184-185 | the first rejected class token is the one reported |
| `Dsl.GetAttributeInstructions` | src/html-encoder.js:131-160 | the loop over the tokens, with the `#id` pop, yields the attribute block of the reference definition, one expression per remaining token |
| `Dsl.GetCssInstructions` | src/html-encoder.js:178-199 | the loop over the class tokens yields the class block of the reference definition |
| `Compiler.LiveId` | src/html-encoder.js:162-171 | a node value starting with `#` names the live id, which is the value without the `#` |
| `Compiler.ClassifyPI` | src/html-encoder.js:65-91 | dispatch precedence: `?` opens an if with the tag's remainder, then a loop tag opens a loop, `/@` and `/?` (only they) close, `==` is html only when no earlier test applies, and a tag passes through unchanged exactly when no test applies |
| `Compiler.Push` | src/html-encoder.js:26-28 | `push` appends one entry to the active accumulator and keeps its kind and spec |
| `Compiler.CloseBlock` | src/html-encoder.js:30-54 | `pop` turns an open loop or if block into one loop or if entry carrying its spec and children |
| `Compiler.Step` | src/html-encoder.js:104-120 | an opener pushes a new active block; a close marker pops, and fails only when no block is open; anything else keeps the depth |
| `Compiler.CompileNode` | src/html-encoder.js:57-123 | `parseNode` on each of the six node kinds the input tree carries: a document compiles its only child, a processing instruction goes through `ClassifyPI`, text and comments become literals, and an element runs its children through the block stack |
| `Compiler.CompileAll` | src/html-encoder.js:104-105 | each child is compiled on its own, in document order |
| `Compiler.ParseNode` | src/html-encoder.js:57-123 | the imperative walk, with its `element` and `stack` variables, returns exactly the reference compilation |
| `Compiler.ParsePI` | src/html-encoder.js:65-91 | the method's chain of tag tests returns exactly the reference dispatch `ClassifyPI` |
| `Compiler.ParseElement` | src/html-encoder.js:97-121 | the loop over the children, with `element`, `stack` and the final check for an unclosed block, returns exactly the reference compilation of the element |
| `Compiler.PushChild` | src/html-encoder.js:104-120 | one child's effect on `element` and `stack` is the reference step; it fails exactly when a close marker finds no open block, and then with `StackUnderflow` |
| `Compiler.DocumentRule` | src/html-encoder.js:59-64 | a document or fragment without exactly one child fails with `NotOneChild`; otherwise it compiles as its only child |
| `Compiler.RunBalance` | src/html-encoder.js:107-114 | the stack machine succeeds exactly when no close marker underflows, fails only by underflow, and ends at the depth the markers predict |
| `Compiler.ElementBalance` | src/html-encoder.js:104-121 | an element compiles exactly when its markers never underflow and end balanced; each failure kind matches its cause |
| `Compiler.AttrTokensRoundTrip` | src/html-encoder.js:138-139 | printing well-formed attribute expressions as tokens and parsing them gives back the expressions |
| `Compiler.CssTokensRoundTrip` | src/html-encoder.js:184-185 | the same for class expressions |
| `Compiler.AttrMarkupCompiles` | src/html-encoder.js:73-74 | an `attr` instruction whose value is the tokens plus `#id` compiles to that attribute block |
| `Compiler.CssMarkupCompiles` | src/html-encoder.js:75-76 | a `css` instruction whose value is the class tokens compiles to that class block |
| `Compiler.SingleRunsInBlock` | src/html-encoder.js:115-116 | inside an open block, an instruction list leaves only its first line, a `Head` |
| `Compiler.BlockRuns` | src/html-encoder.js:107-114 | opener, body and close marker push one loop or if entry holding the body's entries |
| `Compiler.NodeRoundTrip` | src/html-encoder.js:57-123 | printing any well-formed instruction tree as markup and compiling it gives back that tree |
| `Compiler.ElementRoundTrip` | src/html-encoder.js:97-121 | an element whose children are the markup of a well-formed body compiles to an element node with that body |
| `Trees.GetAttr` | src/html-encoder.js:224 | `getAttribute` of an absent attribute is the empty string |
| `Trees.SetAttr` | src/html-encoder.js:144 | `setAttribute` makes the attribute read the value and leaves every other attribute alone |
| `Trees.SetAttrNames` | src/html-encoder.js:151 | an existing attribute keeps its place, a new one goes last |
| `Trees.RemoveAttr` | src/Node.js:51 | `removeAttribute` leaves every other attribute alone and adds no names |
| `Trees.RemoveAttrAbsent` | src/Node.js:50-52 | with unique attribute names, the removed attribute is absent afterwards |
| `Trees.GraftAt` | src/Node.js:48 | after `replaceChild` the new node is at the old node's place |
| `Trees.GraftElsewhere` | src/html-encoder.js:235 | a replacement leaves nodes off its path unchanged, and the ancestors keep their tag, attributes and child count |
| `Render.Anchor` | src/html-encoder.js:245-250 | `_getFirstOrSelf` (also src/Node.js:77-82) picks the last child when it is an element, otherwise the element itself; either way an element |
| `Render.AttrStep` | src/html-encoder.js:138-156 | one attribute token: nothing when its condition fails, otherwise the var's string value set on `name`, or the map at `name` applied key by key; it only adds attribute bindings of the anchor |
| `Render.SetEach` | src/html-encoder.js:149-151 | the `for (k in tmpAttrs)` loop: each key set to the string of its entry and bound as `id#k`; it only adds attribute bindings of the anchor |
| `Render.BindAttr` | src/html-encoder.js:145-147 | a non-empty live id registers `id#name` for the anchor's attribute `name`; an empty id registers nothing |
| `Render.AttrEffects` | src/html-encoder.js:138-156 | an attribute block adds or rebinds only attribute bindings of its anchor |
| `Render.AttrVarEffect` | src/html-encoder.js:140-147 | a token with a var that fails its condition does nothing; otherwise attribute `name` becomes the string of the var's value, the other attributes stay, and `id#name` is registered when there is an id |
| `Render.SetEachEffect` | src/html-encoder.js:149-151 | a map token sets every key of the map to the string of its entry, leaves other attributes alone and registers `id#key` for each |
| `Render.AttrMapEffect` | src/html-encoder.js:148-152 | a token without a var resolves its name as a map and applies it key by key, as above |
| `Render.AttrEntry` | src/html-encoder.js:132-156 | an `attr` block leaves an element and never changes the data |
| `Render.AttrTouchesOnlyAnchor` | src/html-encoder.js:132 | an attribute block changes only the anchor's attributes and never the data; nodes off the anchor's path are unchanged |
| `Render.InitialClasses` | src/html-encoder.js:180-181 | `target` starts as the anchor's class attribute split on whitespace, empty when that attribute is empty or absent |
| `Render.ClassValues` | src/html-encoder.js:184-195 | each passing token pushes its value, or an array's elements, onto `target` |
| `Render.CssEffect` | src/html-encoder.js:178-199 | the block sets `class` to `target` joined with spaces |
| `Render.ClassValuesConcat` | src/html-encoder.js:184-195 | the class tokens push their values in token order |
| `Render.ClassAttrJoins` | src/html-encoder.js:196 | the class attribute is the existing classes and the added ones, joined with spaces |
| `Render.CssExtends` | src/html-encoder.js:178-199 | splitting the new class attribute gives the existing class list (empty for an empty attribute) extended by the added names; no additions to an empty list give ""; other attributes are unchanged |
| `Render.LoopVarsOf` | src/html-encoder.js:33-34 | `item:index@list` split on `@` and `:`; a missing index is `$i`, a missing list path is the text `undefined` |
| `Render.BindLoopVars` | src/html-encoder.js:41-43 | before a pass the index path takes the key, then the item path the list's entry; each write may fail |
| `Render.RestoreLoopVars` | src/html-encoder.js:46-47 | after the loop the item path, then the index path, take back their old values |
| `Render.LoopVarsRoundTrip` | src/html-encoder.js:33-34 | `item:index@list` splits into its three paths; without `:` the index is `$i` |
| `Render.BindLoopVarsReads` | src/html-encoder.js:41-43 | before a pass the item path reads the list's entry and, when independent of it, the index path reads the key |
| `Render.RestoreReads` | src/html-encoder.js:46-47 | after the loop the index path, and the item path when distinct, read their values from before the loop |
| `Render.LoopRestores` | src/html-encoder.js:35-47 | a whole loop instruction leaves both loop paths reading what they read before it |
| `Render.IterateUnfolds` | src/html-encoder.js:41-45 | the first pass runs the body with the first key bound, and the loop goes on from its result |
| `Render.IteratePassCount` | src/html-encoder.js:41-45 | a loop that completes makes one pass per key |
| `Render.PassDataBound` | src/html-encoder.js:41-43 | the data of pass `i` has the loop variables bound for `keys[i]` |
| `Render.IterateVisits` | src/html-encoder.js:41-45 | a completed loop runs its body once per key in for-in order, each pass starting with the item path reading `list[k]` and, when independent, the index path reading `k` |
| `Render.LoopVisits` | src/html-encoder.js:33-47 | a loop instruction that succeeds has no loop directly in its body (or an empty list) and visits every key of its list with the loop variables bound |
| `Render.NestedLoopThrows` | src/html-encoder.js:35-44 | a loop directly in a loop's body, over a non-empty list, throws: `NestedLoop` exactly when the first index write succeeds |
| `Render.EmptyLoopRuns` | src/html-encoder.js:35-47 | a loop over a list without keys runs no pass, leaves the element unchanged and only restores the loop paths |
| `Render.IfNegated` | src/html-encoder.js:48-52 | an if block runs its body exactly when its condition is truthy, and a `!` condition inverts that |
| `Render.ExecBody` | src/html-encoder.js:98-121 | running an element's statement list leaves an element |
| `Render.ExecEntry` | src/html-encoder.js:104-120 | no single instruction turns the element being built into another kind of node |
| `Render.Build` | src/html-encoder.js:85-96 | a text or comment literal becomes that node, a bound text node holds the string of the path's value, an html binding the parsed value; a live id registers the node at its place; an element runs its statement list |
| `Render.TextChildBuilds` | src/html-encoder.js:162-171 | an element with one bound text child builds to that element holding the value's string, with the id registered at child 0 and the data unchanged |
| `Render.TextChildRenders` | src/html-encoder.js:204-215 | that element renders with a `set` holding the one id |
| `Render.Iterate` | src/html-encoder.js:41-45 | the loop passes leave an element |
| `Render.Render` | src/html-encoder.js:204-215 | a root close marker yields no node and no `set`; otherwise construction succeeds only for a node that loads without a syntax error, the node is the built tree, and `set` is attached exactly when the registry is non-empty |
| `Render.BuildSound` | src/html-encoder.js:162-168 | every binding a node's construction registers lies inside that node and names a node of its kind; html bindings stay distinct |
| `Render.ExecBodySound` | src/html-encoder.js:98-121 | running a statement list keeps every binding sound relative to the grown element |
| `Render.EntrySound` | src/html-encoder.js:104-120 | each instruction keeps every binding sound relative to the grown element |
| `Render.IterateSound` | src/html-encoder.js:41-45 | the loop passes keep every binding sound relative to the grown element |
| `Render.RenderSound` | src/html-encoder.js:211-213 | every id of the attached `set` names a node of its kind in the returned tree |
| `Render.StaticBuilds` | src/html-encoder.js:93-96 | markup without instructions builds to the mirrored tree and changes neither the data nor the registry |
| `Render.StaticRuns` | src/html-encoder.js:98-103 | a static statement list appends its mirrored children and is free of syntax errors |
| `Render.StaticRender` | src/html-encoder.js:204-215 | static markup renders to its mirror, with no `set` and the data untouched |
| `Runtime.ForEachOf` | src/Node.js:62-75 | `_forEach`: the old item and index values are kept, one pass per key with the loop variables bound, then both paths restored; a failed write ends it |
| `Runtime.RunPassesSeen` | src/Node.js:68-72 | the data each callback starts from is recorded once per pass, one per key when every write succeeds |
| `Runtime.PassStartsBound` | src/Node.js:69-71 | pass `i` starts with the item path reading `list[keys[i]]` and, when independent, the index path reading `keys[i]` |
| `Runtime.ForEachVisits` | src/Node.js:62-75 | a completed `_forEach` calls `fn` once per key in for-in order, each time with the loop variables bound for that key |
| `Runtime.ForEachRestores` | src/Node.js:73-74 | after `_forEach` the item and index paths read what they read before it |
| `Runtime.NodeRuntime.constructor` | src/Node.js:9 | the runtime object holds the data it was given |
| `Runtime.NodeRuntime.SetValue` | src/Node.js:90-94 | the method changes `data` to the successful write, the path reads back the value and the container's other properties are unchanged |
| `Runtime.NodeRuntime.ForEach` | src/Node.js:62-75 | the loop over `data` ends with exactly the outcome of the specification `ForEachOf`, including partial writes when a write throws |
| `Runtime.NodeRuntime.GetSubTemplate` | src/Node.js:18-21 | a renderer class at the path is constructed on the same data; any other value is not a constructor |
| `Registry.Read` | src/html-encoder.js:218-227 | a text binding reads the node's data, an html binding the node, an attribute binding the attribute's value, and an unknown key undefined |
| `Registry.ReadBinding` | src/html-encoder.js:218-227 | the `get` trap on one binding: a text node's data, the html node itself, or the attribute's value |
| `Registry.ReadRuntime` | src/Node.js:25-37 | as the emitted read, except that an attribute binding reads the element |
| `Registry.HtmlNode` | src/html-encoder.js:234 | an html write inserts a parsed string or the given node; nothing else is a node |
| `Registry.WriteHtml` | src/html-encoder.js:233-235 | an html write keeps the registry sound and leaves the other entries alone |
| `Registry.WriteText` | src/html-encoder.js:232 | a text write keeps the registry sound |
| `Registry.WriteAttr` | src/html-encoder.js:236-237 | an attribute write keeps the registry sound |
| `Registry.Write` | src/html-encoder.js:228-242 | a write keeps the registry sound and its keys; an unknown key changes nothing; with a parser that accepts every string, it throws exactly for a detached or root html binding, or an html value that is neither string nor node |
| `Registry.WriteRuntime` | src/Node.js:38-58 | as the emitted write except for attribute bindings; it keeps the registry sound, and an unknown key changes nothing |
| `Registry.ReadAfterWrite` | src/html-encoder.js:228-242 | after a write, a text key reads the new value and an attribute key its string; an html key still reads the replaced node while the tree holds the new one |
| `Registry.WriteFrame` | src/html-encoder.js:228-242 | a write leaves every other key reading what it read, unless bound to the same text node or the same attribute |
| `Registry.RuntimeWriteAttr` | src/Node.js:49-54 | the runtime write sets, or for `null` removes, the attribute named by the key, and no other attribute changes |
| `Registry.RuntimeWriteMissesAttribute` | src/Node.js:54 | the registry key `attrs#value` bound to attribute `value` of `<div value="foo">`: the runtime write of `bar` leaves `value` at `foo`; the emitted write makes it `bar` |
| `Registry.RenderedTextReads` | src/html-encoder.js:162-168 | after rendering an element with one bound text child, its id reads the string of the path's value |
| `Registry.LiveSet.constructor` | src/html-encoder.js:211-214 | the live node of a render with a `set` holds its tree and registry, which are sound |
| `Registry.LiveSet.Set` | src/html-encoder.js:228-242 | the imperative trap changes the tree and registry exactly as `Registry.Write`, keeps them sound, and changes nothing when it throws |
| `Registry.LiveSet.SetRuntime` | src/Node.js:38-58 | the same for the runtime variant and `Registry.WriteRuntime` |

## Left out

- XML parsing and serialisation (`DOMParser`, `toString`, `_toString`) are not modelled. Markup arrives as the `Program.TNode` tree, which carries only six node kinds: document, fragment, element, text, comment and processing instruction. CDATA sections, document types and entity references are not modelled. The source's `default` branch (src/html-encoder.js:97-121) would compile a CDATA section as an element named `undefined`. A doctype would count as a document child, so `<!DOCTYPE html><div/>` fails the single-child rule (src/html-encoder.js:61). Parsing an html value is a parameter `parse` of type `Value -> seq<Tree>`.
- Generating JavaScript text is not modelled: template-literal quoting, `new Function`, and the embedding of names and values in the emitted source. Each instruction is interpreted directly. An attribute value or text containing a quote or backtick would change the emitted text, and the model ignores that.
- The `Proxy` mechanism is not modelled. Its `get` and `set` traps are the functions `Registry.Read` and `Registry.Write` and the methods of `Registry.LiveSet`. The trap's return value is not modelled. The runtime's attribute trap returns `undefined`, which in strict-mode callers makes the assignment throw after the change.
- Environment detection (`typeof document`) and the choice of `DOMParser` are not modelled, because they depend on the host.
- The rollup plugin wrappers and the build configuration are out of scope; they belong to the build, not to the compiler.
- Numbers are integers only. There are no floats, `NaN` or numeric string formatting beyond integers.
- A write through `_setValue` succeeds only when the path's prefix resolves to an object. In JavaScript, arrays, functions and other objects accept new properties too. The model treats those writes as failures.
- Objects are values: the list a loop iterates is not aliased with the data it writes into. A loop whose item path writes into the list itself is not modelled as in JavaScript.
- `Runtime.NodeRuntime.GetSubTemplate` returns the sub-template's result but does not write its data changes back into `this.data`. The sub-renderer works on the same object in JavaScript.
- `Registry.HtmlNode`: a non-string, non-node value is treated as a failed write (`NotANode`). What `replaceChild` does with such a value depends on the DOM library. Every string, the empty one included, parses to a node here. A parser that returns no document for the empty string, as some DOM libraries do, makes `replaceChild` throw.
- Inherited keys of the `set` object (such as `toString`) are not modelled; only registered ids are keys.
- Values.Lookup: only own properties of objects, arrays and strings are modelled. Inherited properties such as `toString`, `constructor` or `hasOwnProperty` read as undefined, while in JavaScript they read the prototype's member (a function, which is truthy). A renderer class (`Ctor`) and a DOM node (`NodeRef`) have no properties at all here. In JavaScript a class has its own `name` and `length` and any statics assigned to it, such as `DOMParser`. A node has `tagName`, `nodeType`, `childNodes` and more. A string's characters are whole characters here, where JavaScript indexes UTF-16 code units.
- Values.ForInKeys: object keys are visited in insertion order. JavaScript visits integer-like keys first, in ascending order, then the other keys in insertion order. `Values.FieldSet` likewise puts a new key last. A renderer class and a DOM node yield no keys here, while in JavaScript for-in visits a class's enumerable statics and a node's enumerable own and inherited members. A string yields one position per character here, where JavaScript yields one per UTF-16 code unit.
- Values.ToJsString: a renderer class prints as `[class name]` and a DOM node as `[object Node]`. These stand in for the class's source text and the node's own `toString`.
- Render.Build: the html parser is the total parameter `parse`, so parsing a non-string html value never fails here. In JavaScript such a value may make `parseFromString` throw. An empty string parses too. A parser that returns no document for it, as some DOM libraries do, makes `appendChild` throw.
- Registry.Write: its throw condition assumes that parsing any string gives a node. With a parser that returns no document for the empty string, writing `""` to an html key also throws, from `replaceChild`. `Registry.LiveSet.Set` inherits the same assumption.
- Render.IterateVisits, Render.LoopVisits: stated for an item path without a leading `!`, as are the `_forEach` lemmas of `Runtime`. With one, `_setValue` writes a property named `!x` while `_getValue` reads the negation of `x`, so the item does not read back.
- `Runtime.ForEachVisits`: the index path is promised to read the key only when the two loop paths diverge. When one is a prefix of the other, the second write can overwrite the first, in the model as in JavaScript.

## Findings

| source | as written | input that shows it | evidently intended | confidence | as-written member | corrected member |
|---|---|---|---|---|---|---|
| src/Node.js:50-54 | the attribute branch of the `set` trap calls `setAttribute(prop, value)` and `removeAttribute(prop)`, where `prop` is the registry key such as `attrs#value` | `<div value="foo">` with `attrs#value` bound to attribute `value`; writing `bar` adds an attribute named `attrs#value` and leaves `value` at `foo` | `setAttribute(property.attrName, value)`, as the emitted class does at src/html-encoder.js:237 | likely, not executed | `Registry.RuntimeWriteMissesAttribute` | `Registry.ReadAfterWrite` |
