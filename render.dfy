/** What the generated renderer's constructor does with a compiled
    instruction tree: it builds the output tree top-down, reading and
    writing the data context and recording live bindings in `this.set`.
    The JavaScript text is not modelled: each instruction form is given the
    meaning of the code emitted for it. */
module Render {
  import opened Values
  import opened Paths
  import opened Program
  import opened Trees

  /** Why constructing a renderer fails. */
  datatype RenderError =
    | SyntaxError            // the emitted class does not parse (see `CodeOk`); also a root block or instruction list
    | Unwritable(path: string)  // `_setValue` on a path whose container is not an object
    | NestedLoop             // a loop directly in a loop's body: the outer pass reads the inner `list` too early
    | NoElement              // a bound text or html root without a live id reads the undeclared `elm`
    | NotAConstructor        // `new Template(...)` on a value that is no renderer class

  /** `this.data` and `this.set` while the constructor runs. */
  datatype State = State(data: Value, reg: map<string, Binding>)

  /** The DOM parser's `parseFromString`, applied to an html value: the
      children of the document it returns. */
  type Parser = Value -> seq<Tree>

  // ---------------------------------------------------------------------
  // Which compiled programs the emitted text can be loaded at all.

  function LoopCount(es: seq<Entry>): nat {
    if es == [] then 0 else (if es[0].Loop? then 1 else 0) + LoopCount(es[1..])
  }

  /** An element's, a loop's or an if's statement list is one JavaScript
      block: a `Head` leaves a brace open, and a second loop redeclares the
      block's `const orig` and `list`. */
  predicate BodyOk(es: seq<Entry>)
    decreases BodySize(es), 2
  {
    LoopCount(es) <= 1 && EntriesOk(es)
  }

  predicate EntriesOk(es: seq<Entry>)
    decreases BodySize(es), 1
  {
    es == [] || (EntryOk(es[0]) && EntriesOk(es[1..]))
  }

  predicate EntryOk(e: Entry)
    decreases EntrySize(e), 0
  {
    match e
    case Append(n) => CodeOk(n)
    case Loop(_, body) => BodyOk(body)
    case If(_, body) => BodyOk(body)
    case Head(_) => false
    case _ => true
  }

  predicate CodeOk(n: NodeExpr)
    decreases NodeSize(n), 3
  {
    match n
    case ElementNode(_, _, body) => BodyOk(body)
    case _ => true
  }

  // ---------------------------------------------------------------------
  // The anchor of `attr` and `css`.

  /** `_getFirstOrSelf(elm)`, as a path relative to `elm`: its last child
      when that is an element, otherwise `elm` itself. */
  function Anchor(elem: Tree): (rel: seq<nat>)
    requires elem.Elem?
    ensures (|elem.children| > 0 && elem.children[|elem.children| - 1].Elem?) ==> rel == [|elem.children| - 1]
    ensures !(|elem.children| > 0 && elem.children[|elem.children| - 1].Elem?) ==> rel == []
    ensures Subtree(elem, rel).Some? && Subtree(elem, rel).value.Elem?
  {
    var n := |elem.children|;
    if n > 0 && elem.children[n - 1].Elem? then
      assert Subtree(elem, [n - 1]) == Subtree(elem.children[n - 1], []);
      [n - 1]
    else []
  }

  // ---------------------------------------------------------------------
  // `attr`.

  /** Whether the compiler emitted an `if` around a token: `if (condition)`
      on the captured condition, which is absent or a string. */
  predicate Gated(c: Option<string>) {
    c.Some? && c.value != ""
  }

  /** A token takes effect when it is not gated or its condition holds. */
  predicate Passes(data: Value, c: Option<string>) {
    !Gated(c) || Truthy(GetValue(data, c.value))
  }

  /** The anchor's attributes and the registry, as `attr` and `css` change them. */
  datatype Effect = Effect(attrs: seq<(string, string)>, reg: map<string, Binding>)

  /** Whether `reg1` is `reg0` with some ids (re)bound to attributes of the
      node at `at`. */
  predicate OnlyAttrsAt(reg0: map<string, Binding>, reg1: map<string, Binding>, at: seq<nat>) {
    forall x :: x in reg1 ==> (x in reg0 && reg1[x] == reg0[x]) || (reg1[x].AttrAt? && reg1[x].at == at)
  }

  /** `this.set[id + '#' + name] = { node, type: 'attribute', attrName: name }`,
      emitted only for a non-empty id. */
  function BindAttr(reg: map<string, Binding>, liveId: string, at: seq<nat>, name: string): (r: map<string, Binding>)
    ensures OnlyAttrsAt(reg, r, at)
    ensures liveId != "" ==> r == reg[liveId + "#" + name := AttrAt(at, name)]
    ensures liveId == "" ==> r == reg
  {
    if liveId != "" then reg[liveId + "#" + name := AttrAt(at, name)] else reg
  }

  /** `for (let k in tmpAttrs) { node.setAttribute(k, tmpAttrs[k]); ... }`
      over the keys still to visit. */
  function SetEach(keys: seq<string>, m: Value, liveId: string, at: seq<nat>, eff: Effect): (r: Effect)
    ensures OnlyAttrsAt(eff.reg, r.reg, at)
    decreases |keys|
  {
    if keys == [] then eff
    else
      var k := keys[0];
      SetEach(keys[1..], m, liveId, at,
              Effect(SetAttr(eff.attrs, k, ToJsString(Lookup(m, k))), BindAttr(eff.reg, liveId, at, k)))
  }

  /** One `[condition?]name[=var]` token applied to the anchor at `at`. */
  function AttrStep(e: AttrExpr, liveId: string, data: Value, at: seq<nat>, eff: Effect): (r: Effect)
    ensures OnlyAttrsAt(eff.reg, r.reg, at)
  {
    if !Passes(data, e.condition) then eff
    else if e.varName.Some? && e.varName.value != "" then
      Effect(SetAttr(eff.attrs, e.attrName, ToJsString(GetValue(data, e.varName.value))),
             BindAttr(eff.reg, liveId, at, e.attrName))
    else
      var m := GetValue(data, e.attrName);
      SetEach(ForInKeys(m), m, liveId, at, eff)
  }

  /** The whole `attr` block: the tokens in order. */
  function AttrEffects(exprs: seq<AttrExpr>, liveId: string, data: Value, at: seq<nat>, eff: Effect): (r: Effect)
    ensures OnlyAttrsAt(eff.reg, r.reg, at)
    decreases |exprs|
  {
    if exprs == [] then eff
    else AttrEffects(exprs[1..], liveId, data, at, AttrStep(exprs[0], liveId, data, at, eff))
  }

  // ---------------------------------------------------------------------
  // `css`.

  function Strs(ws: seq<string>): (vs: seq<Value>)
    ensures |vs| == |ws| && forall i :: 0 <= i < |ws| ==> vs[i] == Str(ws[i])
  {
    if ws == [] then [] else [Str(ws[0])] + Strs(ws[1..])
  }

  /** `target` before the tokens: the anchor's class list, empty when the
      attribute is empty or absent. */
  function InitialClasses(attrs: seq<(string, string)>): seq<Value> {
    var existing := GetAttr(attrs, "class");
    if existing == "" then [] else Strs(Split(existing, Whitespace))
  }

  /** What one resolved class value adds to `target`: an array's elements,
      anything else as one item. */
  function Flatten(v: Value): seq<Value> {
    if v.Arr? then v.items else [v]
  }

  /** The values the tokens push onto `target`, in token order. */
  function ClassValues(classes: seq<CssExpr>, data: Value): seq<Value> {
    if classes == [] then []
    else
      (if Passes(data, classes[0].condition) then Flatten(GetValue(data, classes[0].varName)) else [])
      + ClassValues(classes[1..], data)
  }

  /** The anchor's attributes after the `css` block. */
  function CssEffect(classes: seq<CssExpr>, data: Value, attrs: seq<(string, string)>): seq<(string, string)> {
    SetAttr(attrs, "class", JoinValues(InitialClasses(attrs) + ClassValues(classes, data), " "))
  }

  // ---------------------------------------------------------------------
  // Loops.

  /** The three paths of a loop instruction `item[:index]@list` (the source calls the first the iterator). */
  datatype LoopVars = LoopVars(item: string, index: string, list: string)

  /** `varName.split('@')` and `iteratorAndIndex.split(':')`: a missing
      list path is the text `undefined`, a missing index is `$i`. */
  function LoopVarsOf(spec: string): LoopVars {
    var parts := Split(spec, Char('@'));
    var names := Split(parts[0], Char(':'));
    LoopVars(names[0], if |names| >= 2 then names[1] else "$i", if |parts| >= 2 then parts[1] else "undefined")
  }

  /** Before each pass: the index takes the key, then the iterator the
      list's entry for it. */
  function BindLoopVars(data: Value, lv: LoopVars, list: Value, k: string): Result<Value, RenderError> {
    match SetValue(data, lv.index, Str(k))
    case None => Err(Unwritable(lv.index))
    case Some(d1) =>
      match SetValue(d1, lv.item, Lookup(list, k))
      case None => Err(Unwritable(lv.item))
      case Some(d2) => Ok(d2)
  }

  /** After the loop: the iterator, then the index, take back the values
      they had before it. */
  function RestoreLoopVars(data: Value, lv: LoopVars, origItem: Value, origIndex: Value): Result<Value, RenderError> {
    match SetValue(data, lv.item, origItem)
    case None => Err(Unwritable(lv.item))
    case Some(d1) =>
      match SetValue(d1, lv.index, origIndex)
      case None => Err(Unwritable(lv.index))
      case Some(d2) => Ok(d2)
  }

  // ---------------------------------------------------------------------
  // The interpreter.

  /** `this.set[id] = { node, type }` for a bound text or html node. */
  function Register(st: State, liveId: Option<string>, b: Binding): State {
    if liveId.Some? then st.(reg := st.reg[liveId.value := b]) else st
  }

  /** The node a node expression yields, placed at `at` in the output. */
  function Build(n: NodeExpr, at: seq<nat>, st: State, parse: Parser): Result<(Tree, State), RenderError>
    decreases NodeSize(n), 0, 0
  {
    match n
    case TextLit(t) => Ok((TextNode(Str(t)), st))
    case CommentLit(t) => Ok((CommentNode(t), st))
    case PassPI(tag, v) => Ok((PINode(tag, v), st))
    case TextBind(path, liveId) =>
      // `createTextNode` keeps the string of the value it is given
      Ok((TextNode(Str(ToJsString(GetValue(st.data, path)))), Register(st, liveId, TextAt(at))))
    case HtmlBind(path, liveId) => Ok((DocNode(parse(GetValue(st.data, path))), Register(st, liveId, HtmlAt(at))))
    case ElementNode(tag, attrs, body) => ExecBody(body, Elem(tag, attrs, []), at, st, parse)
  }

  /** A statement list run against the element `elem` placed at `at`. */
  function ExecBody(es: seq<Entry>, elem: Tree, at: seq<nat>, st: State, parse: Parser): (r: Result<(Tree, State), RenderError>)
    requires elem.Elem?
    ensures r.Ok? ==> r.value.0.Elem?
    decreases BodySize(es), 2, 0
  {
    if es == [] then Ok((elem, st))
    else
      match ExecEntry(es[0], elem, at, st, parse)
      case Err(e) => Err(e)
      case Ok(res) => ExecBody(es[1..], res.0, at, res.1, parse)
  }

  function ExecEntry(e: Entry, elem: Tree, at: seq<nat>, st: State, parse: Parser): (r: Result<(Tree, State), RenderError>)
    requires elem.Elem?
    ensures r.Ok? ==> r.value.0.Elem?
    decreases EntrySize(e), 1, 0
  {
    match e
    case Append(n) =>
      (match Build(n, at + [|elem.children|], st, parse)
       case Err(err) => Err(err)
       case Ok(res) => Ok((elem.(children := elem.children + [res.0]), res.1)))
    case Attr(exprs, liveId) => Ok(AttrEntry(exprs, liveId, elem, at, st))
    case Css(classes) => Ok((CssEntry(classes, elem, st.data), st))
    case Loop(spec, body) =>
      var lv := LoopVarsOf(spec);
      var origItem := GetValue(st.data, lv.item);
      var origIndex := GetValue(st.data, lv.index);
      var list := GetValue(st.data, lv.list);
      var keys := ForInKeys(list);
      if LoopCount(body) > 0 && keys != [] then Err(ShadowedPass(st.data, lv, keys[0]))
      else
      (match Iterate(keys, list, lv, body, elem, at, st, parse)
       case Err(err) => Err(err)
       case Ok(res) =>
         match RestoreLoopVars(res.1.data, lv, origItem, origIndex)
         case Err(err) => Err(err)
         case Ok(d) => Ok((res.0, res.1.(data := d))))
    case If(cond, body) =>
      if Truthy(GetValue(st.data, cond)) then ExecBody(body, elem, at, st, parse) else Ok((elem, st))
    case Head(_) => Err(SyntaxError)
  }

  /** The first pass of a loop whose body directly holds another loop. The
      inner loop's `const list` is declared in the outer pass's block, so the
      outer `list[k]` reads it before its declaration and throws a
      ReferenceError right after the index write. */
  function ShadowedPass(data: Value, lv: LoopVars, k: string): RenderError {
    if SetValue(data, lv.index, Str(k)).Some? then NestedLoop else Unwritable(lv.index)
  }

  /** An `attr` block applied to the anchor of `elem`: the anchor's
      attributes and the registry change, nothing else. */
  function AttrEntry(exprs: seq<AttrExpr>, liveId: string, elem: Tree, at: seq<nat>, st: State): (r: (Tree, State))
    requires elem.Elem?
    ensures r.0.Elem? && r.1.data == st.data
  {
    var rel := Anchor(elem);
    var target := Subtree(elem, rel).value;
    var eff := AttrEffects(exprs, liveId, st.data, at + rel, Effect(target.attrs, st.reg));
    (Graft(elem, rel, target.(attrs := eff.attrs)), st.(reg := eff.reg))
  }

  /** A `css` block applied to the anchor of `elem`. */
  function CssEntry(classes: seq<CssExpr>, elem: Tree, data: Value): (r: Tree)
    requires elem.Elem?
    ensures r.Elem?
  {
    var rel := Anchor(elem);
    var target := Subtree(elem, rel).value;
    Graft(elem, rel, target.(attrs := CssEffect(classes, data, target.attrs)))
  }

  /** `for (let k in list) { ... }` over the keys still to visit. */
  function Iterate(keys: seq<string>, list: Value, lv: LoopVars, body: seq<Entry>, elem: Tree, at: seq<nat>,
                   st: State, parse: Parser): (r: Result<(Tree, State), RenderError>)
    requires elem.Elem?
    ensures r.Ok? ==> r.value.0.Elem?
    decreases BodySize(body) + 1, 0, |keys|
  {
    if keys == [] then Ok((elem, st))
    else
      match BindLoopVars(st.data, lv, list, keys[0])
      case Err(err) => Err(err)
      case Ok(d) =>
        match ExecBody(body, elem, at, st.(data := d), parse)
        case Err(err) => Err(err)
        case Ok(res) => Iterate(keys[1..], list, lv, body, res.0, at, res.1, parse)
  }

  /** What `new Node(data)` returns: the root node, with `set` attached only
      when some live id was recorded, and the data context afterwards. A
      root close marker compiles to `null`: the constructor then returns no
      node (`node` is `None`), and `new` yields the renderer instance itself. */
  datatype Rendered = Rendered(node: Option<Tree>, live: Option<map<string, Binding>>, data: Value)

  function Render(p: Parsed, data: Value, parse: Parser): (r: Result<Rendered, RenderError>)
    ensures p.PClose? ==> r == Ok(Rendered(None, None, data))
    ensures r.Ok? && !p.PClose? ==> p.PNode? && CodeOk(p.node) && r.value.node.Some?
    ensures r.Ok? && r.value.live.Some? ==> |r.value.live.value| > 0 && r.value.node.Some?
    ensures r.Ok? && !p.PClose? ==>
      var b := Build(p.node, [], State(data, map[]), parse);
      b.Ok? && r.value.node == Some(b.value.0) && (r.value.live.Some? <==> |b.value.1.reg| > 0)
  {
    if p.PClose? then Ok(Rendered(None, None, data))
    else if !p.PNode? || !CodeOk(p.node) then Err(SyntaxError)
    else if (p.node.TextBind? || p.node.HtmlBind?) && p.node.liveId.None? then Err(NoElement)
    else
      match Build(p.node, [], State(data, map[]), parse)
      case Err(e) => Err(e)
      case Ok(res) => Ok(Rendered(Some(res.0), if |res.1.reg| > 0 then Some(res.1.reg) else None, res.1.data))
  }

  // ---------------------------------------------------------------------
  // The registry the constructor builds is sound: every recorded binding
  // names a node of its kind in the finished tree. Nodes are only ever
  // appended below the element being built, attributes change in place,
  // and a binding is recorded for a node the moment it is made, so the
  // invariant is stated relative to the current element's path `at`.

  /** `b` is an extension of `a`: every node of `a` is still there, of the
      same kind, and elements only gain children at the end. */
  predicate Grows(a: Tree, b: Tree)
    decreases a
  {
    KindOf(a) == KindOf(b) &&
    (a.Elem? ==>
       b.Elem? && |a.children| <= |b.children| &&
       forall i :: 0 <= i < |a.children| ==> Grows(a.children[i], b.children[i]))
  }

  lemma {:induction false} GrowsRefl(a: Tree)
    ensures Grows(a, a)
    decreases a
  {
    if a.Elem? {
      forall i | 0 <= i < |a.children| ensures Grows(a.children[i], a.children[i]) {
        GrowsRefl(a.children[i]);
      }
    }
  }

  lemma {:induction false} GrowsTrans(a: Tree, b: Tree, c: Tree)
    requires Grows(a, b) && Grows(b, c)
    ensures Grows(a, c)
    decreases a
  {
    if a.Elem? {
      forall i | 0 <= i < |a.children| ensures Grows(a.children[i], c.children[i]) {
        GrowsTrans(a.children[i], b.children[i], c.children[i]);
      }
    }
  }

  lemma {:induction false} GrowsSubtree(a: Tree, b: Tree, p: seq<nat>)
    requires Grows(a, b) && Subtree(a, p).Some?
    ensures Subtree(b, p).Some? && Grows(Subtree(a, p).value, Subtree(b, p).value)
    decreases |p|
  {
    if p != [] {
      GrowsSubtree(a.children[p[0]], b.children[p[0]], p[1..]);
    }
  }

  /** A sound binding stays sound as the tree grows. */
  lemma GrowsBinding(a: Tree, b: Tree, bnd: Binding)
    requires Grows(a, b) && BindingOk(a, bnd)
    ensures BindingOk(b, bnd)
  {
    if !bnd.DetachedHtml? {
      GrowsSubtree(a, b, bnd.at);
    }
  }

  lemma AppendGrows(e: Tree, t: Tree)
    requires e.Elem?
    ensures Grows(e, e.(children := e.children + [t]))
  {
    var e' := e.(children := e.children + [t]);
    forall i | 0 <= i < |e.children| ensures Grows(e.children[i], e'.children[i]) {
      GrowsRefl(e.children[i]);
    }
  }

  lemma AttrsGrows(e: Tree, attrs: seq<(string, string)>)
    requires e.Elem?
    ensures Grows(e, e.(attrs := attrs))
  {
    forall i | 0 <= i < |e.children| ensures Grows(e.children[i], e.children[i]) {
      GrowsRefl(e.children[i]);
    }
  }

  lemma {:induction false} GraftGrows(t: Tree, p: seq<nat>, s: Tree)
    requires Subtree(t, p).Some? && Grows(Subtree(t, p).value, s)
    ensures Grows(t, Graft(t, p, s))
    decreases |p|
  {
    if p != [] {
      var g := Graft(t, p, s);
      GraftGrows(t.children[p[0]], p[1..], s);
      forall i | 0 <= i < |t.children| ensures Grows(t.children[i], g.children[i]) {
        if i != p[0] {
          GrowsRefl(t.children[i]);
        }
      }
    }
  }

  /** The binding records a node at or below `at`. */
  predicate Under(b: Binding, at: seq<nat>) {
    !b.DetachedHtml? && HasPrefix(b.at, at)
  }

  /** The binding with its first `n` path steps dropped. */
  function Shift(b: Binding, n: nat): Binding
    requires !b.DetachedHtml? && n <= |b.at|
  {
    b.(at := b.at[n..])
  }

  /** Every binding at or below `at` is sound for `t`, the node at `at`. */
  predicate Local(reg: map<string, Binding>, at: seq<nat>, t: Tree) {
    forall x :: x in reg && Under(reg[x], at) ==> BindingOk(t, Shift(reg[x], |at|))
  }

  /** No binding is at or below `at` yet. */
  predicate Fresh(reg: map<string, Binding>, at: seq<nat>) {
    forall x :: x in reg ==> !Under(reg[x], at)
  }

  /** `reg1` keeps the bindings of `reg0`, except for ids (re)bound at or
      below `at`. */
  predicate Extends(reg0: map<string, Binding>, reg1: map<string, Binding>, at: seq<nat>) {
    forall x :: x in reg1 ==> (x in reg0 && reg1[x] == reg0[x]) || Under(reg1[x], at)
  }

  /** What running statements against the element at `at` preserves. */
  predicate Kept(reg0: map<string, Binding>, reg1: map<string, Binding>, at: seq<nat>, elem: Tree, elem': Tree) {
    Local(reg1, at, elem') && HtmlDistinct(reg1) && Extends(reg0, reg1, at) && Grows(elem, elem')
  }

  lemma LocalGrows(reg: map<string, Binding>, at: seq<nat>, a: Tree, b: Tree)
    requires Local(reg, at, a) && Grows(a, b)
    ensures Local(reg, at, b)
  {
    forall x | x in reg && Under(reg[x], at) ensures BindingOk(b, Shift(reg[x], |at|)) {
      GrowsBinding(a, b, Shift(reg[x], |at|));
    }
  }

  /** Nothing is recorded yet below the next child of `elem`. */
  lemma FreshChild(reg: map<string, Binding>, at: seq<nat>, elem: Tree)
    requires elem.Elem? && Local(reg, at, elem)
    ensures Fresh(reg, at + [|elem.children|])
  {
    var k := |elem.children|;
    forall x | x in reg ensures !Under(reg[x], at + [k]) {
      var b := reg[x];
      if !b.DetachedHtml? && |b.at| > |at| && b.at[..|at|] == at {
        assert Under(b, at);
        var q := b.at[|at|..];
        assert Subtree(elem, q).Some?;
        assert b.at[|at|] == q[0] < k;
        assert b.at[..|at| + 1][|at|] != k;
      }
    }
  }

  /** A binding sound for the new last child `t` is sound for the element. */
  lemma BindingBelow(reg1: map<string, Binding>, x: string, at: seq<nat>, elem: Tree, t: Tree)
    requires elem.Elem? && x in reg1
    requires Under(reg1[x], at + [|elem.children|])
    requires BindingOk(t, Shift(reg1[x], |at| + 1))
    ensures Under(reg1[x], at)
    ensures BindingOk(elem.(children := elem.children + [t]), Shift(reg1[x], |at|))
  {
    var k := |elem.children|;
    var e' := elem.(children := elem.children + [t]);
    var p := reg1[x].at;
    assert p[..|at| + 1] == at + [k];
    assert p[..|at|] == (at + [k])[..|at|] == at;
    var q := p[|at|..];
    assert |q| >= 1 && q[0] == k;
    assert q[1..] == p[|at| + 1..];
    assert e'.Elem? && k < |e'.children| && e'.children[k] == t;
    assert Subtree(e', q) == Subtree(e'.children[q[0]], q[1..]);
    assert Subtree(e', q) == Subtree(t, q[1..]);
  }

  /** Appending a built child keeps the invariant of the element. */
  lemma AppendLocal(reg0: map<string, Binding>, reg1: map<string, Binding>, at: seq<nat>, elem: Tree, t: Tree)
    requires elem.Elem? && Local(reg0, at, elem)
    requires Extends(reg0, reg1, at + [|elem.children|]) && Local(reg1, at + [|elem.children|], t)
    ensures Local(reg1, at, elem.(children := elem.children + [t]))
    ensures Extends(reg0, reg1, at)
  {
    var k := |elem.children|;
    var e' := elem.(children := elem.children + [t]);
    AppendGrows(elem, t);
    forall x | x in reg1 ensures (x in reg0 && reg1[x] == reg0[x]) || Under(reg1[x], at) {
      if !(x in reg0 && reg1[x] == reg0[x]) {
        BindingBelow(reg1, x, at, elem, t);
      }
    }
    forall x | x in reg1 && Under(reg1[x], at) ensures BindingOk(e', Shift(reg1[x], |at|)) {
      if Under(reg1[x], at + [k]) {
        BindingBelow(reg1, x, at, elem, t);
      } else {
        assert x in reg0 && reg1[x] == reg0[x];
        GrowsBinding(elem, e', Shift(reg1[x], |at|));
      }
    }
  }

  /** Rebinding ids to attributes of the element at `at + rel` keeps the
      invariant, once the element at `rel` has been replaced by one that
      grew from it. */
  lemma AttrLocal(reg0: map<string, Binding>, reg1: map<string, Binding>, at: seq<nat>, rel: seq<nat>,
                  elem: Tree, elem': Tree)
    requires Local(reg0, at, elem) && HtmlDistinct(reg0) && Grows(elem, elem')
    requires OnlyAttrsAt(reg0, reg1, at + rel)
    requires Subtree(elem', rel).Some? && Subtree(elem', rel).value.Elem?
    ensures Local(reg1, at, elem') && HtmlDistinct(reg1) && Extends(reg0, reg1, at)
  {
    assert (at + rel)[..|at|] == at;
    assert (at + rel)[|at|..] == rel;
    forall x | x in reg1 && Under(reg1[x], at) ensures BindingOk(elem', Shift(reg1[x], |at|)) {
      if x in reg0 && reg1[x] == reg0[x] {
        GrowsBinding(elem, elem', Shift(reg1[x], |at|));
      }
    }
  }

  lemma {:induction false} BuildSound(n: NodeExpr, at: seq<nat>, st: State, parse: Parser)
    requires Fresh(st.reg, at) && HtmlDistinct(st.reg)
    ensures var r := Build(n, at, st, parse);
      r.Ok? ==> Local(r.value.1.reg, at, r.value.0) && HtmlDistinct(r.value.1.reg) && Extends(st.reg, r.value.1.reg, at)
    decreases NodeSize(n), 0, 0
  {
    assert at[..|at|] == at && at[|at|..] == [];
    match n
    case ElementNode(tag, attrs, body) =>
      ExecBodySound(body, Elem(tag, attrs, []), at, st, parse);
    case HtmlBind(path, liveId) =>
      var reg1 := Register(st, liveId, HtmlAt(at)).reg;
      if liveId.Some? {
        forall x, y | x in reg1 && y in reg1 && x != y && reg1[x].HtmlAt? && reg1[y].HtmlAt?
          ensures reg1[x].at != reg1[y].at
        {
          if x != liveId.value && y != liveId.value {
            assert reg1[x] == st.reg[x] && reg1[y] == st.reg[y];
          } else if x == liveId.value {
            assert !Under(st.reg[y], at);
          } else {
            assert !Under(st.reg[x], at);
          }
        }
      }
    case _ =>
  }

  lemma {:induction false} ExecBodySound(es: seq<Entry>, elem: Tree, at: seq<nat>, st: State, parse: Parser)
    requires elem.Elem? && Local(st.reg, at, elem) && HtmlDistinct(st.reg)
    ensures var r := ExecBody(es, elem, at, st, parse);
      r.Ok? ==> Kept(st.reg, r.value.1.reg, at, elem, r.value.0)
    decreases BodySize(es), 2, 0
  {
    if es == [] {
      GrowsRefl(elem);
    } else {
      EntrySound(es[0], elem, at, st, parse);
      var r0 := ExecEntry(es[0], elem, at, st, parse);
      if r0.Ok? {
        var mid := r0.value;
        ExecBodySound(es[1..], mid.0, at, mid.1, parse);
        var r := ExecBody(es[1..], mid.0, at, mid.1, parse);
        if r.Ok? {
          GrowsTrans(elem, mid.0, r.value.0);
        }
      }
    }
  }

  lemma {:induction false} EntrySound(e: Entry, elem: Tree, at: seq<nat>, st: State, parse: Parser)
    requires elem.Elem? && Local(st.reg, at, elem) && HtmlDistinct(st.reg)
    ensures var r := ExecEntry(e, elem, at, st, parse);
      r.Ok? ==> Kept(st.reg, r.value.1.reg, at, elem, r.value.0)
    decreases EntrySize(e), 1, 0
  {
    match e
    case Append(n) =>
      var k := |elem.children|;
      FreshChild(st.reg, at, elem);
      BuildSound(n, at + [k], st, parse);
      var r := Build(n, at + [k], st, parse);
      if r.Ok? {
        AppendLocal(st.reg, r.value.1.reg, at, elem, r.value.0);
        AppendGrows(elem, r.value.0);
      }
    case Attr(exprs, liveId) =>
      var rel := Anchor(elem);
      var target := Subtree(elem, rel).value;
      var eff := AttrEffects(exprs, liveId, st.data, at + rel, Effect(target.attrs, st.reg));
      var t' := target.(attrs := eff.attrs);
      AttrsGrows(target, eff.attrs);
      GraftGrows(elem, rel, t');
      GraftAt(elem, rel, t');
      AttrLocal(st.reg, eff.reg, at, rel, elem, Graft(elem, rel, t'));
    case Css(classes) =>
      var rel := Anchor(elem);
      var target := Subtree(elem, rel).value;
      var t' := target.(attrs := CssEffect(classes, st.data, target.attrs));
      AttrsGrows(target, t'.attrs);
      GraftGrows(elem, rel, t');
      LocalGrows(st.reg, at, elem, Graft(elem, rel, t'));
    case Loop(spec, body) =>
      var lv := LoopVarsOf(spec);
      var list := GetValue(st.data, lv.list);
      IterateSound(ForInKeys(list), list, lv, body, elem, at, st, parse);
    case If(cond, body) =>
      if Truthy(GetValue(st.data, cond)) {
        ExecBodySound(body, elem, at, st, parse);
      } else {
        GrowsRefl(elem);
      }
    case Head(_) =>
  }

  lemma {:induction false} IterateSound(keys: seq<string>, list: Value, lv: LoopVars, body: seq<Entry>, elem: Tree,
                                        at: seq<nat>, st: State, parse: Parser)
    requires elem.Elem? && Local(st.reg, at, elem) && HtmlDistinct(st.reg)
    ensures var r := Iterate(keys, list, lv, body, elem, at, st, parse);
      r.Ok? ==> Kept(st.reg, r.value.1.reg, at, elem, r.value.0)
    decreases BodySize(body) + 1, 0, |keys|
  {
    if keys == [] {
      GrowsRefl(elem);
    } else {
      var b := BindLoopVars(st.data, lv, list, keys[0]);
      if b.Ok? {
        var st1 := st.(data := b.value);
        ExecBodySound(body, elem, at, st1, parse);
        var r0 := ExecBody(body, elem, at, st1, parse);
        if r0.Ok? {
          var mid := r0.value;
          IterateSound(keys[1..], list, lv, body, mid.0, at, mid.1, parse);
          var r := Iterate(keys[1..], list, lv, body, mid.0, at, mid.1, parse);
          if r.Ok? {
            GrowsTrans(elem, mid.0, r.value.0);
          }
        }
      }
    }
  }

  /** The registry `set` attached to a rendered node is sound for it. */
  lemma RenderSound(p: Parsed, data: Value, parse: Parser)
    requires Render(p, data, parse).Ok? && Render(p, data, parse).value.live.Some?
    ensures RegistryOk(Render(p, data, parse).value.node.value, Render(p, data, parse).value.live.value)
  {
    var st := State(data, map[]);
    BuildSound(p.node, [], st, parse);
    var res := Build(p.node, [], st, parse).value;
    var m := res.1.reg;
    forall x | x in m ensures BindingOk(res.0, m[x]) {
      assert Under(m[x], []);
      assert m[x].at[0..] == m[x].at;
      assert Shift(m[x], 0) == m[x];
    }
  }

  // ---------------------------------------------------------------------
  // Loops.

  /** `item:index@list` names all three paths; without `:` the index is
      `$i`. */
  lemma LoopVarsRoundTrip(item: string, index: string, list: string)
    requires forall j :: 0 <= j < |item| ==> item[j] != '@' && item[j] != ':'
    requires forall j :: 0 <= j < |index| ==> index[j] != '@' && index[j] != ':'
    requires forall j :: 0 <= j < |list| ==> list[j] != '@'
    ensures LoopVarsOf(item + ":" + index + "@" + list) == LoopVars(item, index, list)
    ensures LoopVarsOf(item + "@" + list) == LoopVars(item, "$i", list)
  {
    var head := item + ":" + index;
    assert Join([item, index], ':') == head;
    JoinSplit([item, index], ':', Char(':'));
    forall i, j | 0 <= i < 2 && 0 <= j < |[head, list][i]| ensures !IsSep(Char('@'), [head, list][i][j]) {
      if i == 0 && j >= |item| + 1 {
        assert head[j] == index[j - |item| - 1];
      }
    }
    assert Join([head, list], '@') == head + "@" + list;
    JoinSplit([head, list], '@', Char('@'));
    assert Join([item, list], '@') == item + "@" + list;
    JoinSplit([item, list], '@', Char('@'));
  }

  /** Each pass sees the entry in the iterator path and, when the two
      paths are independent, the key in the index path. */
  lemma BindLoopVarsReads(data: Value, lv: LoopVars, list: Value, k: string)
    requires BindLoopVars(data, lv, list, k).Ok?
    requires !Negated(lv.item)
    ensures GetValue(BindLoopVars(data, lv, list, k).value, lv.item) == Lookup(list, k)
    ensures !Negated(lv.index) && Diverge(Segments(lv.item), Segments(lv.index)) ==>
      GetValue(BindLoopVars(data, lv, list, k).value, lv.index) == Str(k)
  {
    var d1 := SetValue(data, lv.index, Str(k)).value;
    GetAfterSet(d1, lv.item, Lookup(list, k));
    if !Negated(lv.index) && Diverge(Segments(lv.item), Segments(lv.index)) {
      GetAfterSet(data, lv.index, Str(k));
      SetFrame(d1, lv.item, Lookup(list, k), lv.index);
    }
  }

  lemma RestoreReads(data: Value, lv: LoopVars, origItem: Value, origIndex: Value)
    requires RestoreLoopVars(data, lv, origItem, origIndex).Ok?
    requires !Negated(lv.item) && !Negated(lv.index)
    requires lv.item == lv.index || Diverge(Segments(lv.item), Segments(lv.index))
    ensures GetValue(RestoreLoopVars(data, lv, origItem, origIndex).value, lv.index) == origIndex
    ensures lv.item != lv.index ==> GetValue(RestoreLoopVars(data, lv, origItem, origIndex).value, lv.item) == origItem
  {
    var d1 := SetValue(data, lv.item, origItem).value;
    GetAfterSet(d1, lv.index, origIndex);
    if lv.item != lv.index {
      GetAfterSet(data, lv.item, origItem);
      DivergeSymmetric(Segments(lv.item), Segments(lv.index));
      SetFrame(d1, lv.index, origIndex, lv.item);
    }
  }

  /** After a loop, its iterator and index paths read what they read
      before it. */
  lemma LoopRestores(spec: string, body: seq<Entry>, elem: Tree, at: seq<nat>, st: State, parse: Parser)
    requires elem.Elem?
    requires !Negated(LoopVarsOf(spec).item) && !Negated(LoopVarsOf(spec).index)
    requires LoopVarsOf(spec).item == LoopVarsOf(spec).index
          || Diverge(Segments(LoopVarsOf(spec).item), Segments(LoopVarsOf(spec).index))
    requires ExecEntry(Loop(spec, body), elem, at, st, parse).Ok?
    ensures var after := ExecEntry(Loop(spec, body), elem, at, st, parse).value.1.data;
      GetValue(after, LoopVarsOf(spec).item) == GetValue(st.data, LoopVarsOf(spec).item) &&
      GetValue(after, LoopVarsOf(spec).index) == GetValue(st.data, LoopVarsOf(spec).index)
  {
    var lv := LoopVarsOf(spec);
    var list := GetValue(st.data, lv.list);
    var res := Iterate(ForInKeys(list), list, lv, body, elem, at, st, parse).value;
    RestoreReads(res.1.data, lv, GetValue(st.data, lv.item), GetValue(st.data, lv.index));
  }

  /** The data `s` has the loop variables bound for key `k` of `list`: the
      iterator path reads the entry and, when the two paths are
      independent, the index path reads the key. */
  predicate Bound(s: Value, lv: LoopVars, list: Value, k: string) {
    GetValue(s, lv.item) == Lookup(list, k) &&
    (!Negated(lv.index) && Diverge(Segments(lv.item), Segments(lv.index)) ==> GetValue(s, lv.index) == Str(k))
  }

  /** The data each pass of the body starts from, up to the first failure. */
  function PassData(keys: seq<string>, list: Value, lv: LoopVars, body: seq<Entry>, elem: Tree, at: seq<nat>,
                    st: State, parse: Parser): seq<Value>
    requires elem.Elem?
    decreases |keys|
  {
    if keys == [] then []
    else
      match BindLoopVars(st.data, lv, list, keys[0])
      case Err(_) => []
      case Ok(d) =>
        [d] + match ExecBody(body, elem, at, st.(data := d), parse)
              case Err(_) => []
              case Ok(res) => PassData(keys[1..], list, lv, body, res.0, at, res.1, parse)
  }

  /** Loop passes that complete run the body once per key. */
  lemma {:induction false} IteratePassCount(keys: seq<string>, list: Value, lv: LoopVars, body: seq<Entry>, elem: Tree,
                                            at: seq<nat>, st: State, parse: Parser)
    requires elem.Elem? && Iterate(keys, list, lv, body, elem, at, st, parse).Ok?
    ensures |PassData(keys, list, lv, body, elem, at, st, parse)| == |keys|
    decreases |keys|
  {
    if keys != [] {
      var d := BindLoopVars(st.data, lv, list, keys[0]).value;
      var res := ExecBody(body, elem, at, st.(data := d), parse).value;
      IteratePassCount(keys[1..], list, lv, body, res.0, at, res.1, parse);
    }
  }

  /** Pass `i` starts from data with the loop variables bound for key `i`. */
  lemma {:induction false} PassDataBound(keys: seq<string>, list: Value, lv: LoopVars, body: seq<Entry>, elem: Tree,
                                         at: seq<nat>, st: State, parse: Parser, i: nat)
    requires elem.Elem? && !Negated(lv.item)
    requires i < |PassData(keys, list, lv, body, elem, at, st, parse)|
    ensures i < |keys| && Bound(PassData(keys, list, lv, body, elem, at, st, parse)[i], lv, list, keys[i])
    decreases |keys|
  {
    var d := BindLoopVars(st.data, lv, list, keys[0]).value;
    var ps := PassData(keys, list, lv, body, elem, at, st, parse);
    if i == 0 {
      assert ps[0] == d;
      BindLoopVarsReads(st.data, lv, list, keys[0]);
    } else {
      var res := ExecBody(body, elem, at, st.(data := d), parse).value;
      var rest := PassData(keys[1..], list, lv, body, res.0, at, res.1, parse);
      assert ps == [d] + rest;
      PassDataBound(keys[1..], list, lv, body, res.0, at, res.1, parse, i - 1);
      assert ps[i] == rest[i - 1];
      assert keys[1..][i - 1] == keys[i];
    }
  }

  /** A loop that completes runs its body once per for-in key of the list,
      in order, pass `i` with the loop variables bound for key `i`. */
  lemma IterateVisits(keys: seq<string>, list: Value, lv: LoopVars, body: seq<Entry>, elem: Tree, at: seq<nat>,
                      st: State, parse: Parser)
    requires elem.Elem? && !Negated(lv.item)
    requires Iterate(keys, list, lv, body, elem, at, st, parse).Ok?
    ensures var ps := PassData(keys, list, lv, body, elem, at, st, parse);
      |ps| == |keys| && forall i :: 0 <= i < |keys| ==> Bound(ps[i], lv, list, keys[i])
  {
    IteratePassCount(keys, list, lv, body, elem, at, st, parse);
    var ps := PassData(keys, list, lv, body, elem, at, st, parse);
    forall i | 0 <= i < |keys| ensures Bound(ps[i], lv, list, keys[i]) {
      PassDataBound(keys, list, lv, body, elem, at, st, parse, i);
    }
  }

  /** A loop statement directly in a loop's body makes the outer loop throw
      on its first pass: a ReferenceError once the index write succeeds. */
  lemma NestedLoopThrows(spec: string, body: seq<Entry>, elem: Tree, at: seq<nat>, st: State, parse: Parser)
    requires elem.Elem? && LoopCount(body) > 0
    requires ForInKeys(GetValue(st.data, LoopVarsOf(spec).list)) != []
    ensures var lv := LoopVarsOf(spec); var k := ForInKeys(GetValue(st.data, lv.list))[0];
      var r := ExecEntry(Loop(spec, body), elem, at, st, parse);
      r.Err? && (r.error == NestedLoop <==> SetValue(st.data, lv.index, Str(k)).Some?)
  {
  }

  /** Over a list without keys no pass runs, whatever the body holds: the
      loop only writes its variables back. */
  lemma EmptyLoopRuns(spec: string, body: seq<Entry>, elem: Tree, at: seq<nat>, st: State, parse: Parser)
    requires elem.Elem?
    requires ForInKeys(GetValue(st.data, LoopVarsOf(spec).list)) == []
    ensures var lv := LoopVarsOf(spec);
      var r := ExecEntry(Loop(spec, body), elem, at, st, parse);
      var d := RestoreLoopVars(st.data, lv, GetValue(st.data, lv.item), GetValue(st.data, lv.index));
      (r.Ok? <==> d.Ok?) && (r.Ok? ==> r.value == (elem, st.(data := d.value)))
  {
    var lv := LoopVarsOf(spec);
    var list := GetValue(st.data, lv.list);
    assert Iterate(ForInKeys(list), list, lv, body, elem, at, st, parse) == Ok((elem, st));
  }

  /** A loop statement that completes visited every for-in key of its list
      in order, pass `i` with the loop variables bound for key `i`. */
  lemma LoopVisits(spec: string, body: seq<Entry>, elem: Tree, at: seq<nat>, st: State, parse: Parser)
    requires elem.Elem? && !Negated(LoopVarsOf(spec).item)
    requires ExecEntry(Loop(spec, body), elem, at, st, parse).Ok?
    ensures var lv := LoopVarsOf(spec); var list := GetValue(st.data, lv.list); var keys := ForInKeys(list);
      var ps := PassData(keys, list, lv, body, elem, at, st, parse);
      (LoopCount(body) == 0 || keys == []) &&
      |ps| == |keys| && forall i :: 0 <= i < |keys| ==> Bound(ps[i], lv, list, keys[i])
  {
    var lv := LoopVarsOf(spec);
    var list := GetValue(st.data, lv.list);
    IterateVisits(ForInKeys(list), list, lv, body, elem, at, st, parse);
  }

  /** The first pass runs the body with the first key bound, and the loop
      goes on from its result. */
  lemma IterateUnfolds(keys: seq<string>, list: Value, lv: LoopVars, body: seq<Entry>, elem: Tree, at: seq<nat>,
                       st: State, parse: Parser)
    requires elem.Elem? && keys != []
    requires BindLoopVars(st.data, lv, list, keys[0]).Ok? && !Negated(lv.item)
    requires ExecBody(body, elem, at, st.(data := BindLoopVars(st.data, lv, list, keys[0]).value), parse).Ok?
    ensures var d := BindLoopVars(st.data, lv, list, keys[0]).value;
      var pass := ExecBody(body, elem, at, st.(data := d), parse).value;
      GetValue(d, lv.item) == Lookup(list, keys[0]) &&
      Iterate(keys, list, lv, body, elem, at, st, parse) == Iterate(keys[1..], list, lv, body, pass.0, at, pass.1, parse)
  {
    BindLoopVarsReads(st.data, lv, list, keys[0]);
  }

  // ---------------------------------------------------------------------
  // Conditionals.

  /** A `!`-prefixed condition runs the body exactly when the plain one
      would not. */
  lemma IfNegated(cond: string, body: seq<Entry>, elem: Tree, at: seq<nat>, st: State, parse: Parser)
    requires elem.Elem?
    ensures ExecEntry(If("!" + cond, body), elem, at, st, parse)
         == if Truthy(GetValue(st.data, cond)) then Ok((elem, st)) else ExecBody(body, elem, at, st, parse)
    ensures ExecEntry(If(cond, body), elem, at, st, parse)
         == if Truthy(GetValue(st.data, cond)) then ExecBody(body, elem, at, st, parse) else Ok((elem, st))
  {
    assert ("!" + cond)[1..] == cond;
  }

  // ---------------------------------------------------------------------
  // Attribute effects.

  /** A token with a variable: a failed condition leaves everything as it
      was; otherwise the attribute reads the variable's string value, no
      other attribute changes, and a live id binds `id#name`. */
  lemma AttrVarEffect(e: AttrExpr, liveId: string, data: Value, at: seq<nat>, eff: Effect)
    requires e.varName.Some? && e.varName.value != ""
    ensures var r := AttrStep(e, liveId, data, at, eff);
      !Passes(data, e.condition) ==> r == eff
    ensures var r := AttrStep(e, liveId, data, at, eff);
      Passes(data, e.condition) ==>
        GetAttr(r.attrs, e.attrName) == ToJsString(GetValue(data, e.varName.value)) &&
        (forall n :: n != e.attrName ==> GetAttr(r.attrs, n) == GetAttr(eff.attrs, n)) &&
        (liveId != "" ==> r.reg == eff.reg[liveId + "#" + e.attrName := AttrAt(at, e.attrName)]) &&
        (liveId == "" ==> r.reg == eff.reg)
  {
  }

  lemma IdsDiffer(liveId: string, k: string, k': string)
    requires k != k'
    ensures liveId + "#" + k != liveId + "#" + k'
  {
    assert (liveId + "#" + k)[|liveId| + 1..] == k;
    assert (liveId + "#" + k')[|liveId| + 1..] == k';
  }

  /** Ids other than `id#k` for the visited keys are left alone. */
  lemma {:induction false} SetEachKeeps(keys: seq<string>, m: Value, liveId: string, at: seq<nat>, eff: Effect, x: string)
    requires liveId == "" || forall k :: k in keys ==> x != liveId + "#" + k
    ensures var r := SetEach(keys, m, liveId, at, eff);
      (x in r.reg <==> x in eff.reg) && (x in eff.reg ==> r.reg[x] == eff.reg[x])
    decreases |keys|
  {
    if keys != [] {
      var k := keys[0];
      SetEachKeeps(keys[1..], m, liveId, at,
                   Effect(SetAttr(eff.attrs, k, ToJsString(Lookup(m, k))), BindAttr(eff.reg, liveId, at, k)), x);
    }
  }

  /** An attribute map: every key sets its attribute to the entry's string
      value and, with a live id, is bound as `id#k`; no other attribute
      changes. */
  lemma {:induction false} SetEachEffect(keys: seq<string>, m: Value, liveId: string, at: seq<nat>, eff: Effect)
    ensures var r := SetEach(keys, m, liveId, at, eff);
      forall k :: k in keys ==> GetAttr(r.attrs, k) == ToJsString(Lookup(m, k))
    ensures var r := SetEach(keys, m, liveId, at, eff);
      forall n :: n !in keys ==> GetAttr(r.attrs, n) == GetAttr(eff.attrs, n)
    ensures var r := SetEach(keys, m, liveId, at, eff);
      liveId != "" ==> forall k :: k in keys ==> liveId + "#" + k in r.reg && r.reg[liveId + "#" + k] == AttrAt(at, k)
    decreases |keys|
  {
    if keys != [] {
      var k := keys[0];
      var eff' := Effect(SetAttr(eff.attrs, k, ToJsString(Lookup(m, k))), BindAttr(eff.reg, liveId, at, k));
      SetEachEffect(keys[1..], m, liveId, at, eff');
      var r := SetEach(keys, m, liveId, at, eff);
      assert r == SetEach(keys[1..], m, liveId, at, eff');
      if k !in keys[1..] {
        SetEachEffect(keys[1..], m, liveId, at, eff');
        if liveId != "" {
          forall k' | k' in keys[1..] ensures liveId + "#" + k != liveId + "#" + k' {
            IdsDiffer(liveId, k, k');
          }
          SetEachKeeps(keys[1..], m, liveId, at, eff', liveId + "#" + k);
        }
      }
    }
  }

  /** A token without a variable sets every entry of the map it names. */
  lemma AttrMapEffect(e: AttrExpr, liveId: string, data: Value, at: seq<nat>, eff: Effect, m: Value)
    requires Passes(data, e.condition)
    requires e.varName.None? || e.varName.value == ""
    requires m == GetValue(data, e.attrName)
    ensures var r := AttrStep(e, liveId, data, at, eff);
      forall k :: k in ForInKeys(m) ==> GetAttr(r.attrs, k) == ToJsString(Lookup(m, k))
    ensures var r := AttrStep(e, liveId, data, at, eff);
      forall n :: n !in ForInKeys(m) ==> GetAttr(r.attrs, n) == GetAttr(eff.attrs, n)
    ensures var r := AttrStep(e, liveId, data, at, eff);
      liveId != "" ==> forall k :: k in ForInKeys(m) ==> liveId + "#" + k in r.reg && r.reg[liveId + "#" + k] == AttrAt(at, k)
  {
    var r := AttrStep(e, liveId, data, at, eff);
    assert r == SetEach(ForInKeys(m), m, liveId, at, eff) by {
      assert !(e.varName.Some? && e.varName.value != "");
    }
    SetEachEffect(ForInKeys(m), m, liveId, at, eff);
  }

  /** The `attr` block writes only the anchor's attributes and the registry:
      the anchor becomes itself with the new attributes, and every node off
      the anchor's path is as it was. */
  lemma AttrTouchesOnlyAnchor(exprs: seq<AttrExpr>, liveId: string, elem: Tree, at: seq<nat>, st: State, parse: Parser,
                              q: seq<nat>)
    requires elem.Elem?
    ensures var r := ExecEntry(Attr(exprs, liveId), elem, at, st, parse);
      var rel := Anchor(elem); var t := Subtree(elem, rel).value;
      r.Ok? && r.value.1.data == st.data &&
      Subtree(r.value.0, rel) == Some(t.(attrs := AttrEffects(exprs, liveId, st.data, at + rel, Effect(t.attrs, st.reg)).attrs)) &&
      (!HasPrefix(q, rel) && !HasPrefix(rel, q) ==> Subtree(r.value.0, q) == Subtree(elem, q))
  {
    var rel := Anchor(elem);
    var t := Subtree(elem, rel).value;
    var t' := t.(attrs := AttrEffects(exprs, liveId, st.data, at + rel, Effect(t.attrs, st.reg)).attrs);
    GraftAt(elem, rel, t');
    if !HasPrefix(q, rel) {
      GraftElsewhere(elem, rel, t', q);
    }
  }

  // ---------------------------------------------------------------------
  // Class effects.

  /** Tokens push their values in token order. */
  lemma {:induction false} ClassValuesConcat(a: seq<CssExpr>, b: seq<CssExpr>, data: Value)
    ensures ClassValues(a + b, data) == ClassValues(a, data) + ClassValues(b, data)
  {
    if a != [] {
      AppendTail(a, b);
      ClassValuesConcat(a[1..], b, data);
      var head := if Passes(data, a[0].condition) then Flatten(GetValue(data, a[0].varName)) else [];
      AppendAssoc(head, ClassValues(a[1..], data), ClassValues(b, data));
    } else {
      assert a + b == b;
    }
  }

  lemma {:induction false} JoinValuesStrs(ws: seq<string>)
    ensures JoinValues(Strs(ws), " ") == Join(ws, ' ')
  {
    var vs := Strs(ws);
    if |ws| == 1 {
      assert JoinValues(vs, " ") == JoinPart(Str(ws[0])) == ws[0];
    } else if |ws| > 1 {
      assert vs[1..] == Strs(ws[1..]);
      JoinValuesStrs(ws[1..]);
      assert JoinValues(vs, " ") == JoinPart(Str(ws[0])) + " " + JoinValues(vs[1..], " ");
      assert JoinPart(Str(ws[0])) == ws[0];
    }
  }

  lemma StrsConcat(a: seq<string>, b: seq<string>)
    ensures Strs(a) + Strs(b) == Strs(a + b)
  {
    var l, r := Strs(a) + Strs(b), Strs(a + b);
    assert |l| == |r|;
    forall i | 0 <= i < |l| ensures l[i] == r[i] {
      if i < |a| {
        assert l[i] == Str(a[i]) && (a + b)[i] == a[i];
      } else {
        assert l[i] == Str(b[i - |a|]) && (a + b)[i] == b[i - |a|];
      }
    }
  }

  /** The anchor's class list before the tokens, as strings. */
  function ExistingClasses(attrs: seq<(string, string)>): seq<string> {
    var existing := GetAttr(attrs, "class");
    if existing == "" then [] else Split(existing, Whitespace)
  }

  /** The new `class` attribute joins the old list and the pushed names. */
  lemma ClassAttrJoins(classes: seq<CssExpr>, data: Value, attrs: seq<(string, string)>, added: seq<string>)
    requires ClassValues(classes, data) == Strs(added)
    ensures GetAttr(CssEffect(classes, data, attrs), "class") == Join(ExistingClasses(attrs) + added, ' ')
  {
    var init := ExistingClasses(attrs);
    assert InitialClasses(attrs) == Strs(init);
    StrsConcat(init, added);
    JoinValuesStrs(init + added);
  }

  /** When the tokens push class names (strings without white space), the
      new class list is the old one followed by them, in order. An anchor
      with no classes before or after gets an empty `class` attribute. */
  lemma CssExtends(classes: seq<CssExpr>, data: Value, attrs: seq<(string, string)>, added: seq<string>)
    requires ClassValues(classes, data) == Strs(added)
    requires forall i, j :: 0 <= i < |added| && 0 <= j < |added[i]| ==> !IsJsWhitespace(added[i][j])
    ensures var ws := ExistingClasses(attrs) + added;
      var now := GetAttr(CssEffect(classes, data, attrs), "class");
      (ws != [] ==> Split(now, Whitespace) == ws) && (ws == [] ==> now == "")
    ensures forall n :: n != "class" ==> GetAttr(CssEffect(classes, data, attrs), n) == GetAttr(attrs, n)
  {
    var init := ExistingClasses(attrs);
    var ws := init + added;
    ClassAttrJoins(classes, data, attrs, added);
    if ws != [] {
      NoWhitespaceConcat(init, added);
      JoinSplit(ws, ' ', Whitespace);
    }
  }

  lemma NoWhitespaceConcat(a: seq<string>, b: seq<string>)
    requires forall i, j :: 0 <= i < |a| && 0 <= j < |a[i]| ==> !IsSep(Whitespace, a[i][j])
    requires forall i, j :: 0 <= i < |b| && 0 <= j < |b[i]| ==> !IsJsWhitespace(b[i][j])
    ensures forall i, j :: 0 <= i < |a + b| && 0 <= j < |(a + b)[i]| ==> !IsSep(Whitespace, (a + b)[i][j])
  {
    var ws := a + b;
    forall i, j | 0 <= i < |ws| && 0 <= j < |ws[i]| ensures !IsSep(Whitespace, ws[i][j]) {
      if i >= |a| {
        assert ws[i] == b[i - |a|];
      } else {
        assert ws[i] == a[i];
      }
    }
  }

  // ---------------------------------------------------------------------
  // Markup without instructions renders to itself.

  predicate StaticNode(n: NodeExpr)
    decreases NodeSize(n), 0
  {
    match n
    case ElementNode(_, _, body) => StaticBody(body)
    case TextBind(_, _) => false
    case HtmlBind(_, _) => false
    case _ => true
  }

  predicate StaticBody(es: seq<Entry>)
    decreases BodySize(es), 1
  {
    es == [] ||
      (assert BodySize(es) == EntrySize(es[0]) + BodySize(es[1..]);
       match es[0] case Append(n) => StaticNode(n) && StaticBody(es[1..]) case _ => false)
  }

  /** The tree static markup stands for. */
  function StaticTree(n: NodeExpr): Tree
    requires StaticNode(n)
    decreases NodeSize(n), 0
  {
    match n
    case TextLit(t) => TextNode(Str(t))
    case CommentLit(t) => CommentNode(t)
    case PassPI(tag, v) => PINode(tag, v)
    case ElementNode(tag, attrs, body) => Elem(tag, attrs, StaticTrees(body))
  }

  function StaticTrees(es: seq<Entry>): seq<Tree>
    requires StaticBody(es)
    decreases BodySize(es), 1
  {
    if es == [] then []
    else
      assert BodySize(es) == EntrySize(es[0]) + BodySize(es[1..]);
      match es[0] case Append(n) => [StaticTree(n)] + StaticTrees(es[1..])
  }

  lemma {:induction false} StaticBuilds(n: NodeExpr, at: seq<nat>, st: State, parse: Parser)
    requires StaticNode(n)
    ensures Build(n, at, st, parse) == Ok((StaticTree(n), st))
    ensures CodeOk(n)
    decreases NodeSize(n), 0
  {
    if n.ElementNode? {
      StaticRuns(n.body, Elem(n.tag, n.attrs, []), at, st, parse);
      assert [] + StaticTrees(n.body) == StaticTrees(n.body);
    }
  }

  lemma {:induction false} StaticRuns(es: seq<Entry>, elem: Tree, at: seq<nat>, st: State, parse: Parser)
    requires StaticBody(es) && elem.Elem?
    ensures ExecBody(es, elem, at, st, parse) == Ok((elem.(children := elem.children + StaticTrees(es)), st))
    ensures BodyOk(es) && LoopCount(es) == 0
    decreases BodySize(es), 1
  {
    if es == [] {
      assert elem.children + [] == elem.children;
    } else {
      var n := es[0].node;
      assert BodySize(es) == EntrySize(es[0]) + BodySize(es[1..]);
      StaticBuilds(n, at + [|elem.children|], st, parse);
      var elem1 := elem.(children := elem.children + [StaticTree(n)]);
      StaticRuns(es[1..], elem1, at, st, parse);
      assert elem1.children + StaticTrees(es[1..]) == elem.children + StaticTrees(es);
    }
  }

  /** Static markup renders to its own tree, leaves the data alone and
      attaches no `set`. */
  lemma StaticRender(n: NodeExpr, data: Value, parse: Parser)
    requires StaticNode(n)
    ensures Render(PNode(n), data, parse) == Ok(Rendered(Some(StaticTree(n)), None, data))
  {
    StaticBuilds(n, [], State(data, map[]), parse);
  }

  // ---------------------------------------------------------------------
  // A bound text child.

  /** `<tag><?=path #id?></tag>` builds the element with one text node,
      holding the string of the value, registered as `id` at child 0. */
  lemma TextChildBuilds(tag: string, attrs: seq<(string, string)>, path: string, id: string, data: Value, parse: Parser)
    ensures Build(ElementNode(tag, attrs, [Append(TextBind(path, Some(id)))]), [], State(data, map[]), parse)
         == Ok((Elem(tag, attrs, [TextNode(Str(ToJsString(GetValue(data, path))))]), State(data, map[id := TextAt([0])])))
  {
    var es := [Append(TextBind(path, Some(id)))];
    var st := State(data, map[]);
    var t := TextNode(Str(ToJsString(GetValue(data, path))));
    var st1 := State(data, map[id := TextAt([0])]);
    assert [] + [|Elem(tag, attrs, []).children|] == [0];
    assert Elem(tag, attrs, []).(children := [] + [t]) == Elem(tag, attrs, [t]);
    assert ExecEntry(es[0], Elem(tag, attrs, []), [], st, parse) == Ok((Elem(tag, attrs, [t]), st1));
    assert es[1..] == [];
    assert ExecBody(es[1..], Elem(tag, attrs, [t]), [], st1, parse) == Ok((Elem(tag, attrs, [t]), st1));
    assert ExecBody(es, Elem(tag, attrs, []), [], st, parse) == Ok((Elem(tag, attrs, [t]), st1));
  }

  lemma TextChildRenders(tag: string, attrs: seq<(string, string)>, path: string, id: string, data: Value, parse: Parser)
    ensures Render(PNode(ElementNode(tag, attrs, [Append(TextBind(path, Some(id)))])), data, parse)
         == Ok(Rendered(Some(Elem(tag, attrs, [TextNode(Str(ToJsString(GetValue(data, path))))])),
                        Some(map[id := TextAt([0])]), data))
  {
    var es := [Append(TextBind(path, Some(id)))];
    TextChildBuilds(tag, attrs, path, id, data, parse);
    assert es[1..] == [];
    assert LoopCount(es) == 0;
    assert EntryOk(es[0]) && EntriesOk(es[1..]);
    assert BodyOk(es) && CodeOk(ElementNode(tag, attrs, es));
    assert |map[id := TextAt([0])]| == 1;
  }
}
