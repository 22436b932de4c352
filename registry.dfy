/** The live `set` registry of a rendered node: the `get` and `set` traps
    of the proxy the constructor attaches, in the two variants the
    repository carries. The emitted class reads and writes an attribute
    binding through the attribute's name; the hand-written runtime class
    returns the element on a read and, on a write, sets or removes the
    attribute named by the registry key itself. */
module Registry {
  import opened Values
  import opened Trees
  import Program
  import Paths
  import Render

  /** A rendered node together with its registry. */
  datatype Live = Live(root: Tree, entries: map<string, Binding>)

  /** Why a `set` throws: the bound html node has no parent (it is the root,
      or an earlier write already replaced it), or the value is neither a
      string nor a node. */
  datatype SetError = NoParent | NotANode

  predicate Valid(l: Live) {
    RegistryOk(l.root, l.entries)
  }

  /** Two bindings that read and write the same thing. */
  predicate SameTarget(a: Binding, b: Binding) {
    match a
    case TextAt(p) => b.TextAt? && b.at == p
    case HtmlAt(p) => b.HtmlAt? && b.at == p
    case AttrAt(p, n) => b.AttrAt? && b.at == p && b.attrName == n
    case DetachedHtml(t) => b == DetachedHtml(t)
  }

  // ---------------------------------------------------------------------
  // Reads.

  /** The emitted `get` trap on one binding: a text node's data, the html
      node itself, or the attribute's value. */
  function ReadBinding(root: Tree, b: Binding): Value
    requires BindingOk(root, b)
  {
    match b
    case TextAt(p) => Subtree(root, p).value.data
    case HtmlAt(p) => NodeRef(Subtree(root, p).value)
    case AttrAt(p, n) => Str(GetAttr(Subtree(root, p).value.attrs, n))
    case DetachedHtml(t) => NodeRef(t)
  }

  /** The hand-written runtime's `get` trap on one binding: an attribute
      binding yields the element rather than the attribute's value. */
  function ReadBindingRuntime(root: Tree, b: Binding): Value
    requires BindingOk(root, b)
  {
    match b
    case AttrAt(p, _) => NodeRef(Subtree(root, p).value)
    case _ => ReadBinding(root, b)
  }

  /** `node.set[key]` on the emitted class; an unknown key reads as
      `undefined`. */
  function Read(l: Live, key: string): (r: Value)
    requires Valid(l)
    ensures key !in l.entries ==> r == Undef
    ensures key in l.entries && l.entries[key].TextAt? ==>
      r == Subtree(l.root, l.entries[key].at).value.data
    ensures key in l.entries && l.entries[key].AttrAt? ==>
      r == Str(GetAttr(Subtree(l.root, l.entries[key].at).value.attrs, l.entries[key].attrName))
    ensures key in l.entries && l.entries[key].HtmlAt? ==> r == NodeRef(Subtree(l.root, l.entries[key].at).value)
  {
    if key in l.entries then ReadBinding(l.root, l.entries[key]) else Undef
  }

  /** `node.set[key]` on the hand-written runtime class. */
  function ReadRuntime(l: Live, key: string): (r: Value)
    requires Valid(l)
    ensures key !in l.entries ==> r == Undef
    ensures key in l.entries && !l.entries[key].AttrAt? ==> r == Read(l, key)
    ensures key in l.entries && l.entries[key].AttrAt? ==> r == NodeRef(Subtree(l.root, l.entries[key].at).value)
  {
    if key in l.entries then ReadBindingRuntime(l.root, l.entries[key]) else Undef
  }

  // ---------------------------------------------------------------------
  // What a replacement in the tree does to the other bindings.

  /** Replacing the node at `p` keeps a binding sound, and reading the same,
      when the binding is not on `p` and, if it lies below `p`, the new
      node is an element with the old one's children. */
  lemma GraftKeepsBinding(root: Tree, p: seq<nat>, s: Tree, b: Binding)
    requires Subtree(root, p).Some? && BindingOk(root, b)
    requires !b.DetachedHtml? ==> b.at != p
    requires !b.DetachedHtml? && HasPrefix(b.at, p) ==>
      Subtree(root, p).value.Elem? && s.Elem? && s.children == Subtree(root, p).value.children
    ensures BindingOk(Graft(root, p, s), b)
    ensures ReadBinding(Graft(root, p, s), b) == ReadBinding(root, b)
    ensures ReadBindingRuntime(Graft(root, p, s), b) == ReadBindingRuntime(root, b) || b.AttrAt?
  {
    if !b.DetachedHtml? {
      var q := b.at;
      if HasPrefix(q, p) {
        assert q[..|q|] == q;
        assert |q| > |p|;
        GraftSameChildren(root, p, s, q);
      } else {
        GraftElsewhere(root, p, s, q);
        if HasPrefix(p, q) {
          assert p[..|p|] == p;
          assert |p| > |q|;
          SubtreeBelow(root, q, p);
        }
      }
    }
  }

  /** Nothing below a node that is not an element. */
  lemma NothingBelow(root: Tree, p: seq<nat>, b: Binding)
    requires Subtree(root, p).Some? && !Subtree(root, p).value.Elem?
    requires BindingOk(root, b) && !b.DetachedHtml?
    ensures !(HasPrefix(b.at, p) && |b.at| > |p|)
  {
    if HasPrefix(b.at, p) && |b.at| > |p| {
      SubtreeBelow(root, p, b.at);
    }
  }

  // ---------------------------------------------------------------------
  // Writes.

  /** The node an html write inserts: a string goes through the parser,
      a node is taken as it is, anything else is not a node. */
  function HtmlNode(v: Value, parse: Render.Parser): (r: Option<Tree>)
    ensures r.Some? <==> v.Str? || v.NodeRef?
    ensures v.NodeRef? ==> r == Some(v.node)
  {
    match v
    case Str(_) => Some(DocNode(parse(v)))
    case NodeRef(t) => Some(t)
    case _ => None
  }

  /** `node.set[key] = v` on the emitted class, for an html binding. The
      registry keeps the replaced node, which is no longer in the tree. */
  function WriteHtml(l: Live, key: string, p: seq<nat>, v: Value, parse: Render.Parser): (r: Result<Live, SetError>)
    requires Valid(l) && key in l.entries && l.entries[key] == HtmlAt(p)
    ensures r.Ok? ==> Valid(r.value) && r.value.entries.Keys == l.entries.Keys
    ensures r.Ok? ==> forall y :: y in l.entries && y != key ==> r.value.entries[y] == l.entries[y]
  {
    if p == [] then Err(NoParent)
    else
      match HtmlNode(v, parse)
      case None => Err(NotANode)
      case Some(t) =>
        var r := Live(Graft(l.root, p, t), l.entries[key := DetachedHtml(Subtree(l.root, p).value)]);
        assert Valid(r) by {
          forall y | y in r.entries ensures BindingOk(r.root, r.entries[y]) {
            if y != key && !l.entries[y].DetachedHtml? {
              var b := l.entries[y];
              NothingBelow(l.root, p, b);
              GraftKeepsBinding(l.root, p, t, b);
            }
          }
        }
        Ok(r)
  }

  /** `node.set[key] = v` on the emitted class. A text binding takes `v` as
      the node's data; an attribute binding sets the attribute to `v` as a
      string; an unknown key changes nothing. */
  function Write(l: Live, key: string, v: Value, parse: Render.Parser): (r: Result<Live, SetError>)
    requires Valid(l)
    ensures r.Ok? ==> Valid(r.value) && r.value.entries.Keys == l.entries.Keys
    ensures key !in l.entries ==> r == Ok(l)
    ensures r.Err? <==> key in l.entries && match l.entries[key]
      case DetachedHtml(_) => true
      case HtmlAt(p) => p == [] || HtmlNode(v, parse).None?
      case _ => false
    ensures r.Err? && l.entries[key].HtmlAt? && l.entries[key].at != [] ==> r == Err(NotANode)
  {
    if key !in l.entries then Ok(l)
    else
      match l.entries[key]
      case TextAt(p) => Ok(WriteText(l, p, v))
      case AttrAt(p, n) => Ok(WriteAttr(l, p, n, ToJsString(v)))
      case HtmlAt(p) => WriteHtml(l, key, p, v, parse)
      case DetachedHtml(_) => Err(NoParent)
  }

  /** The text node at `p` takes the data `v`. */
  function WriteText(l: Live, p: seq<nat>, v: Value): (r: Live)
    requires Valid(l) && Subtree(l.root, p).Some? && Subtree(l.root, p).value.TextNode?
    ensures Valid(r) && r.entries == l.entries
  {
    var r := Live(Graft(l.root, p, TextNode(v)), l.entries);
    GraftAt(l.root, p, TextNode(v));
    forall y | y in l.entries ensures BindingOk(r.root, l.entries[y]) {
      var b := l.entries[y];
      if !b.DetachedHtml? && b.at != p {
        NothingBelow(l.root, p, b);
        GraftKeepsBinding(l.root, p, TextNode(v), b);
      }
    }
    r
  }

  /** The element at `p` takes the attribute `n` with the value `s`. */
  function WriteAttr(l: Live, p: seq<nat>, n: string, s: string): (r: Live)
    requires Valid(l) && Subtree(l.root, p).Some? && Subtree(l.root, p).value.Elem?
    ensures Valid(r) && r.entries == l.entries
  {
    var e := Subtree(l.root, p).value;
    SetElemAttrs(l, p, SetAttr(e.attrs, n, s))
  }

  /** The element at `p` with its attributes replaced by `attrs`. */
  function SetElemAttrs(l: Live, p: seq<nat>, attrs: seq<(string, string)>): (r: Live)
    requires Valid(l) && Subtree(l.root, p).Some? && Subtree(l.root, p).value.Elem?
    ensures Valid(r) && r.entries == l.entries
    ensures Subtree(r.root, p) == Some(Subtree(l.root, p).value.(attrs := attrs))
  {
    var e := Subtree(l.root, p).value;
    var e' := e.(attrs := attrs);
    var r := Live(Graft(l.root, p, e'), l.entries);
    GraftAt(l.root, p, e');
    forall y | y in l.entries ensures BindingOk(r.root, l.entries[y]) {
      var b := l.entries[y];
      if !b.DetachedHtml? && b.at != p {
        GraftKeepsBinding(l.root, p, e', b);
      }
    }
    r
  }

  /** `node.set[key] = v` on the hand-written runtime class: as the emitted
      one, except that an attribute binding removes (for `null`) or sets
      the attribute named by the key, not the bound attribute. */
  function WriteRuntime(l: Live, key: string, v: Value, parse: Render.Parser): (r: Result<Live, SetError>)
    requires Valid(l)
    ensures r.Ok? ==> Valid(r.value) && r.value.entries.Keys == l.entries.Keys
    ensures key in l.entries && !l.entries[key].AttrAt? ==> r == Write(l, key, v, parse)
    ensures key !in l.entries ==> r == Ok(l)
  {
    if key in l.entries && l.entries[key].AttrAt? then
      var p := l.entries[key].at;
      var e := Subtree(l.root, p).value;
      Ok(SetElemAttrs(l, p, if v == Null then RemoveAttr(e.attrs, key) else SetAttr(e.attrs, key, ToJsString(v))))
    else Write(l, key, v, parse)
  }

  // ---------------------------------------------------------------------
  // Properties of the writes.

  /** A write is seen by the next read of the same key: a text binding
      reads the new data, an attribute binding the new value as a string,
      and an html binding still reads the node it replaced, while the tree
      holds the new one. */
  lemma ReadAfterWrite(l: Live, key: string, v: Value, parse: Render.Parser)
    requires Valid(l) && key in l.entries && Write(l, key, v, parse).Ok?
    ensures l.entries[key].TextAt? ==> Read(Write(l, key, v, parse).value, key) == v
    ensures l.entries[key].AttrAt? ==> Read(Write(l, key, v, parse).value, key) == Str(ToJsString(v))
    ensures l.entries[key].HtmlAt? ==>
      var p := l.entries[key].at;
      Read(Write(l, key, v, parse).value, key) == NodeRef(Subtree(l.root, p).value) &&
      Subtree(Write(l, key, v, parse).value.root, p) == HtmlNode(v, parse)
  {
    var b := l.entries[key];
    match b
    case TextAt(p) => GraftAt(l.root, p, TextNode(v));
    case AttrAt(p, n) =>
    case HtmlAt(p) => GraftAt(l.root, p, HtmlNode(v, parse).value);
    case DetachedHtml(_) =>
  }

  /** A write leaves every other key reading what it read, unless that key
      is bound to the same text node or the same attribute of the same
      element. */
  lemma WriteFrame(l: Live, key: string, v: Value, parse: Render.Parser, y: string)
    requires Valid(l) && Write(l, key, v, parse).Ok?
    requires y in l.entries && y != key
    requires key in l.entries ==> !SameTarget(l.entries[key], l.entries[y])
    ensures Read(Write(l, key, v, parse).value, y) == Read(l, y)
  {
    if key in l.entries {
      var other := l.entries[y];
      match l.entries[key]
      case TextAt(p) =>
        if !other.DetachedHtml? {
          NothingBelow(l.root, p, other);
          if other.at != p {
            GraftKeepsBinding(l.root, p, TextNode(v), other);
          }
        }
      case AttrAt(p, n) =>
        var e := Subtree(l.root, p).value;
        var e' := e.(attrs := SetAttr(e.attrs, n, ToJsString(v)));
        if !other.DetachedHtml? {
          if other.at != p {
            GraftKeepsBinding(l.root, p, e', other);
          } else {
            GraftAt(l.root, p, e');
          }
        }
      case HtmlAt(p) =>
        var t := HtmlNode(v, parse).value;
        if !other.DetachedHtml? {
          NothingBelow(l.root, p, other);
          GraftKeepsBinding(l.root, p, t, other);
        }
      case DetachedHtml(_) =>
    }
  }

  /** On the hand-written runtime class a non-null write to an attribute
      binding sets the attribute named by the key, and a null one removes
      it; other attributes keep their values. */
  lemma RuntimeWriteAttr(l: Live, key: string, v: Value, parse: Render.Parser)
    requires Valid(l) && key in l.entries && l.entries[key].AttrAt?
    ensures var p := l.entries[key].at; var e := Subtree(l.root, p).value;
      var e' := Subtree(WriteRuntime(l, key, v, parse).value.root, p).value;
      e'.Elem? &&
      (v != Null ==> GetAttr(e'.attrs, key) == ToJsString(v)) &&
      (v == Null && UniqueNames(e.attrs) ==> key !in Names(e'.attrs)) &&
      forall n :: n != key ==> GetAttr(e'.attrs, n) == GetAttr(e.attrs, n)
  {
    var e := Subtree(l.root, l.entries[key].at).value;
    if v == Null {
      if UniqueNames(e.attrs) {
        RemoveAttrAbsent(e.attrs, key);
      }
    }
  }

  /** The runtime class writes the attribute named by the key: a binding
      registered as `attrs#value` for the attribute `value` leaves `value`
      as it was. */
  lemma RuntimeWriteMissesAttribute(parse: Render.Parser)
    ensures var l := Live(Elem("div", [("value", "foo")], []), map["attrs#value" := AttrAt([], "value")]);
      Valid(l) &&
      Read(WriteRuntime(l, "attrs#value", Str("bar"), parse).value, "attrs#value") == Str("foo") &&
      Read(Write(l, "attrs#value", Str("bar"), parse).value, "attrs#value") == Str("bar")
  {
    var l := Live(Elem("div", [("value", "foo")], []), map["attrs#value" := AttrAt([], "value")]);
    var w := WriteRuntime(l, "attrs#value", Str("bar"), parse).value;
    assert w.root == Elem("div", SetAttr([("value", "foo")], "attrs#value", "bar"), []);
    assert GetAttr(SetAttr([("value", "foo")], "attrs#value", "bar"), "value") == "foo";
  }

  /** `<tag><?=path #id?></tag>`: through `set`, the bound text node reads
      the string of the value it was rendered from. */
  lemma RenderedTextReads(tag: string, attrs: seq<(string, string)>, path: string, id: string, data: Value,
                          parse: Render.Parser)
    ensures var p := Program.PNode(Program.ElementNode(tag, attrs, [Program.Append(Program.TextBind(path, Some(id)))]));
      var r := Render.Render(p, data, parse);
      r.Ok? && r.value.live == Some(map[id := TextAt([0])]) &&
      Valid(Live(r.value.node.value, r.value.live.value)) &&
      Read(Live(r.value.node.value, r.value.live.value), id) == Str(ToJsString(Paths.GetValue(data, path)))
  {
    var t := TextNode(Str(ToJsString(Paths.GetValue(data, path))));
    Render.TextChildRenders(tag, attrs, path, id, data, parse);
    assert Subtree(Elem(tag, attrs, [t]), [0]) == Some(t) by {
      assert [0][1..] == [];
    }
  }

  // ---------------------------------------------------------------------
  // The registry as an object.

  /** The node a constructor returns with its `set` proxy: the writes
      change the tree in place. */
  class LiveSet {
    var root: Tree
    var entries: map<string, Binding>

    function State(): Live
      reads this
    {
      Live(root, entries)
    }

    /** The live set of a rendered node that has one. */
    constructor (p: Program.Parsed, data: Value, parse: Render.Parser)
      requires Render.Render(p, data, parse).Ok? && Render.Render(p, data, parse).value.live.Some?
      ensures root == Render.Render(p, data, parse).value.node.value
      ensures entries == Render.Render(p, data, parse).value.live.value
      ensures Valid(State())
    {
      Render.RenderSound(p, data, parse);
      root := Render.Render(p, data, parse).value.node.value;
      entries := Render.Render(p, data, parse).value.live.value;
    }

    /** `node.set[key] = v` on the emitted class; `ok` is false when it
        throws, and then nothing changed. */
    method Set(key: string, v: Value, parse: Render.Parser) returns (ok: bool)
      requires Valid(State())
      modifies this
      ensures Valid(State())
      ensures ok == Write(old(State()), key, v, parse).Ok?
      ensures ok ==> State() == Write(old(State()), key, v, parse).value
      ensures !ok ==> State() == old(State())
    {
      ghost var w := Write(State(), key, v, parse);
      if key !in entries {
        return true;
      }
      match entries[key]
      case TextAt(p) =>
        root := Graft(root, p, TextNode(v));
        ok := true;
      case AttrAt(p, n) =>
        var e := Subtree(root, p).value;
        root := Graft(root, p, e.(attrs := SetAttr(e.attrs, n, ToJsString(v))));
        ok := true;
      case HtmlAt(p) =>
        var t := HtmlNode(v, parse);
        if p == [] || t.None? {
          return false;
        }
        var old_ := Subtree(root, p).value;
        root := Graft(root, p, t.value);
        entries := entries[key := DetachedHtml(old_)];
        ok := true;
      case DetachedHtml(_) =>
        ok := false;
    }

    /** `node.set[key] = v` on the hand-written runtime class. */
    method SetRuntime(key: string, v: Value, parse: Render.Parser) returns (ok: bool)
      requires Valid(State())
      modifies this
      ensures Valid(State())
      ensures ok == WriteRuntime(old(State()), key, v, parse).Ok?
      ensures ok ==> State() == WriteRuntime(old(State()), key, v, parse).value
      ensures !ok ==> State() == old(State())
    {
      ghost var w := WriteRuntime(State(), key, v, parse);
      if key in entries && entries[key].AttrAt? {
        var p := entries[key].at;
        var e := Subtree(root, p).value;
        var attrs := if v == Null then RemoveAttr(e.attrs, key) else SetAttr(e.attrs, key, ToJsString(v));
        root := Graft(root, p, e.(attrs := attrs));
        return true;
      }
      ok := Set(key, v, parse);
    }
  }
}
