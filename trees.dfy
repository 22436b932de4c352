/** Addressing nodes of the output tree by child-index paths, the DOM
    primitives the generated code calls on them, and the bindings the live
    registry records. A path steps only through element children: nothing
    inside a parsed document (an html insertion) is addressable. */
module Trees {
  import opened Values

  datatype NodeKind = ElementKind | TextKind | CommentKind | PIKind | DocumentKind

  /** `nodeType`: 1, 3, 8, 7 and 9. */
  function KindOf(t: Tree): NodeKind {
    match t
    case Elem(_, _, _) => ElementKind
    case TextNode(_) => TextKind
    case CommentNode(_) => CommentKind
    case PINode(_, _) => PIKind
    case DocNode(_) => DocumentKind
  }

  predicate HasPrefix(p: seq<nat>, q: seq<nat>) {
    |q| <= |p| && p[..|q|] == q
  }

  function Subtree(t: Tree, p: seq<nat>): (r: Option<Tree>)
    ensures p == [] ==> r == Some(t)
    decreases |p|
  {
    if p == [] then Some(t)
    else if t.Elem? && p[0] < |t.children| then Subtree(t.children[p[0]], p[1..])
    else None
  }

  /** `t` with the node at `p` replaced by `s`. */
  function Graft(t: Tree, p: seq<nat>, s: Tree): Tree
    requires Subtree(t, p).Some?
    decreases |p|
  {
    if p == [] then s
    else t.(children := t.children[p[0] := Graft(t.children[p[0]], p[1..], s)])
  }

  lemma {:induction false} SubtreeConcat(t: Tree, p: seq<nat>, q: seq<nat>)
    requires Subtree(t, p).Some?
    ensures Subtree(t, p + q) == Subtree(Subtree(t, p).value, q)
    decreases |p|
  {
    if p != [] {
      assert (p + q)[0] == p[0] && (p + q)[1..] == p[1..] + q;
      SubtreeConcat(t.children[p[0]], p[1..], q);
    } else {
      assert p + q == q;
    }
  }

  /** A node below `p` exists only if the node at `p` is an element. */
  lemma {:induction false} SubtreeBelow(t: Tree, p: seq<nat>, q: seq<nat>)
    requires HasPrefix(q, p) && |q| > |p| && Subtree(t, q).Some?
    ensures Subtree(t, p).Some? && Subtree(t, p).value.Elem?
    decreases |p|
  {
    if p != [] {
      assert q[0] == p[0];
      assert HasPrefix(q[1..], p[1..]);
      SubtreeBelow(t.children[p[0]], p[1..], q[1..]);
    }
  }

  lemma {:induction false} GraftAt(t: Tree, p: seq<nat>, s: Tree)
    requires Subtree(t, p).Some?
    ensures Subtree(Graft(t, p, s), p) == Some(s)
    decreases |p|
  {
    if p != [] {
      GraftAt(t.children[p[0]], p[1..], s);
    }
  }

  /** Grafting at `p` leaves every node not on or under `p` as it was, and
      the nodes above `p` the same kind with the same tag and attributes. */
  lemma {:induction false} GraftElsewhere(t: Tree, p: seq<nat>, s: Tree, q: seq<nat>)
    requires Subtree(t, p).Some? && !HasPrefix(q, p)
    ensures Subtree(Graft(t, p, s), q).Some? == Subtree(t, q).Some?
    ensures !HasPrefix(p, q) ==> Subtree(Graft(t, p, s), q) == Subtree(t, q)
    ensures HasPrefix(p, q) && Subtree(t, q).Some? ==>
      var a := Subtree(t, q).value; var b := Subtree(Graft(t, p, s), q).value;
      a.Elem? && b.Elem? && a.tag == b.tag && a.attrs == b.attrs && |a.children| == |b.children|
    decreases |q|
  {
    if q != [] {
      var g := Graft(t, p, s);
      assert p != [];
      if t.Elem? && q[0] < |t.children| {
        if q[0] == p[0] {
          assert !HasPrefix(q[1..], p[1..]);
          assert HasPrefix(p, q) ==> HasPrefix(p[1..], q[1..]);
          assert !HasPrefix(p[1..], q[1..]) ==> !HasPrefix(p, q);
          GraftElsewhere(t.children[p[0]], p[1..], s, q[1..]);
        } else {
          assert g.children[q[0]] == t.children[q[0]];
          assert !HasPrefix(p, q);
        }
      }
    } else {
      assert HasPrefix(p, q);
      assert p != [];
    }
  }

  /** Replacing an element by one with the same children leaves every node
      below it as it was. */
  lemma GraftSameChildren(t: Tree, p: seq<nat>, s: Tree, q: seq<nat>)
    requires Subtree(t, p).Some? && Subtree(t, p).value.Elem?
    requires s.Elem? && s.children == Subtree(t, p).value.children
    requires HasPrefix(q, p) && |q| > |p|
    ensures Subtree(Graft(t, p, s), q) == Subtree(t, q)
  {
    var r := q[|p|..];
    assert q == p + r;
    GraftAt(t, p, s);
    SubtreeConcat(t, p, r);
    SubtreeConcat(Graft(t, p, s), p, r);
  }

  // ---------------------------------------------------------------------
  // Attributes.

  function Names(attrs: seq<(string, string)>): (ns: seq<string>)
    ensures |ns| == |attrs| && forall i :: 0 <= i < |attrs| ==> ns[i] == attrs[i].0
  {
    if attrs == [] then [] else [attrs[0].0] + Names(attrs[1..])
  }

  /** `getAttribute`: the value, or the empty string when absent. */
  function GetAttr(attrs: seq<(string, string)>, name: string): (r: string)
    ensures name !in Names(attrs) ==> r == ""
  {
    if attrs == [] then ""
    else if attrs[0].0 == name then attrs[0].1
    else GetAttr(attrs[1..], name)
  }

  /** `setAttribute`: an existing attribute keeps its place, a new one is
      appended. */
  function SetAttr(attrs: seq<(string, string)>, name: string, value: string): (r: seq<(string, string)>)
    ensures GetAttr(r, name) == value
    ensures forall n :: n != name ==> GetAttr(r, n) == GetAttr(attrs, n)
  {
    if attrs == [] then [(name, value)]
    else if attrs[0].0 == name then [(name, value)] + attrs[1..]
    else [attrs[0]] + SetAttr(attrs[1..], name, value)
  }

  /** An existing attribute keeps its place; a new one goes last. */
  lemma {:induction false} SetAttrNames(attrs: seq<(string, string)>, name: string, value: string)
    ensures name in Names(attrs) ==> Names(SetAttr(attrs, name, value)) == Names(attrs)
    ensures name !in Names(attrs) ==> Names(SetAttr(attrs, name, value)) == Names(attrs) + [name]
  {
    if attrs != [] {
      assert Names(attrs) == [attrs[0].0] + Names(attrs[1..]);
      if attrs[0].0 != name {
        SetAttrNames(attrs[1..], name, value);
        var r := SetAttr(attrs, name, value);
        assert Names(r) == [attrs[0].0] + Names(SetAttr(attrs[1..], name, value));
      } else {
        assert Names(SetAttr(attrs, name, value)) == [name] + Names(attrs[1..]);
      }
    }
  }

  /** `removeAttribute`: the attribute of that name is taken out. */
  function RemoveAttr(attrs: seq<(string, string)>, name: string): (r: seq<(string, string)>)
    ensures forall n :: n != name ==> GetAttr(r, n) == GetAttr(attrs, n)
    ensures forall n :: n in Names(r) ==> n in Names(attrs)
  {
    if attrs == [] then []
    else if attrs[0].0 == name then attrs[1..]
    else
      var r := [attrs[0]] + RemoveAttr(attrs[1..], name);
      assert Names(r) == [attrs[0].0] + Names(RemoveAttr(attrs[1..], name));
      assert Names(attrs) == [attrs[0].0] + Names(attrs[1..]);
      r
  }

  predicate UniqueNames(attrs: seq<(string, string)>) {
    forall i, j :: 0 <= i < j < |attrs| ==> attrs[i].0 != attrs[j].0
  }

  lemma SetAttrUnique(attrs: seq<(string, string)>, name: string, value: string)
    requires UniqueNames(attrs)
    ensures UniqueNames(SetAttr(attrs, name, value))
  {
    var r := SetAttr(attrs, name, value);
    SetAttrNames(attrs, name, value);
    forall i, j | 0 <= i < j < |r| ensures r[i].0 != r[j].0 {
      assert Names(r)[i] == r[i].0 && Names(r)[j] == r[j].0;
      if name !in Names(attrs) && j == |attrs| {
        assert Names(attrs)[i] == attrs[i].0;
      } else {
        assert Names(attrs)[i] == attrs[i].0 && Names(attrs)[j] == attrs[j].0;
      }
    }
  }

  /** With attribute names unique, as XML requires, a removed attribute
      reads back as absent. */
  lemma {:induction false} RemoveAttrAbsent(attrs: seq<(string, string)>, name: string)
    requires UniqueNames(attrs)
    ensures name !in Names(RemoveAttr(attrs, name))
    ensures GetAttr(RemoveAttr(attrs, name), name) == ""
  {
    if attrs != [] {
      assert Names(attrs) == [attrs[0].0] + Names(attrs[1..]);
      if attrs[0].0 == name {
        forall i | 0 <= i < |attrs[1..]| ensures Names(attrs[1..])[i] != name {
          assert attrs[1..][i] == attrs[i + 1];
        }
      } else {
        assert UniqueNames(attrs[1..]) by {
          forall i, j | 0 <= i < j < |attrs[1..]| ensures attrs[1..][i].0 != attrs[1..][j].0 {
            assert attrs[1..][i] == attrs[i + 1] && attrs[1..][j] == attrs[j + 1];
          }
        }
        RemoveAttrAbsent(attrs[1..], name);
        var r := RemoveAttr(attrs, name);
        assert Names(r) == [attrs[0].0] + Names(RemoveAttr(attrs[1..], name));
      }
    }
  }

  // ---------------------------------------------------------------------
  // Bindings.

  /** What the live registry records for one id: the node, by its path from
      the root, and for an attribute the attribute's name. `DetachedHtml` is
      an html binding whose node was replaced: the registry keeps the old
      node, which no longer has a parent. */
  datatype Binding =
    | TextAt(at: seq<nat>)
    | HtmlAt(at: seq<nat>)
    | AttrAt(at: seq<nat>, attrName: string)
    | DetachedHtml(node: Tree)

  /** A binding names a node of its kind in `root`. */
  predicate BindingOk(root: Tree, b: Binding) {
    match b
    case TextAt(p) => Subtree(root, p).Some? && Subtree(root, p).value.TextNode?
    case HtmlAt(p) => Subtree(root, p).Some? && Subtree(root, p).value.DocNode?
    case AttrAt(p, _) => Subtree(root, p).Some? && Subtree(root, p).value.Elem?
    case DetachedHtml(_) => true
  }

  /** No two ids bind the same html node. */
  predicate HtmlDistinct(reg: map<string, Binding>) {
    forall x, y :: x in reg && y in reg && x != y && reg[x].HtmlAt? && reg[y].HtmlAt? ==> reg[x].at != reg[y].at
  }

  /** Every binding is sound and the html bindings are distinct. */
  predicate RegistryOk(root: Tree, reg: map<string, Binding>) {
    (forall x :: x in reg ==> BindingOk(root, reg[x])) && HtmlDistinct(reg)
  }
}
