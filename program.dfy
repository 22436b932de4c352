/** The compiler's input (the parsed markup) and output (a structured
    instruction tree in place of generated source text). */
module Program {
  import opened Values

  /** A parsed markup node, as the XML parser hands it to `parseNode`. */
  datatype TNode =
    | Document(children: seq<TNode>)
    | Fragment(children: seq<TNode>)
    | Element(tag: string, attrs: seq<(string, string)>, children: seq<TNode>)
    | Text(text: string)
    | Comment(text: string)
    | PI(tag: string, value: string)

  /** One `[condition?]attrName[=varName]` token of an `attr` instruction. */
  datatype AttrExpr = AttrExpr(condition: Option<string>, attrName: string, varName: Option<string>)

  /** One `[condition?]varName` token of a `css` instruction. */
  datatype CssExpr = CssExpr(condition: Option<string>, varName: string)

  /** An expression that yields one node, appended to the current element. */
  datatype NodeExpr =
    | TextLit(text: string)
    | CommentLit(text: string)
    | ElementNode(tag: string, attrs: seq<(string, string)>, body: seq<Entry>)
    | PassPI(tag: string, value: string)
    | TextBind(path: string, liveId: Option<string>)
    | HtmlBind(path: string, liveId: Option<string>)

  /** The two instruction blocks a `SubRoutine` can hold back. */
  datatype BlockKind = AttrLines | CssLines

  /** One statement of an element's (or an open block's) instruction list.
      `Head` is what is left of an `attr`/`css` block pushed into an open
      loop or if: only its first line, which opens a brace it never closes. */
  datatype Entry =
    | Append(node: NodeExpr)
    | Attr(exprs: seq<AttrExpr>, liveId: string)
    | Css(classes: seq<CssExpr>)
    | Loop(spec: string, body: seq<Entry>)
    | If(cond: string, body: seq<Entry>)
    | Head(kind: BlockKind)

  /** The kinds of `SubRoutine`. */
  datatype SubKind = LoopSub | IfSub

  /** What `parseNode` returns for one node: a new `SubRoutine`, `null`
      (a close marker), an array of lines (`attr`/`css`) or one node
      expression. */
  datatype Parsed =
    | POpen(kind: SubKind, spec: string)
    | PClose
    | PLines(block: Entry)
    | PNode(node: NodeExpr)

  /** Why compilation aborts. */
  datatype CompileError =
    | NotOneChild       // 'document must have exactly one child'
    | StackUnderflow    // a close marker with no open block: `undefined.push`
    | UnclosedBlock     // a block still open at the end of an element: no `join`
    | BadToken(token: string)  // an attr/css token the regular expression rejects

  function NodeSize(n: NodeExpr): nat {
    match n
    case ElementNode(_, _, body) => 1 + BodySize(body)
    case _ => 1
  }

  function EntrySize(e: Entry): nat {
    match e
    case Append(n) => 1 + NodeSize(n)
    case Loop(_, body) => 1 + BodySize(body)
    case If(_, body) => 1 + BodySize(body)
    case _ => 1
  }

  function BodySize(es: seq<Entry>): nat {
    if es == [] then 0 else EntrySize(es[0]) + BodySize(es[1..])
  }
}
