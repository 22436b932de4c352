/** `parseNode`: the top-down walk that turns parsed markup into an
    instruction tree. `CompileNode` is the reference definition; the method
    `ParseNode` follows the source's loop with an explicit stack of open
    accumulators and is proved equal to it. */
module Compiler {
  import opened Values
  import opened Program
  import opened Dsl

  /** `tagName.match(/.+@.+/)`: an `@` with a `.`-character on each side. */
  predicate IsLoopTag(tag: string) {
    exists i :: 1 <= i < |tag| - 1 && tag[i] == '@' && !IsLineTerminator(tag[i - 1]) && !IsLineTerminator(tag[i + 1])
  }

  /** `getAppendLivableString`: a node value starting with `#` names the
      live binding of the appended node. */
  function LiveId(value: string): (r: Option<string>)
    ensures r.Some? <==> StartsWith(value, "#")
    ensures r.Some? ==> "#" + r.value == value
  {
    if StartsWith(value, "#") then Some(value[1..]) else None
  }

  function Lines(b: Result<Entry, CompileError>): Result<Parsed, CompileError> {
    match b
    case Err(e) => Err(e)
    case Ok(block) => Ok(PLines(block))
  }

  /** The ordered chain of prefix tests that classifies a processing
      instruction. */
  function ClassifyPI(tag: string, value: string): (r: Result<Parsed, CompileError>)
    ensures r.Ok? && r.value.PLines? ==> r.value.block.Attr? || r.value.block.Css?
    ensures StartsWith(tag, "?") ==> r == Ok(POpen(IfSub, tag[1..]))
    ensures (r.Ok? && r.value.POpen?) <==> StartsWith(tag, "?") || IsLoopTag(tag)
    ensures r == Ok(PClose) <==> tag == "/@" || tag == "/?"
    ensures (r.Ok? && r.value.PNode? && r.value.node.HtmlBind?) <==>
      StartsWith(tag, "==") && !StartsWith(tag, "?") && !IsLoopTag(tag) && !StartsWith(tag, "attr") && !StartsWith(tag, "css")
    ensures r == Ok(PNode(PassPI(tag, value))) <==>
      !StartsWith(tag, "?") && !IsLoopTag(tag) && tag != "/@" && tag != "/?" &&
      !StartsWith(tag, "attr") && !StartsWith(tag, "css") && !StartsWith(tag, "=")
  {
    if StartsWith(tag, "?") then
      assert tag[..1] == "?" && tag[0] == '?';
      assert "/@"[0] == '/' && "/?"[0] == '/';
      Ok(POpen(IfSub, tag[1..]))
    else if IsLoopTag(tag) then
      assert tag != "/@" && tag != "/?";
      Ok(POpen(LoopSub, tag))
    else if tag == "/@" || tag == "/?" then Ok(PClose)
    else if StartsWith(tag, "attr") then Lines(AttrBlock(Split(value, Whitespace)))
    else if StartsWith(tag, "css") then Lines(CssBlock(Split(value, Whitespace)))
    else if StartsWith(tag, "==") then Ok(PNode(HtmlBind(tag[2..], LiveId(value))))
    else if StartsWith(tag, "=") then Ok(PNode(TextBind(tag[1..], LiveId(value))))
    else Ok(PNode(PassPI(tag, value)))
  }

  // ---------------------------------------------------------------------
  // The accumulator stack.

  /** An accumulator: the element's own instruction list, or an open
      `SubRoutine` of a kind with its spec and collected children. */
  datatype Frame =
    | Base(entries: seq<Entry>)
    | Open(kind: SubKind, spec: string, entries: seq<Entry>)

  /** `stack + [element]`: the element's list at the bottom, open blocks
      above it, the active accumulator last. */
  predicate ValidFrames(fs: seq<Frame>) {
    |fs| >= 1 && fs[0].Base? && forall i :: 1 <= i < |fs| ==> fs[i].Open?
  }

  function Push(f: Frame, e: Entry): (r: Frame)
    ensures r.Base? == f.Base? && r.entries == f.entries + [e]
    ensures r.Open? ==> r.kind == f.kind && r.spec == f.spec
  {
    f.(entries := f.entries + [e])
  }

  /** `SubRoutine.pop`: the finished block as one entry. */
  function CloseBlock(f: Frame): (r: Entry)
    requires f.Open?
    ensures f.kind == LoopSub ==> r == Loop(f.spec, f.entries)
    ensures f.kind == IfSub ==> r == If(f.spec, f.entries)
  {
    match f.kind
    case LoopSub => Loop(f.spec, f.entries)
    case IfSub => If(f.spec, f.entries)
  }

  function BlockKindOf(block: Entry): BlockKind {
    if block.Css? then CssLines else AttrLines
  }

  /** What an open `SubRoutine` keeps of a block: its `push` takes only the
      first of the spread lines. The element's own list keeps all of them. */
  function Keep(top: Frame, block: Entry): Entry {
    if top.Base? then block else Head(BlockKindOf(block))
  }

  /** One child's effect on the stack. */
  function Step(fs: seq<Frame>, p: Parsed): (r: Result<seq<Frame>, CompileError>)
    requires ValidFrames(fs)
    ensures r.Ok? ==> ValidFrames(r.value)
    ensures r.Err? <==> p.PClose? && |fs| == 1
    ensures r.Err? ==> r.error == StackUnderflow
    ensures r.Ok? && p.POpen? ==> r.value == fs + [Open(p.kind, p.spec, [])]
    ensures r.Ok? && p.PClose? ==> |r.value| == |fs| - 1
    ensures !p.POpen? && !p.PClose? ==> r.Ok? && |r.value| == |fs|
  {
    var top := fs[|fs| - 1];
    match p
    case POpen(k, sp) => Ok(fs + [Open(k, sp, [])])
    case PClose =>
      if |fs| == 1 then Err(StackUnderflow)
      else Ok(fs[..|fs| - 2] + [Push(fs[|fs| - 2], CloseBlock(top))])
    case PLines(block) => Ok(fs[..|fs| - 1] + [Push(top, Keep(top, block))])
    case PNode(n) => Ok(fs[..|fs| - 1] + [Push(top, Append(n))])
  }

  /** The children, compiled in order; the first failure aborts. */
  function Run(fs: seq<Frame>, toks: seq<Result<Parsed, CompileError>>): (r: Result<seq<Frame>, CompileError>)
    requires ValidFrames(fs)
    ensures r.Ok? ==> ValidFrames(r.value)
    decreases |toks|
  {
    if toks == [] then Ok(fs)
    else match toks[0]
      case Err(e) => Err(e)
      case Ok(p) =>
        match Step(fs, p)
        case Err(e) => Err(e)
        case Ok(fs') => Run(fs', toks[1..])
  }

  /** The element's instructions, once every child is in; a block still
      open here has no `join` and aborts. */
  function Finish(tag: string, attrs: seq<(string, string)>, r: Result<seq<Frame>, CompileError>): Result<Parsed, CompileError>
    requires r.Ok? ==> ValidFrames(r.value)
  {
    match r
    case Err(e) => Err(e)
    case Ok(fs) => if |fs| != 1 then Err(UnclosedBlock) else Ok(PNode(ElementNode(tag, attrs, fs[0].entries)))
  }

  /** The reference definition of `parseNode`. */
  function CompileNode(n: TNode): Result<Parsed, CompileError>
    decreases n
  {
    match n
    case Document(cs) => if |cs| != 1 then Err(NotOneChild) else CompileNode(cs[0])
    case Fragment(cs) => if |cs| != 1 then Err(NotOneChild) else CompileNode(cs[0])
    case PI(tag, value) => ClassifyPI(tag, value)
    case Text(t) => Ok(PNode(TextLit(t)))
    case Comment(t) => Ok(PNode(CommentLit(t)))
    case Element(tag, attrs, cs) =>
      Finish(tag, attrs, Run([Base([])], seq(|cs|, i requires 0 <= i < |cs| => CompileNode(cs[i]))))
  }

  function CompileAll(cs: seq<TNode>): (r: seq<Result<Parsed, CompileError>>)
    ensures |r| == |cs| && forall i :: 0 <= i < |cs| ==> r[i] == CompileNode(cs[i])
  {
    seq(|cs|, i requires 0 <= i < |cs| => CompileNode(cs[i]))
  }

  lemma CompileElement(tag: string, attrs: seq<(string, string)>, cs: seq<TNode>)
    ensures CompileNode(Element(tag, attrs, cs)) == Finish(tag, attrs, Run([Base([])], CompileAll(cs)))
  {
    assert CompileAll(cs) == seq(|cs|, i requires 0 <= i < |cs| => CompileNode(cs[i]));
  }

  lemma CompileAllConcat(a: seq<TNode>, b: seq<TNode>)
    ensures CompileAll(a + b) == CompileAll(a) + CompileAll(b)
  {
    MapConcat(CompileNode, a, b, CompileAll(a + b), CompileAll(a), CompileAll(b));
  }


  // ---------------------------------------------------------------------
  // The imperative walk.

  /** `parseNode` as the source writes it: the element branch keeps the
      active accumulator in `element` and the suspended ones in `stack`. */
  method ParseNode(n: TNode) returns (r: Result<Parsed, CompileError>)
    ensures r == CompileNode(n)
    decreases n, 1
  {
    match n {
      case Document(cs) =>
        if |cs| != 1 {
          return Err(NotOneChild);
        }
        r := ParseNode(cs[0]);
      case Fragment(cs) =>
        if |cs| != 1 {
          return Err(NotOneChild);
        }
        r := ParseNode(cs[0]);
      case PI(tag, value) =>
        r := ParsePI(tag, value);
      case Text(t) =>
        r := Ok(PNode(TextLit(t)));
      case Comment(t) =>
        r := Ok(PNode(CommentLit(t)));
      case Element(tag, attrs, cs) =>
        r := ParseElement(tag, attrs, cs);
    }
  }

  /** The element case of `parseNode`: `element` is the active accumulator
      and `stack` holds the ones below it. */
  method ParseElement(tag: string, attrs: seq<(string, string)>, cs: seq<TNode>) returns (r: Result<Parsed, CompileError>)
    ensures r == CompileNode(Element(tag, attrs, cs))
    decreases Element(tag, attrs, cs), 0
  {
    CompileElement(tag, attrs, cs);
    var element := Base([]);
    var stack: seq<Frame> := [];
    var i := 0;
    assert cs[0..] == cs;
    assert stack + [element] == [Base([])];
    while i < |cs|
      invariant 0 <= i <= |cs|
      invariant ValidFrames(stack + [element])
      invariant Run(stack + [element], CompileAll(cs[i..])) == Run([Base([])], CompileAll(cs))
    {
      ChildSplit(cs, i);
      var parsed := ParseNode(cs[i]);
      if parsed.Err? {
        RunHeadErr(stack + [element], parsed.error, CompileAll(cs[i + 1..]));
        return Err(parsed.error);
      }
      var next := PushChild(stack, element, parsed.value);
      if next.Err? {
        RunStepErr(stack + [element], parsed.value, CompileAll(cs[i + 1..]));
        return Err(next.error);
      }
      RunStep(stack + [element], parsed.value, CompileAll(cs[i + 1..]), next.value.0 + [next.value.1]);
      stack, element := next.value.0, next.value.1;
      i := i + 1;
    }
    assert cs[i..] == [];
    if stack != [] {
      return Err(UnclosedBlock);
    }
    r := Ok(PNode(ElementNode(tag, attrs, element.entries)));
  }

  /** One child's effect on `element` and `stack`. */
  method PushChild(stack: seq<Frame>, element: Frame, parsed: Parsed) returns (r: Result<(seq<Frame>, Frame), CompileError>)
    requires ValidFrames(stack + [element])
    ensures r.Err? <==> Step(stack + [element], parsed).Err?
    ensures r.Err? ==> r.error == StackUnderflow
    ensures r.Ok? ==> Step(stack + [element], parsed) == Ok(r.value.0 + [r.value.1])
  {
    match parsed {
      case POpen(k, sp) =>
        r := Ok((stack + [element], Open(k, sp, [])));
      case PClose =>
        if stack == [] {
          return Err(StackUnderflow);
        }
        SnocAt(stack, element, |stack|);
        StepCloseOnto(stack, element);
        r := Ok((stack[..|stack| - 1], Push(stack[|stack| - 1], CloseBlock(element))));
      case PLines(block) =>
        StepTopOnto(stack, element, parsed);
        r := Ok((stack, Push(element, Keep(element, block))));
      case PNode(nd) =>
        StepTopOnto(stack, element, parsed);
        r := Ok((stack, Push(element, Append(nd))));
    }
  }

  /** Closing a block folds the top frame into the one below it. */
  lemma StepCloseOnto(stack: seq<Frame>, element: Frame)
    requires ValidFrames(stack + [element]) && stack != [] && element.Open?
    ensures Step(stack + [element], PClose)
         == Ok(stack[..|stack| - 1] + [Push(stack[|stack| - 1], CloseBlock(element))])
  {
    SnocAt(stack, element, |stack| - 1);
    SnocAt(stack, element, |stack|);
  }

  /** Lines and nodes land in the top frame and leave the rest alone. */
  lemma StepTopOnto(stack: seq<Frame>, element: Frame, parsed: Parsed)
    requires ValidFrames(stack + [element]) && (parsed.PLines? || parsed.PNode?)
    ensures parsed.PLines? ==> Step(stack + [element], parsed) == Ok(stack + [Push(element, Keep(element, parsed.block))])
    ensures parsed.PNode? ==> Step(stack + [element], parsed) == Ok(stack + [Push(element, Append(parsed.node))])
  {
    SnocAt(stack, element, |stack|);
  }

  /** The processing-instruction case of `parseNode`. */
  method ParsePI(tag: string, value: string) returns (r: Result<Parsed, CompileError>)
    ensures r == ClassifyPI(tag, value)
  {
    if StartsWith(tag, "?") {
      r := Ok(POpen(IfSub, tag[1..]));
    } else if IsLoopTag(tag) {
      r := Ok(POpen(LoopSub, tag));
    } else if tag == "/@" || tag == "/?" {
      r := Ok(PClose);
    } else if StartsWith(tag, "attr") {
      var block := GetAttributeInstructions(Split(value, Whitespace));
      r := Lines(block);
    } else if StartsWith(tag, "css") {
      var block := GetCssInstructions(Split(value, Whitespace));
      r := Lines(block);
    } else if StartsWith(tag, "==") {
      r := Ok(PNode(HtmlBind(tag[2..], LiveId(value))));
    } else if StartsWith(tag, "=") {
      r := Ok(PNode(TextBind(tag[1..], LiveId(value))));
    } else {
      r := Ok(PNode(PassPI(tag, value)));
    }
  }

  // ---------------------------------------------------------------------
  // Document rule.

  /** A document or fragment compiles only with exactly one child, and then
      as that child. */
  lemma DocumentRule(cs: seq<TNode>)
    ensures |cs| != 1 ==> CompileNode(Document(cs)) == Err(NotOneChild) && CompileNode(Fragment(cs)) == Err(NotOneChild)
    ensures |cs| == 1 ==> CompileNode(Document(cs)) == CompileNode(Fragment(cs)) == CompileNode(cs[0])
  {
  }

  // ---------------------------------------------------------------------
  // Open and close markers balance.

  /** How a compiled child moves the nesting depth. */
  function Delta(t: Result<Parsed, CompileError>): int {
    if t.Ok? && t.value.POpen? then 1
    else if t.Ok? && t.value.PClose? then -1
    else 0
  }

  /** No prefix of `toks` closes more blocks than are open. */
  predicate NeverUnderflows(depth: int, toks: seq<Result<Parsed, CompileError>>)
    decreases |toks|
  {
    toks == [] || (depth + Delta(toks[0]) >= 0 && NeverUnderflows(depth + Delta(toks[0]), toks[1..]))
  }

  function FinalDepth(depth: int, toks: seq<Result<Parsed, CompileError>>): int
    decreases |toks|
  {
    if toks == [] then depth else FinalDepth(depth + Delta(toks[0]), toks[1..])
  }

  predicate AllOk(toks: seq<Result<Parsed, CompileError>>) {
    forall i :: 0 <= i < |toks| ==> toks[i].Ok?
  }

  /** For children that all compile, the stack machine succeeds exactly
      when no close marker finds the stack empty, fails with a stack
      underflow otherwise, and ends as deep as the markers say. */
  lemma {:induction false} RunBalance(fs: seq<Frame>, toks: seq<Result<Parsed, CompileError>>)
    requires ValidFrames(fs) && AllOk(toks)
    ensures Run(fs, toks).Ok? <==> NeverUnderflows(|fs| - 1, toks)
    ensures Run(fs, toks).Err? ==> Run(fs, toks).error == StackUnderflow
    ensures Run(fs, toks).Ok? ==> |Run(fs, toks).value| - 1 == FinalDepth(|fs| - 1, toks)
    decreases |toks|
  {
    if toks != [] {
      assert toks[0].Ok?;
      assert AllOk(toks[1..]) by {
        forall i | 0 <= i < |toks[1..]| ensures toks[1..][i].Ok? {
          assert toks[1..][i] == toks[i + 1];
        }
      }
      var s := Step(fs, toks[0].value);
      if s.Ok? {
        assert |s.value| - 1 == |fs| - 1 + Delta(toks[0]);
        RunBalance(s.value, toks[1..]);
      }
    }
  }

  /** An element whose children all compile: it compiles when its markers
      balance, fails with a stack underflow when a close marker comes with
      no block open, and fails as unclosed when a block is left open. */
  lemma ElementBalance(tag: string, attrs: seq<(string, string)>, cs: seq<TNode>)
    requires AllOk(CompileAll(cs))
    ensures var toks := CompileAll(cs);
      && (CompileNode(Element(tag, attrs, cs)).Ok? <==> NeverUnderflows(0, toks) && FinalDepth(0, toks) == 0)
      && (CompileNode(Element(tag, attrs, cs)) == Err(StackUnderflow) <==> !NeverUnderflows(0, toks))
      && (CompileNode(Element(tag, attrs, cs)) == Err(UnclosedBlock) <==> NeverUnderflows(0, toks) && FinalDepth(0, toks) != 0)
  {
    CompileElement(tag, attrs, cs);
    RunBalance([Base([])], CompileAll(cs));
  }

  // ---------------------------------------------------------------------
  // Writing a program as markup and compiling it back.

  predicate NoWhitespace(s: string) {
    forall i :: 0 <= i < |s| ==> !IsJsWhitespace(s[i])
  }

  /** A tag none of the instruction tests claims. */
  predicate PlainTag(tag: string) {
    && !StartsWith(tag, "?") && !IsLoopTag(tag) && tag != "/@" && tag != "/?"
    && !StartsWith(tag, "attr") && !StartsWith(tag, "css") && !StartsWith(tag, "=")
  }

  predicate AttrTokenOk(e: AttrExpr) {
    WellFormedAttr(e) && NoWhitespace(AttrToken(e))
  }

  predicate CssTokenOk(e: CssExpr) {
    WellFormedCss(e) && NoWhitespace(CssToken(e))
  }

  /** Programs some markup compiles to. `inBlock`: inside a loop or an if,
      where an `attr`/`css` instruction leaves only a `Head`. */
  predicate WfNode(n: NodeExpr)
    decreases NodeSize(n), 0
  {
    match n
    case TextBind(path, _) => !StartsWith(path, "=") && !IsLoopTag("=" + path)
    case HtmlBind(path, _) => !IsLoopTag("==" + path)
    case PassPI(tag, _) => PlainTag(tag)
    case ElementNode(_, _, body) => WfBody(body, false)
    case _ => true
  }

  predicate WfEntry(e: Entry, inBlock: bool)
    decreases EntrySize(e), 0
  {
    match e
    case Append(n) => WfNode(n)
    case Attr(exprs, liveId) =>
      !inBlock && NoWhitespace(liveId) && forall i :: 0 <= i < |exprs| ==> AttrTokenOk(exprs[i])
    case Css(classes) =>
      !inBlock && |classes| >= 1 && forall i :: 0 <= i < |classes| ==> CssTokenOk(classes[i])
    case Loop(spec, body) => IsLoopTag(spec) && !StartsWith(spec, "?") && WfBody(body, true)
    case If(_, body) => WfBody(body, true)
    case Head(_) => inBlock
  }

  predicate WfBody(es: seq<Entry>, inBlock: bool)
    decreases BodySize(es), 1
  {
    es == [] || (WfEntry(es[0], inBlock) && WfBody(es[1..], inBlock))
  }

  function LiveMarker(id: Option<string>): string {
    if id.Some? then "#" + id.value else ""
  }

  function AttrTokens(exprs: seq<AttrExpr>): (r: seq<string>)
    ensures |r| == |exprs| && forall i :: 0 <= i < |exprs| ==> r[i] == AttrToken(exprs[i])
  {
    seq(|exprs|, i requires 0 <= i < |exprs| => AttrToken(exprs[i]))
  }

  function CssTokens(classes: seq<CssExpr>): (r: seq<string>)
    ensures |r| == |classes| && forall i :: 0 <= i < |classes| ==> r[i] == CssToken(classes[i])
  {
    seq(|classes|, i requires 0 <= i < |classes| => CssToken(classes[i]))
  }

  /** The markup an author writes for a node expression. */
  function NodeMarkup(n: NodeExpr): TNode
    decreases NodeSize(n), 0
  {
    match n
    case TextLit(t) => Text(t)
    case CommentLit(t) => Comment(t)
    case ElementNode(tag, attrs, body) => Element(tag, attrs, BodyMarkup(body))
    case PassPI(tag, value) => PI(tag, value)
    case TextBind(path, liveId) => PI("=" + path, LiveMarker(liveId))
    case HtmlBind(path, liveId) => PI("==" + path, LiveMarker(liveId))
  }

  /** The markup for one entry: a loop or an if between its opening
      instruction and a close marker; an `attr` list always ends in its
      `#id` token (`#` alone for none). */
  function EntryMarkup(e: Entry): seq<TNode>
    decreases EntrySize(e), 0
  {
    match e
    case Append(n) => [NodeMarkup(n)]
    case Attr(exprs, liveId) => [PI("attr", Join(AttrTokens(exprs) + ["#" + liveId], ' '))]
    case Css(classes) => [PI("css", Join(CssTokens(classes), ' '))]
    case Loop(spec, body) => [PI(spec, "")] + BodyMarkup(body) + [PI("/@", "")]
    case If(cond, body) => [PI("?" + cond, "")] + BodyMarkup(body) + [PI("/?", "")]
    case Head(AttrLines) => [PI("attr", "#")]
    case Head(CssLines) => [PI("css", "c")]
  }

  function BodyMarkup(es: seq<Entry>): seq<TNode>
    decreases BodySize(es), 1
  {
    if es == [] then [] else EntryMarkup(es[0]) + BodyMarkup(es[1..])
  }

  /** The top accumulator after `es` were appended to it. */
  function AddAll(fs: seq<Frame>, es: seq<Entry>): (r: seq<Frame>)
    requires ValidFrames(fs)
    ensures ValidFrames(r) && |r| == |fs|
  {
    fs[..|fs| - 1] + [fs[|fs| - 1].(entries := fs[|fs| - 1].entries + es)]
  }

  lemma WhitespaceFree(parts: seq<string>)
    requires forall i :: 0 <= i < |parts| ==> NoWhitespace(parts[i])
    ensures forall i, j :: 0 <= i < |parts| && 0 <= j < |parts[i]| ==> !IsSep(Whitespace, parts[i][j])
  {
    forall i, j | 0 <= i < |parts| && 0 <= j < |parts[i]| ensures !IsSep(Whitespace, parts[i][j]) {
      assert NoWhitespace(parts[i]);
    }
  }

  lemma {:induction false} AttrTokensRoundTrip(exprs: seq<AttrExpr>)
    requires forall i :: 0 <= i < |exprs| ==> WellFormedAttr(exprs[i])
    ensures ParseAttrTokens(AttrTokens(exprs)) == Ok(exprs)
  {
    forall i | 0 <= i < |exprs| ensures ParseAttrValue(AttrTokens(exprs)[i]) == Some(exprs[i]) {
      AttrTokenRoundTrip(exprs[i]);
    }
    var r := ParseAttrTokens(AttrTokens(exprs));
    assert r.Ok?;
    assert r.value == exprs;
  }

  lemma {:induction false} CssTokensRoundTrip(classes: seq<CssExpr>)
    requires forall i :: 0 <= i < |classes| ==> WellFormedCss(classes[i])
    ensures ParseCssTokens(CssTokens(classes)) == Ok(classes)
  {
    forall i | 0 <= i < |classes| ensures ParseCssValue(CssTokens(classes)[i]) == Some(classes[i]) {
      CssTokenRoundTrip(classes[i]);
    }
    var r := ParseCssTokens(CssTokens(classes));
    assert r.Ok?;
    assert r.value == classes;
  }

  lemma NotPrefix(s: string, p: string)
    requires |s| >= 1 && |p| >= 1 && s[0] != p[0]
    ensures !StartsWith(s, p)
  {
  }

  lemma ClassifyAttr(value: string)
    ensures ClassifyPI("attr", value) == Lines(AttrBlock(Split(value, Whitespace)))
  {
    assert "attr"[1] != '@' && "attr"[2] != '@';
    assert !IsLoopTag("attr");
    NotPrefix("attr", "?");
    assert StartsWith("attr", "attr");
  }

  lemma ClassifyCss(value: string)
    ensures ClassifyPI("css", value) == Lines(CssBlock(Split(value, Whitespace)))
  {
    assert "css"[1] != '@';
    assert !IsLoopTag("css");
    NotPrefix("css", "?");
    NotPrefix("css", "attr");
    assert StartsWith("css", "css");
  }

  /** An `attr` instruction written from its tokens compiles to them. */
  lemma AttrMarkupCompiles(exprs: seq<AttrExpr>, liveId: string)
    requires NoWhitespace(liveId) && forall i :: 0 <= i < |exprs| ==> AttrTokenOk(exprs[i])
    ensures ClassifyPI("attr", Join(AttrTokens(exprs) + ["#" + liveId], ' ')) == Ok(PLines(Attr(exprs, liveId)))
  {
    var parts := AttrTokens(exprs) + ["#" + liveId];
    assert forall i :: 0 <= i < |parts| ==> NoWhitespace(parts[i]) by {
      forall i | 0 <= i < |parts| ensures NoWhitespace(parts[i]) {
        if i < |exprs| {
          assert AttrTokenOk(exprs[i]);
        } else {
          assert parts[i] == "#" + liveId;
        }
      }
    }
    WhitespaceFree(parts);
    JoinSplit(parts, ' ', Whitespace);
    ClassifyAttr(Join(parts, ' '));
    assert parts[..|parts| - 1] == AttrTokens(exprs);
    assert StartsWith(parts[|parts| - 1], "#");
    assert parts[|parts| - 1][1..] == liveId;
    assert SplitLiveId(parts) == (AttrTokens(exprs), liveId);
    assert forall i :: 0 <= i < |exprs| ==> WellFormedAttr(exprs[i]) by {
      forall i | 0 <= i < |exprs| ensures WellFormedAttr(exprs[i]) {
        assert AttrTokenOk(exprs[i]);
      }
    }
    AttrTokensRoundTrip(exprs);
  }

  /** A `css` instruction written from its tokens compiles to them. */
  lemma CssMarkupCompiles(classes: seq<CssExpr>)
    requires |classes| >= 1 && forall i :: 0 <= i < |classes| ==> CssTokenOk(classes[i])
    ensures ClassifyPI("css", Join(CssTokens(classes), ' ')) == Ok(PLines(Css(classes)))
  {
    var parts := CssTokens(classes);
    assert forall i :: 0 <= i < |parts| ==> NoWhitespace(parts[i]) by {
      forall i | 0 <= i < |parts| ensures NoWhitespace(parts[i]) {
        assert CssTokenOk(classes[i]);
      }
    }
    WhitespaceFree(parts);
    JoinSplit(parts, ' ', Whitespace);
    assert forall i :: 0 <= i < |classes| ==> WellFormedCss(classes[i]) by {
      forall i | 0 <= i < |classes| ensures WellFormedCss(classes[i]) {
        assert CssTokenOk(classes[i]);
      }
    }
    CssTokensRoundTrip(classes);
    ClassifyCss(Join(parts, ' '));
  }

  lemma RunCons(fs: seq<Frame>, t: Result<Parsed, CompileError>, rest: seq<Result<Parsed, CompileError>>)
    requires ValidFrames(fs) && t.Ok? && Step(fs, t.value).Ok?
    ensures Run(fs, [t] + rest) == Run(Step(fs, t.value).value, rest)
  {
    assert ([t] + rest)[1..] == rest;
  }

  lemma ChildSplit(cs: seq<TNode>, i: nat)
    requires i < |cs|
    ensures CompileAll(cs[i..]) == [CompileNode(cs[i])] + CompileAll(cs[i + 1..])
  {
    assert cs[i..] == [cs[i]] + cs[i + 1..];
    CompileAllConcat([cs[i]], cs[i + 1..]);
    assert CompileAll([cs[i]]) == [CompileNode(cs[i])];
  }

  /** A child that does not compile aborts the walk with its error. */
  lemma RunHeadErr(fs: seq<Frame>, e: CompileError, rest: seq<Result<Parsed, CompileError>>)
    requires ValidFrames(fs)
    ensures Run(fs, [Err(e)] + rest) == Err(e)
  {
  }

  /** A step that fails aborts the walk with the step's error. */
  lemma RunStepErr(fs: seq<Frame>, p: Parsed, rest: seq<Result<Parsed, CompileError>>)
    requires ValidFrames(fs) && Step(fs, p).Err?
    ensures Run(fs, [Ok(p)] + rest) == Err(Step(fs, p).error)
  {
  }

  lemma RunStep(fs: seq<Frame>, p: Parsed, rest: seq<Result<Parsed, CompileError>>, fs': seq<Frame>)
    requires ValidFrames(fs) && Step(fs, p) == Ok(fs')
    ensures Run(fs, [Ok(p)] + rest) == Run(fs', rest)
  {
    RunCons(fs, Ok(p), rest);
  }

  /** Compiling a well-formed node expression's markup gives it back. */
  lemma {:induction false} NodeRoundTrip(n: NodeExpr)
    requires WfNode(n)
    ensures CompileNode(NodeMarkup(n)) == Ok(PNode(n))
    decreases NodeSize(n), 0
  {
    match n
    case TextLit(_) =>
    case CommentLit(_) =>
    case PassPI(_, _) =>
    case TextBind(path, liveId) =>
      var tag := "=" + path;
      assert tag[1..] == path;
      assert !StartsWith(tag, "==");
      NotPrefix(tag, "attr");
      NotPrefix(tag, "css");
      NotPrefix(tag, "?");
      assert LiveId(LiveMarker(liveId)) == liveId;
    case HtmlBind(path, liveId) =>
      var tag := "==" + path;
      assert tag[2..] == path;
      NotPrefix(tag, "attr");
      NotPrefix(tag, "css");
      NotPrefix(tag, "?");
      assert StartsWith(tag, "==");
      assert LiveId(LiveMarker(liveId)) == liveId;
    case ElementNode(tag, attrs, body) =>
      CompileElement(tag, attrs, BodyMarkup(body));
      BodyRuns([Base([])], body, []);
      assert CompileAll(BodyMarkup(body)) + [] == CompileAll(BodyMarkup(body));
      assert [] + body == body;
      assert AddAll([Base([])], body) == [Base(body)];
  }

  /** Compiling the markup of a well-formed list of entries appends exactly
      those entries to the active accumulator, in order. */
  lemma {:induction false} BodyRuns(fs: seq<Frame>, es: seq<Entry>, rest: seq<Result<Parsed, CompileError>>)
    requires ValidFrames(fs) && WfBody(es, |fs| > 1)
    ensures Run(fs, CompileAll(BodyMarkup(es)) + rest) == Run(AddAll(fs, es), rest)
    decreases BodySize(es), 2
  {
    if es == [] {
      AddAllNone(fs);
      assert CompileAll(BodyMarkup(es)) == [];
      AppendEmpty(rest);
    } else {
      var e, t := es[0], es[1..];
      var fs1 := AddAll(fs, [e]);
      assert WfEntry(e, |fs| > 1) && WfBody(t, |fs1| > 1);
      BodyMarkupCons(es, rest);
      EntryRuns(fs, e, CompileAll(BodyMarkup(t)) + rest);
      BodyRuns(fs1, t, rest);
      AddAllConcat(fs, [e], t);
      ConsTail(es);
    }
  }

  /** The compiled markup of a list of entries is that of its first entry
      followed by that of the rest. */
  lemma BodyMarkupCons(es: seq<Entry>, rest: seq<Result<Parsed, CompileError>>)
    requires es != []
    ensures CompileAll(BodyMarkup(es)) + rest
         == CompileAll(EntryMarkup(es[0])) + (CompileAll(BodyMarkup(es[1..])) + rest)
  {
    var m0 := EntryMarkup(es[0]);
    var m1 := BodyMarkup(es[1..]);
    assert BodyMarkup(es) == m0 + m1;
    CompileAllConcat(m0, m1);
    AppendAssoc(CompileAll(m0), CompileAll(m1), rest);
  }

  lemma AddAllNone(fs: seq<Frame>)
    requires ValidFrames(fs)
    ensures AddAll(fs, []) == fs
  {
    var top := fs[|fs| - 1];
    assert top.entries + [] == top.entries;
    InitLast(fs);
  }

  lemma AddAllConcat(fs: seq<Frame>, a: seq<Entry>, b: seq<Entry>)
    requires ValidFrames(fs)
    ensures AddAll(AddAll(fs, a), b) == AddAll(fs, a + b)
  {
    var n := |fs|;
    var fs' := AddAll(fs, a);
    assert fs'[..n - 1] == fs[..n - 1];
    assert (fs[n - 1].entries + a) + b == fs[n - 1].entries + (a + b);
  }

  lemma {:induction false} EntryRuns(fs: seq<Frame>, e: Entry, rest: seq<Result<Parsed, CompileError>>)
    requires ValidFrames(fs) && WfEntry(e, |fs| > 1)
    ensures Run(fs, CompileAll(EntryMarkup(e)) + rest) == Run(AddAll(fs, [e]), rest)
    decreases EntrySize(e), 1
  {
    match e
    case Append(n) =>
      NodeRoundTrip(n);
      SingleRuns(fs, NodeMarkup(n), PNode(n), Append(n), rest);
    case Attr(exprs, liveId) =>
      AttrEntryRuns(fs, exprs, liveId, rest);
    case Css(classes) =>
      CssEntryRuns(fs, classes, rest);
    case Head(kind) =>
      HeadRuns(fs, kind, rest);
    case Loop(spec, body) =>
      LoopMarkers(spec);
      BlockRuns(fs, LoopSub, spec, PI(spec, ""), body, PI("/@", ""), rest);
    case If(cond, body) =>
      IfMarkers(cond);
      BlockRuns(fs, IfSub, cond, PI("?" + cond, ""), body, PI("/?", ""), rest);
  }

  lemma AttrEntryRuns(fs: seq<Frame>, exprs: seq<AttrExpr>, liveId: string, rest: seq<Result<Parsed, CompileError>>)
    requires ValidFrames(fs) && WfEntry(Attr(exprs, liveId), |fs| > 1)
    ensures Run(fs, CompileAll(EntryMarkup(Attr(exprs, liveId))) + rest) == Run(AddAll(fs, [Attr(exprs, liveId)]), rest)
  {
    var e := Attr(exprs, liveId);
    var t := PI("attr", Join(AttrTokens(exprs) + ["#" + liveId], ' '));
    assert EntryMarkup(e) == [t] && |fs| == 1;
    AttrMarkupCompiles(exprs, liveId);
    assert CompileNode(t) == ClassifyPI(t.tag, t.value);
    LinesRuns(fs, t, e, rest);
  }

  lemma CssEntryRuns(fs: seq<Frame>, classes: seq<CssExpr>, rest: seq<Result<Parsed, CompileError>>)
    requires ValidFrames(fs) && WfEntry(Css(classes), |fs| > 1)
    ensures Run(fs, CompileAll(EntryMarkup(Css(classes))) + rest) == Run(AddAll(fs, [Css(classes)]), rest)
  {
    var e := Css(classes);
    var t := PI("css", Join(CssTokens(classes), ' '));
    assert EntryMarkup(e) == [t] && |fs| == 1;
    CssMarkupCompiles(classes);
    assert CompileNode(t) == ClassifyPI(t.tag, t.value);
    LinesRuns(fs, t, e, rest);
  }

  /** Outside any block, an instruction list's child appends the whole list. */
  lemma LinesRuns(fs: seq<Frame>, t: TNode, block: Entry, rest: seq<Result<Parsed, CompileError>>)
    requires ValidFrames(fs) && |fs| == 1 && CompileNode(t) == Ok(PLines(block))
    ensures Run(fs, CompileAll([t]) + rest) == Run(AddAll(fs, [block]), rest)
  {
    assert CompileAll([t]) + rest == [Ok(PLines(block))] + rest;
    assert Keep(fs[0], block) == block;
    assert Step(fs, PLines(block)) == Ok(AddAll(fs, [block]));
    RunStep(fs, PLines(block), rest, AddAll(fs, [block]));
  }

  lemma LoopMarkers(spec: string)
    requires IsLoopTag(spec) && !StartsWith(spec, "?")
    ensures CompileNode(PI(spec, "")) == Ok(POpen(LoopSub, spec))
    ensures CompileNode(PI("/@", "")) == Ok(PClose)
  {
    NotPrefix("/@", "?");
  }

  lemma IfMarkers(cond: string)
    ensures CompileNode(PI("?" + cond, "")) == Ok(POpen(IfSub, cond))
    ensures CompileNode(PI("/?", "")) == Ok(PClose)
  {
    var tag := "?" + cond;
    assert tag[1..] == cond;
    assert StartsWith(tag, "?");
    NotPrefix("/?", "?");
    assert !IsLoopTag("/?");
  }

  /** A child that compiles to a single entry appends it. */
  lemma SingleRuns(fs: seq<Frame>, t: TNode, p: Parsed, e: Entry, rest: seq<Result<Parsed, CompileError>>)
    requires ValidFrames(fs) && CompileNode(t) == Ok(p)
    requires (p.PNode? && e == Append(p.node)) || (p.PLines? && e == p.block && |fs| == 1)
    ensures Run(fs, CompileAll([t]) + rest) == Run(AddAll(fs, [e]), rest)
  {
    assert CompileAll([t]) + rest == [Ok(p)] + rest;
    RunCons(fs, Ok(p), rest);
  }

  /** The markup for a `Head` leaves one inside an open block. */
  lemma HeadRuns(fs: seq<Frame>, kind: BlockKind, rest: seq<Result<Parsed, CompileError>>)
    requires ValidFrames(fs) && |fs| > 1
    ensures Run(fs, CompileAll(EntryMarkup(Head(kind))) + rest) == Run(AddAll(fs, [Head(kind)]), rest)
  {
    if kind == AttrLines {
      AttrHeadCompiles();
      SingleRunsInBlock(fs, PI("attr", "#"), Attr([], ""), rest);
    } else {
      CssHeadCompiles();
      SingleRunsInBlock(fs, PI("css", "c"), Css([CssExpr(None, "c")]), rest);
    }
  }

  lemma AttrHeadCompiles()
    ensures CompileNode(PI("attr", "#")) == Ok(PLines(Attr([], "")))
  {
    assert !IsSep(Whitespace, "#"[0]);
    assert Split("#", Whitespace) == ["#"];
    ClassifyAttr("#");
    assert ParseAttrTokens([]) == Ok([]);
  }

  lemma CssHeadCompiles()
    ensures CompileNode(PI("css", "c")) == Ok(PLines(Css([CssExpr(None, "c")])))
  {
    var e := CssExpr(None, "c");
    assert CssToken(e) == "c";
    assert WellFormedCss(e);
    CssTokenRoundTrip(e);
    var toks := ["c"];
    assert ParseCssValue(toks[0]) == Some(e);
    var r := ParseCssTokens(toks);
    assert r.Ok? && |r.value| == 1 && r.value[0] == e;
    assert r.value == [e];
    assert !IsSep(Whitespace, "c"[0]);
    assert Split("c", Whitespace) == ["c"];
    assert CssBlock(toks) == Ok(Css([e]));
    ClassifyCss("c");
    assert ClassifyPI("css", "c") == Ok(PLines(Css([e])));
    assert CompileNode(PI("css", "c")) == ClassifyPI("css", "c");
  }

  /** Inside an open block, an `attr` or `css` child leaves its head. */
  lemma SingleRunsInBlock(fs: seq<Frame>, t: TNode, block: Entry, rest: seq<Result<Parsed, CompileError>>)
    requires ValidFrames(fs) && |fs| > 1 && CompileNode(t) == Ok(PLines(block))
    ensures Run(fs, CompileAll([t]) + rest) == Run(AddAll(fs, [Head(BlockKindOf(block))]), rest)
  {
    assert CompileAll([t]) + rest == [Ok(PLines(block))] + rest;
    var top := fs[|fs| - 1];
    assert top.Open? && Keep(top, block) == Head(BlockKindOf(block));
    assert Step(fs, PLines(block)) == Ok(AddAll(fs, [Head(BlockKindOf(block))]));
    RunStep(fs, PLines(block), rest, AddAll(fs, [Head(BlockKindOf(block))]));
  }

  /** A block's opening instruction, its body and its close marker append
      the finished block. */
  lemma {:induction false} BlockRuns(fs: seq<Frame>, k: SubKind, spec: string, open: TNode, body: seq<Entry>, close: TNode,
                                     rest: seq<Result<Parsed, CompileError>>)
    requires ValidFrames(fs) && WfBody(body, true)
    requires CompileNode(open) == Ok(POpen(k, spec)) && CompileNode(close) == Ok(PClose)
    ensures Run(fs, CompileAll([open] + BodyMarkup(body) + [close]) + rest)
         == Run(AddAll(fs, [CloseBlock(Open(k, spec, body))]), rest)
    decreases BodySize(body) + 1, 0
  {
    var inner := fs + [Open(k, spec, [])];
    var tail := [Ok(PClose)] + rest;
    BlockToks(open, body, close, rest);
    RunCons(fs, Ok(POpen(k, spec)), CompileAll(BodyMarkup(body)) + tail);
    BodyRuns(inner, body, tail);
    CloseRuns(fs, k, spec, body, rest);
  }

  lemma BlockToks(open: TNode, body: seq<Entry>, close: TNode, rest: seq<Result<Parsed, CompileError>>)
    ensures CompileAll([open] + BodyMarkup(body) + [close]) + rest
         == [CompileNode(open)] + (CompileAll(BodyMarkup(body)) + ([CompileNode(close)] + rest))
  {
    var m := BodyMarkup(body);
    CompileAllConcat([open] + m, [close]);
    CompileAllConcat([open], m);
    CompileAllSingle(open);
    CompileAllSingle(close);
    AppendAssoc4(CompileAll([open]), CompileAll(m), CompileAll([close]), rest);
  }

  lemma CompileAllSingle(n: TNode)
    ensures CompileAll([n]) == [CompileNode(n)]
  {
    assert [n][0] == n;
  }

  lemma CloseRuns(fs: seq<Frame>, k: SubKind, spec: string, body: seq<Entry>, rest: seq<Result<Parsed, CompileError>>)
    requires ValidFrames(fs)
    ensures Run(AddAll(fs + [Open(k, spec, [])], body), [Ok(PClose)] + rest)
         == Run(AddAll(fs, [CloseBlock(Open(k, spec, body))]), rest)
  {
    var inner := fs + [Open(k, spec, [])];
    var closed := AddAll(inner, body);
    assert inner[..|inner| - 1] == fs;
    assert [] + body == body;
    assert closed == fs + [Open(k, spec, body)];
    RunCons(closed, Ok(PClose), rest);
    assert closed[..|closed| - 2] == fs[..|fs| - 1];
  }

  /** The round trip for a whole element. */
  lemma ElementRoundTrip(tag: string, attrs: seq<(string, string)>, body: seq<Entry>)
    requires WfBody(body, false)
    ensures CompileNode(Element(tag, attrs, BodyMarkup(body))) == Ok(PNode(ElementNode(tag, attrs, body)))
  {
    NodeRoundTrip(ElementNode(tag, attrs, body));
  }
}
