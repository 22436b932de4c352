/** The `attr` and `css` instruction grammar: the regular expressions
    `/((.+)\?)?([^=.]+)(=(.+))?/` and `/((.+)\?)?([^=.]+)/` with JavaScript's
    leftmost, greedy, backtracking match, and the two instruction builders. */
module Dsl {
  import opened Values
  import opened Program

  /** Characters `.` does not match. */
  predicate IsLineTerminator(c: char) {
    c == '\n' || c == '\r' || c == '\U{2028}' || c == '\U{2029}'
  }

  /** Characters `[^=.]` matches. */
  predicate NameChar(c: char) {
    c != '=' && c != '.'
  }

  /** End of the longest run of `.`-characters starting at `p`. */
  function RunEnd(s: string, p: nat): (r: nat)
    requires p <= |s|
    decreases |s| - p
    ensures p <= r <= |s|
    ensures forall k :: p <= k < r ==> !IsLineTerminator(s[k])
    ensures r < |s| ==> IsLineTerminator(s[r])
  {
    if p == |s| || IsLineTerminator(s[p]) then p else RunEnd(s, p + 1)
  }

  /** End of the longest run of `[^=.]`-characters starting at `p`. */
  function NameEnd(s: string, p: nat): (r: nat)
    requires p <= |s|
    decreases |s| - p
    ensures p <= r <= |s|
    ensures forall k :: p <= k < r ==> NameChar(s[k])
    ensures r < |s| ==> !NameChar(s[r])
  {
    if p == |s| || !NameChar(s[p]) then p else NameEnd(s, p + 1)
  }

  /** `(.+)\?` can match `s[p..j+1]` and `[^=.]+` can go on after it. */
  predicate CondAt(s: string, p: nat, j: nat)
    requires p <= |s|
  {
    p < j < RunEnd(s, p) && s[j] == '?' && j + 1 < |s| && NameChar(s[j + 1])
  }

  /** The greedy `.+` gives back characters from the right: the largest
      split point below `hi` wins. */
  function FindCond(s: string, p: nat, hi: nat): (r: Option<nat>)
    requires p <= |s| && hi <= RunEnd(s, p)
    decreases hi
    ensures r.None? ==> forall j :: p < j < hi ==> !CondAt(s, p, j)
    ensures r.Some? ==> r.value < hi && CondAt(s, p, r.value)
    ensures r.Some? ==> forall j :: r.value < j < hi ==> !CondAt(s, p, j)
  {
    if hi <= p + 1 then None
    else if CondAt(s, p, hi - 1) then Some(hi - 1)
    else FindCond(s, p, hi - 1)
  }

  /** Where the groups of a match starting at `p` lie. */
  datatype Span = Span(condEnd: Option<nat>, nameStart: nat, nameEnd: nat)

  function MatchAt(s: string, p: nat): (r: Option<Span>)
    requires p <= |s|
    ensures r.Some? ==> p <= r.value.nameStart < r.value.nameEnd <= |s|
    ensures r.Some? && r.value.condEnd.Some? ==> r.value.condEnd.value + 1 == r.value.nameStart
    ensures r.Some? && r.value.condEnd.None? ==> r.value.nameStart == p
    ensures r.Some? ==> r.value.nameEnd == NameEnd(s, r.value.nameStart)
  {
    match FindCond(s, p, RunEnd(s, p))
    case Some(j) => Some(Span(Some(j), j + 1, NameEnd(s, j + 1)))
    case None =>
      if p < |s| && NameChar(s[p]) then Some(Span(None, p, NameEnd(s, p))) else None
  }

  /** The leftmost starting position at which the pattern matches. */
  function FirstMatch(s: string, p: nat): (r: Option<(nat, Span)>)
    requires p <= |s|
    decreases |s| - p
    ensures r.Some? ==> p <= r.value.0 <= |s| && MatchAt(s, r.value.0) == Some(r.value.1)
    ensures r.Some? ==> forall q :: p <= q < r.value.0 ==> MatchAt(s, q).None?
    ensures r.None? ==> forall q :: p <= q <= |s| ==> MatchAt(s, q).None?
  {
    if MatchAt(s, p).Some? then Some((p, MatchAt(s, p).value))
    else if p == |s| then None
    else FirstMatch(s, p + 1)
  }

  /** Group 5, `(=(.+))?`, tried at the end `k` of the name. */
  function VarAt(s: string, k: nat): Option<string>
    requires k <= |s|
  {
    if k < |s| && s[k] == '=' && k + 1 < |s| && !IsLineTerminator(s[k + 1])
    then Some(s[k + 1..RunEnd(s, k + 1)]) else None
  }

  /** `parseAttrValue`: the regular expression's groups 2, 3 and 5; no
      result when it does not match (the source then reads a property of
      `null` and throws). */
  function ParseAttrValue(s: string): Option<AttrExpr> {
    match FirstMatch(s, 0)
    case None => None
    case Some((p, sp)) =>
      Some(AttrExpr(
        if sp.condEnd.Some? then Some(s[p..sp.condEnd.value]) else None,
        s[sp.nameStart..sp.nameEnd],
        VarAt(s, sp.nameEnd)))
  }

  /** `parseCssValue`: groups 2 and 3 of the same pattern without `=`. */
  function ParseCssValue(s: string): Option<CssExpr> {
    match FirstMatch(s, 0)
    case None => None
    case Some((p, sp)) =>
      Some(CssExpr(
        if sp.condEnd.Some? then Some(s[p..sp.condEnd.value]) else None,
        s[sp.nameStart..sp.nameEnd]))
  }

  // ---------------------------------------------------------------------
  // When the patterns fail.

  lemma NoMatchWithoutNameChar(s: string, p: nat)
    requires p <= |s|
    requires forall i :: 0 <= i < |s| ==> !NameChar(s[i])
    ensures MatchAt(s, p).None?
  {
  }

  lemma MatchAtNameChar(s: string, i: nat)
    requires i < |s| && NameChar(s[i])
    ensures MatchAt(s, i).Some?
  {
  }

  lemma {:induction false} FirstMatchFinds(s: string, p: nat, i: nat)
    requires p <= i < |s| && NameChar(s[i])
    ensures FirstMatch(s, p).Some?
    decreases i - p
  {
    if MatchAt(s, p).None? {
      if p == i {
        MatchAtNameChar(s, i);
      } else {
        FirstMatchFinds(s, p + 1, i);
      }
    }
  }

  /** A token is rejected exactly when it has no character other than `=`
      and `.` (the empty token included). */
  lemma ParseAttrFails(s: string)
    ensures ParseAttrValue(s).None? <==> forall i :: 0 <= i < |s| ==> !NameChar(s[i])
  {
    if forall i :: 0 <= i < |s| ==> !NameChar(s[i]) {
      if FirstMatch(s, 0).Some? {
        NoMatchWithoutNameChar(s, FirstMatch(s, 0).value.0);
      }
    } else {
      var i :| 0 <= i < |s| && NameChar(s[i]);
      FirstMatchFinds(s, 0, i);
    }
  }

  lemma ParseCssFails(s: string)
    ensures ParseCssValue(s).None? <==> forall i :: 0 <= i < |s| ==> !NameChar(s[i])
  {
    ParseAttrFails(s);
  }

  /** A parsed name is a non-empty run of `[^=.]` in the token that cannot
      be extended: the token ends right after it or goes on with `=` or `.`. */
  lemma ParsedNameIsMaximal(s: string)
    requires ParseAttrValue(s).Some?
    ensures var n := ParseAttrValue(s).value.attrName;
      |n| >= 1 && (forall i :: 0 <= i < |n| ==> NameChar(n[i])) &&
      exists k: nat :: MaximalNameAt(s, n, k)
  {
    var sp := FirstMatch(s, 0).value.1;
    var n := ParseAttrValue(s).value.attrName;
    assert MaximalNameAt(s, n, sp.nameStart);
  }

  /** `n` occurs in `s` at `k`, and the token ends right after it or goes on
      with `=` or `.`. */
  predicate MaximalNameAt(s: string, n: string, k: nat) {
    k + |n| <= |s| && s[k..k + |n|] == n && (k + |n| == |s| || s[k + |n|] == '=' || s[k + |n|] == '.')
  }

  // ---------------------------------------------------------------------
  // Writing a token and parsing it back.

  predicate NoLineTerminator(s: string) {
    forall i :: 0 <= i < |s| ==> !IsLineTerminator(s[i])
  }

  predicate NoQuestion(s: string) {
    forall i :: 0 <= i < |s| ==> s[i] != '?'
  }

  /** The tokens an author writes: a condition that may itself hold `?`,
      a name without `=`, `.` or `?`, and a variable path without `?`. */
  predicate WellFormedAttr(e: AttrExpr) {
    && (e.condition.Some? ==> |e.condition.value| >= 1 && NoLineTerminator(e.condition.value))
    && |e.attrName| >= 1 && NoLineTerminator(e.attrName) && NoQuestion(e.attrName)
    && (forall i :: 0 <= i < |e.attrName| ==> NameChar(e.attrName[i]))
    && (e.varName.Some? ==> |e.varName.value| >= 1 && NoLineTerminator(e.varName.value) && NoQuestion(e.varName.value))
  }

  function CondPrefix(c: Option<string>): string {
    if c.Some? then c.value + "?" else ""
  }

  /** `condition?attrName=varName`, each part present or not. */
  function AttrToken(e: AttrExpr): string {
    CondPrefix(e.condition) + e.attrName + (if e.varName.Some? then "=" + e.varName.value else "")
  }

  lemma RunEndWhole(s: string, p: nat)
    requires p <= |s|
    requires forall k :: p <= k < |s| ==> !IsLineTerminator(s[k])
    ensures RunEnd(s, p) == |s|
  {
  }

  lemma {:induction false} NameEndOver(s: string, a: nat, b: nat)
    requires a <= b <= |s|
    requires forall k :: a <= k < b ==> NameChar(s[k])
    requires b == |s| || !NameChar(s[b])
    ensures NameEnd(s, a) == b
    decreases b - a
  {
    if a < b {
      NameEndOver(s, a + 1, b);
    }
  }

  /** A `?` at `j` with a name character after it and no `?` further on is
      where the greedy `(.+)\?` stops. */
  lemma CondAtLast(s: string, j: nat)
    requires 1 <= j && j + 1 < |s| && s[j] == '?' && NameChar(s[j + 1])
    requires NoLineTerminator(s) && NoQuestion(s[j + 1..])
    ensures FindCond(s, 0, RunEnd(s, 0)) == Some(j)
  {
    RunEndWhole(s, 0);
    assert CondAt(s, 0, j);
    forall k | j < k < |s| ensures !CondAt(s, 0, k) {
      assert s[k] == s[j + 1..][k - j - 1];
    }
  }

  /** The name and the optional `=var` that follow position `a`. */
  lemma NameRun(s: string, a: nat, n: string, k: nat)
    requires k == a + |n| <= |s|
    requires s[a..k] == n
    requires forall i :: 0 <= i < |n| ==> NameChar(n[i])
    requires k == |s| || s[k] == '='
    ensures NameEnd(s, a) == k
  {
    forall i | a <= i < k ensures NameChar(s[i]) {
      assert s[i] == s[a..k][i - a];
    }
    NameEndOver(s, a, k);
  }

  lemma {:induction false} VarRun(s: string, k: nat, v: Option<string>)
    requires k <= |s|
    requires s[k..] == (if v.Some? then "=" + v.value else "")
    requires v.Some? ==> |v.value| >= 1 && NoLineTerminator(v.value)
    ensures VarAt(s, k) == v
  {
    if v.Some? {
      var w := v.value;
      assert s[k] == s[k..][0] == '=';
      assert s[k + 1..] == s[k..][1..] == w;
      forall m | k + 1 <= m < |s| ensures !IsLineTerminator(s[m]) {
        assert s[m] == w[m - k - 1];
      }
      RunEndWhole(s, k + 1);
      assert k + 1 < |s|;
      assert s[k + 1] == w[0];
      assert !IsLineTerminator(s[k + 1]);
      assert s[k + 1..RunEnd(s, k + 1)] == w;
    } else {
      assert |s[k..]| == 0;
    }
  }

  /** The name and the optional `=var` that follow position `a`. */
  lemma NameAndVar(s: string, a: nat, n: string, v: Option<string>)
    requires a + |n| <= |s| && |n| >= 1
    requires s[a..a + |n|] == n
    requires s[a + |n|..] == (if v.Some? then "=" + v.value else "")
    requires forall i :: 0 <= i < |n| ==> NameChar(n[i])
    requires v.Some? ==> |v.value| >= 1 && NoLineTerminator(v.value)
    ensures NameEnd(s, a) == a + |n|
    ensures VarAt(s, a + |n|) == v
  {
    var k := a + |n|;
    VarRun(s, k, v);
    if v.Some? {
      assert s[k] == s[k..][0];
    }
    NameRun(s, a, n, k);
  }

  lemma TokenHasNoLineTerminator(e: AttrExpr)
    requires WellFormedAttr(e)
    ensures NoLineTerminator(AttrToken(e))
  {
    var n := e.attrName;
    var cp := CondPrefix(e.condition);
    var tail := if e.varName.Some? then "=" + e.varName.value else "";
    var s := AttrToken(e);
    assert s == cp + n + tail;
    forall i | 0 <= i < |s| ensures !IsLineTerminator(s[i]) {
      if i < |cp| {
        if e.condition.Some? && i < |e.condition.value| {
          assert s[i] == e.condition.value[i];
        }
      } else if i < |cp| + |n| {
        assert s[i] == n[i - |cp|];
      } else if e.varName.Some? && i > |cp| + |n| {
        assert s[i] == e.varName.value[i - |cp| - |n| - 1];
      }
    }
  }

  lemma TailHasNoQuestion(e: AttrExpr)
    requires WellFormedAttr(e)
    ensures NoQuestion(e.attrName + (if e.varName.Some? then "=" + e.varName.value else ""))
  {
    var n := e.attrName;
    var t := n + (if e.varName.Some? then "=" + e.varName.value else "");
    forall i | 0 <= i < |t| ensures t[i] != '?' {
      if i < |n| {
        assert t[i] == n[i];
      } else if e.varName.Some? && i > |n| {
        assert t[i] == e.varName.value[i - |n| - 1];
      }
    }
  }

  /** When the regex's first attempt, at position 0, finds a condition
      ending at `j`, the token parses as that condition, the name after it
      and the variable after the name. */
  lemma ParseWithCondition(s: string, j: nat, c: string, n: string, v: Option<string>)
    requires FindCond(s, 0, RunEnd(s, 0)) == Some(j)
    requires j + 1 + |n| <= |s| && NameEnd(s, j + 1) == j + 1 + |n|
    requires s[0..j] == c && s[j + 1..j + 1 + |n|] == n && VarAt(s, j + 1 + |n|) == v
    ensures ParseAttrValue(s) == Some(AttrExpr(Some(c), n, v))
  {
    var sp := Span(Some(j), j + 1, j + 1 + |n|);
    assert MatchAt(s, 0) == Some(sp);
    assert FirstMatch(s, 0) == Some((0, sp));
  }

  /** Where the pieces of `c?n` followed by `tail` sit. */
  lemma CondLayout<T>(c: seq<T>, q: T, n: seq<T>, tail: seq<T>)
    ensures var s := c + [q] + n + tail;
      && |s| == |c| + 1 + |n| + |tail|
      && s[0..|c|] == c && s[|c|] == q
      && s[|c| + 1..] == n + tail
      && s[|c| + 1..|c| + 1 + |n|] == n
      && s[|c| + 1 + |n|..] == tail
  {
  }

  /** A token laid out as a condition, `?`, a name and an optional `=var`
      parses into those three parts. */
  lemma ParseComposed(s: string, c: string, n: string, v: Option<string>)
    requires |c| >= 1 && |n| >= 1 && forall i :: 0 <= i < |n| ==> NameChar(n[i])
    requires v.Some? ==> |v.value| >= 1 && NoLineTerminator(v.value)
    requires |c| + 1 + |n| <= |s| && s[0..|c|] == c && s[|c|] == '?' && s[|c| + 1..|c| + 1 + |n|] == n
    requires NoLineTerminator(s) && NoQuestion(s[|c| + 1..])
    requires s[|c| + 1 + |n|..] == (if v.Some? then "=" + v.value else "")
    ensures ParseAttrValue(s) == Some(AttrExpr(Some(c), n, v))
  {
    assert s[|c| + 1] == n[0];
    CondAtLast(s, |c|);
    NameAndVar(s, |c| + 1, n, v);
    ParseWithCondition(s, |c|, c, n, v);
  }

  lemma RoundTripWithCondition(e: AttrExpr)
    requires WellFormedAttr(e) && e.condition.Some?
    ensures ParseAttrValue(AttrToken(e)) == Some(e)
  {
    var c := e.condition.value;
    var n := e.attrName;
    var tail := if e.varName.Some? then "=" + e.varName.value else "";
    assert AttrToken(e) == c + ['?'] + n + tail;
    TokenHasNoLineTerminator(e);
    TailHasNoQuestion(e);
    CondLayout(c, '?', n, tail);
    ParseComposed(AttrToken(e), c, n, e.varName);
  }

  /** A token laid out as a name and an optional `=var`, with no `?`,
      parses into those two parts. */
  lemma ParsePlain(s: string, n: string, v: Option<string>)
    requires |n| >= 1 && forall i :: 0 <= i < |n| ==> NameChar(n[i])
    requires v.Some? ==> |v.value| >= 1 && NoLineTerminator(v.value)
    requires |n| <= |s| && s[0..|n|] == n && NoQuestion(s)
    requires s[|n|..] == (if v.Some? then "=" + v.value else "")
    ensures ParseAttrValue(s) == Some(AttrExpr(None, n, v))
  {
    assert s[0] == n[0];
    NameAndVar(s, 0, n, v);
    var sp := Span(None, 0, |n|);
    assert FindCond(s, 0, RunEnd(s, 0)).None?;
    assert MatchAt(s, 0) == Some(sp);
    assert FirstMatch(s, 0) == Some((0, sp));
  }

  lemma RoundTripWithoutCondition(e: AttrExpr)
    requires WellFormedAttr(e) && e.condition.None?
    ensures ParseAttrValue(AttrToken(e)) == Some(e)
  {
    var n := e.attrName;
    var tail := if e.varName.Some? then "=" + e.varName.value else "";
    assert AttrToken(e) == n + tail;
    TailHasNoQuestion(e);
    PrefixSlice(n, tail);
    SuffixSlice(n, tail);
    ParsePlain(AttrToken(e), n, e.varName);
  }

  /** Parsing a well-formed token gives back its condition, name and
      variable: the condition is everything before the last `?`, the name
      the run of `[^=.]` after it, the variable everything after `=`. */
  lemma AttrTokenRoundTrip(e: AttrExpr)
    requires WellFormedAttr(e)
    ensures ParseAttrValue(AttrToken(e)) == Some(e)
  {
    if e.condition.Some? {
      RoundTripWithCondition(e);
    } else {
      RoundTripWithoutCondition(e);
    }
  }

  predicate WellFormedCss(e: CssExpr) {
    WellFormedAttr(AttrExpr(e.condition, e.varName, None))
  }

  function CssToken(e: CssExpr): string {
    CondPrefix(e.condition) + e.varName
  }

  /** The class form reads back the same way. */
  lemma CssTokenRoundTrip(e: CssExpr)
    requires WellFormedCss(e)
    ensures ParseCssValue(CssToken(e)) == Some(e)
  {
    var a := AttrExpr(e.condition, e.varName, None);
    AttrTokenRoundTrip(a);
    assert AttrToken(a) == CssToken(e);
  }

  // ---------------------------------------------------------------------
  // The instruction builders.

  /** A trailing `#id` token names the live binding of the whole `attr`
      instruction and is taken off the token list; the id `""` registers
      nothing (the source tests it for truthiness). */
  function SplitLiveId(attributes: seq<string>): (r: (seq<string>, string))
    requires |attributes| >= 1
    ensures StartsWith(attributes[|attributes| - 1], "#")
            ==> r.0 == attributes[..|attributes| - 1] && r.1 == attributes[|attributes| - 1][1..]
    ensures !StartsWith(attributes[|attributes| - 1], "#") ==> r == (attributes, "")
  {
    var last := attributes[|attributes| - 1];
    if StartsWith(last, "#") then (attributes[..|attributes| - 1], last[1..]) else (attributes, "")
  }

  /** The tokens parsed in order; the first bad one aborts. */
  function ParseAttrTokens(tokens: seq<string>): (r: Result<seq<AttrExpr>, CompileError>)
    ensures r.Ok? <==> forall i :: 0 <= i < |tokens| ==> ParseAttrValue(tokens[i]).Some?
    ensures r.Ok? ==> (|r.value| == |tokens|
      && forall i :: 0 <= i < |tokens| ==> r.value[i] == ParseAttrValue(tokens[i]).value)
    ensures r.Err? ==>
      exists i :: 0 <= i < |tokens| && r.error == BadToken(tokens[i]) && ParseAttrValue(tokens[i]).None?
  {
    if tokens == [] then Ok([])
    else match ParseAttrValue(tokens[0])
      case None => Err(BadToken(tokens[0]))
      case Some(e) =>
        match ParseAttrTokens(tokens[1..])
        case Err(err) => Err(err)
        case Ok(rest) => Ok([e] + rest)
  }

  function ParseCssTokens(tokens: seq<string>): (r: Result<seq<CssExpr>, CompileError>)
    ensures r.Ok? <==> forall i :: 0 <= i < |tokens| ==> ParseCssValue(tokens[i]).Some?
    ensures r.Ok? ==> (|r.value| == |tokens|
      && forall i :: 0 <= i < |tokens| ==> r.value[i] == ParseCssValue(tokens[i]).value)
    ensures r.Err? ==>
      exists i :: 0 <= i < |tokens| && r.error == BadToken(tokens[i]) && ParseCssValue(tokens[i]).None?
  {
    if tokens == [] then Ok([])
    else match ParseCssValue(tokens[0])
      case None => Err(BadToken(tokens[0]))
      case Some(e) =>
        match ParseCssTokens(tokens[1..])
        case Err(err) => Err(err)
        case Ok(rest) => Ok([e] + rest)
  }

  /** Parsing stops at the first token the pattern rejects. */
  lemma {:induction false} AttrTokensStopAt(tokens: seq<string>, i: nat)
    requires i < |tokens| && ParseAttrValue(tokens[i]).None?
    requires forall j :: 0 <= j < i ==> ParseAttrValue(tokens[j]).Some?
    ensures ParseAttrTokens(tokens) == Err(BadToken(tokens[i]))
  {
    if i > 0 {
      assert ParseAttrValue(tokens[0]).Some?;
      assert forall j :: 0 <= j < i - 1 ==> tokens[1..][j] == tokens[j + 1];
      AttrTokensStopAt(tokens[1..], i - 1);
    }
  }

  /** Parsing stops at the first token the pattern rejects. */
  lemma {:induction false} CssTokensStopAt(tokens: seq<string>, i: nat)
    requires i < |tokens| && ParseCssValue(tokens[i]).None?
    requires forall j :: 0 <= j < i ==> ParseCssValue(tokens[j]).Some?
    ensures ParseCssTokens(tokens) == Err(BadToken(tokens[i]))
  {
    if i > 0 {
      assert ParseCssValue(tokens[0]).Some?;
      assert forall j :: 0 <= j < i - 1 ==> tokens[1..][j] == tokens[j + 1];
      CssTokensStopAt(tokens[1..], i - 1);
    }
  }

  /** The block an `attr` instruction compiles to. */
  function AttrBlock(attributes: seq<string>): Result<Entry, CompileError>
    requires |attributes| >= 1
  {
    var (tokens, liveId) := SplitLiveId(attributes);
    match ParseAttrTokens(tokens)
    case Err(e) => Err(e)
    case Ok(exprs) => Ok(Attr(exprs, liveId))
  }

  /** The block a `css` instruction compiles to: every token is a class
      token (a `#` token has no special meaning here). */
  function CssBlock(classes: seq<string>): Result<Entry, CompileError> {
    match ParseCssTokens(classes)
    case Err(e) => Err(e)
    case Ok(exprs) => Ok(Css(exprs))
  }

  /** The first `|exprs|` tokens parse as `exprs` and the next one fails. */
  lemma AttrBlockStops(attributes: seq<string>, exprs: seq<AttrExpr>)
    requires |attributes| >= 1
    requires var tokens := SplitLiveId(attributes).0;
      && |exprs| < |tokens| && ParseAttrValue(tokens[|exprs|]).None?
      && forall j :: 0 <= j < |exprs| ==> ParseAttrValue(tokens[j]) == Some(exprs[j])
    ensures AttrBlock(attributes) == Err(BadToken(SplitLiveId(attributes).0[|exprs|]))
  {
    AttrTokensStopAt(SplitLiveId(attributes).0, |exprs|);
  }

  /** All the tokens parse, as `exprs`. */
  lemma AttrBlockParsed(attributes: seq<string>, exprs: seq<AttrExpr>)
    requires |attributes| >= 1
    requires var tokens := SplitLiveId(attributes).0;
      && |exprs| == |tokens|
      && forall j :: 0 <= j < |exprs| ==> ParseAttrValue(tokens[j]) == Some(exprs[j])
    ensures AttrBlock(attributes) == Ok(Attr(exprs, SplitLiveId(attributes).1))
  {
    var r := ParseAttrTokens(SplitLiveId(attributes).0);
    assert r.Ok?;
    SeqExt(r.value, exprs);
  }

  /** All the class tokens parse, as `exprs`. */
  lemma CssBlockParsed(classes: seq<string>, exprs: seq<CssExpr>)
    requires |exprs| == |classes|
    requires forall j :: 0 <= j < |exprs| ==> ParseCssValue(classes[j]) == Some(exprs[j])
    ensures CssBlock(classes) == Ok(Css(exprs))
  {
    var r := ParseCssTokens(classes);
    assert r.Ok?;
    SeqExt(r.value, exprs);
  }

  /** `getAttributeInstructions`: pops a trailing `#id` token, then parses
      the tokens one by one, stopping at the first that does not match. */
  method GetAttributeInstructions(attributes: seq<string>) returns (r: Result<Entry, CompileError>)
    requires |attributes| >= 1
    ensures r == AttrBlock(attributes)
    ensures r.Ok? ==> r.value.Attr? && |r.value.exprs| == |SplitLiveId(attributes).0|
  {
    var tokens := attributes;
    var liveId := "";
    if StartsWith(tokens[|tokens| - 1], "#") {
      liveId := tokens[|tokens| - 1][1..];
      tokens := tokens[..|tokens| - 1];
    }
    var exprs: seq<AttrExpr> := [];
    var i := 0;
    while i < |tokens|
      invariant 0 <= i <= |tokens|
      invariant (tokens, liveId) == SplitLiveId(attributes)
      invariant |exprs| == i
      invariant forall j :: 0 <= j < i ==> ParseAttrValue(tokens[j]) == Some(exprs[j])
    {
      var parsed := ParseAttrValue(tokens[i]);
      if parsed.None? {
        AttrBlockStops(attributes, exprs);
        return Err(BadToken(tokens[i]));
      }
      exprs := exprs + [parsed.value];
      i := i + 1;
    }
    AttrBlockParsed(attributes, exprs);
    return Ok(Attr(exprs, liveId));
  }

  /** `getCssInstructions`: every token parsed in order. */
  method GetCssInstructions(classes: seq<string>) returns (r: Result<Entry, CompileError>)
    ensures r == CssBlock(classes)
  {
    var exprs: seq<CssExpr> := [];
    var i := 0;
    while i < |classes|
      invariant 0 <= i <= |classes|
      invariant |exprs| == i
      invariant forall j :: 0 <= j < i ==> ParseCssValue(classes[j]) == Some(exprs[j])
    {
      var parsed := ParseCssValue(classes[i]);
      if parsed.None? {
        CssTokensStopAt(classes, i);
        return Err(BadToken(classes[i]));
      }
      exprs := exprs + [parsed.value];
      i := i + 1;
    }
    CssBlockParsed(classes, exprs);
    return Ok(Css(exprs));
  }
}
