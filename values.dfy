/** JavaScript-like values as the renderer sees them: the data context, the
    output tree it builds, and the handful of JavaScript coercions the
    generated code relies on (truthiness, string conversion, property
    lookup, for-in key order, `String.prototype.split`). */
module Values {

  /** A data-context value. Objects keep their own properties in insertion
      order; arrays are dense. `Ctor` is a renderer class stored in the data
      (a sub-template), `NodeRef` a DOM node held as a value. */
  datatype Value =
    | Undef
    | Null
    | Bool(b: bool)
    | Num(n: int)
    | Str(s: string)
    | Arr(items: seq<Value>)
    | Obj(fields: seq<(string, Value)>)
    | Ctor(name: string)
    | NodeRef(node: Tree)

  /** The output tree: what the DOM primitives build. */
  datatype Tree =
    | Elem(tag: string, attrs: seq<(string, string)>, children: seq<Tree>)
    | TextNode(data: Value)
    | CommentNode(text: string)
    | PINode(target: string, content: string)
    | DocNode(children: seq<Tree>)

  /** JavaScript truthiness (NaN is not modelled: numbers are integers). */
  predicate Truthy(v: Value) {
    match v
    case Undef => false
    case Null => false
    case Bool(b) => b
    case Num(n) => n != 0
    case Str(s) => s != ""
    case _ => true
  }

  // ---------------------------------------------------------------------
  // Decimal strings: array keys are index strings, numbers print as decimals.

  function DigitChar(d: nat): (c: char)
    requires d < 10
    ensures '0' <= c <= '9'
  {
    (('0' as int) + d) as char
  }

  /** The canonical decimal spelling of `n`, as `String(n)` gives it. */
  function NatToString(n: nat): (s: string)
    decreases n
    ensures |s| >= 1
    ensures forall i :: 0 <= i < |s| ==> '0' <= s[i] <= '9'
    ensures |s| > 1 ==> s[0] != '0'
  {
    if n < 10 then [DigitChar(n)] else NatToString(n / 10) + [DigitChar(n % 10)]
  }

  /** The key under which for-in visits position `i` of an array or string. */
  function IndexKey(i: nat): string {
    NatToString(i)
  }

  function DigitsValue(s: string): nat
    requires forall i :: 0 <= i < |s| ==> '0' <= s[i] <= '9'
  {
    if s == [] then 0
    else DigitsValue(s[..|s| - 1]) * 10 + ((s[|s| - 1] as int) - ('0' as int))
  }

  /** A canonical array index: digits only, no leading zero (except "0"). */
  predicate IsIndexString(s: string) {
    && |s| >= 1
    && (forall i :: 0 <= i < |s| ==> '0' <= s[i] <= '9')
    && (|s| > 1 ==> s[0] != '0')
  }

  function ParseIndex(s: string): (r: Option<nat>)
    ensures r.Some? <==> IsIndexString(s)
  {
    if IsIndexString(s) then Some(DigitsValue(s)) else None
  }

  datatype Option<T> = None | Some(value: T)

  /** A computation of the source that returns normally or throws. */
  datatype Result<T, E> = Ok(value: T) | Err(error: E)

  /** The digit a `DigitChar` stands for. */
  lemma DigitCharValue(d: nat)
    requires d < 10
    ensures (DigitChar(d) as int) - ('0' as int) == d
  {
  }

  lemma InitLast<T>(a: seq<T>)
    requires a != []
    ensures a[..|a| - 1] + [a[|a| - 1]] == a
  {
  }

  lemma {:induction false} DigitsOfNat(n: nat)
    ensures DigitsValue(NatToString(n)) == n
    decreases n
  {
    var s := NatToString(n);
    if n < 10 {
      assert s[..|s| - 1] == [];
      DigitCharValue(n);
    } else {
      var init := NatToString(n / 10);
      DigitsOfNat(n / 10);
      assert s == init + [DigitChar(n % 10)];
      PrefixSlice(init, [DigitChar(n % 10)]);
      assert s[..|s| - 1] == init && s[|s| - 1] == DigitChar(n % 10);
      DigitCharValue(n % 10);
    }
  }

  /** Reading an index key back gives the index: array keys round-trip. */
  lemma IndexKeyRoundTrip(i: nat)
    ensures ParseIndex(IndexKey(i)) == Some(i)
  {
    DigitsOfNat(i);
  }

  lemma {:induction false} NatToStringInjective(a: nat, b: nat)
    requires NatToString(a) == NatToString(b)
    ensures a == b
  {
    DigitsOfNat(a);
    DigitsOfNat(b);
  }

  /** `String(n)` for an integer. */
  function IntToString(n: int): string {
    if n < 0 then "-" + NatToString(-n) else NatToString(n)
  }

  // ---------------------------------------------------------------------
  // Objects as ordered property lists.

  function FieldKeys(fields: seq<(string, Value)>): (ks: seq<string>)
    ensures |ks| == |fields|
    ensures forall i :: 0 <= i < |fields| ==> ks[i] == fields[i].0
  {
    if fields == [] then [] else [fields[0].0] + FieldKeys(fields[1..])
  }

  /** The value of own property `k`, if any (the first one with that key). */
  function FieldGet(fields: seq<(string, Value)>, k: string): (r: Option<Value>)
    ensures r.None? <==> k !in FieldKeys(fields)
  {
    if fields == [] then None
    else if fields[0].0 == k then Some(fields[0].1)
    else FieldGet(fields[1..], k)
  }

  /** `obj[k] = v`: an existing property keeps its place, a new one goes last. */
  function FieldSet(fields: seq<(string, Value)>, k: string, v: Value): (r: seq<(string, Value)>)
    ensures FieldGet(r, k) == Some(v)
    ensures forall k' :: k' != k ==> FieldGet(r, k') == FieldGet(fields, k')
    ensures k in FieldKeys(fields) ==> FieldKeys(r) == FieldKeys(fields)
    ensures k !in FieldKeys(fields) ==> FieldKeys(r) == FieldKeys(fields) + [k]
  {
    if fields == [] then [(k, v)]
    else
      ConsTail(fields);
      FieldsCons(fields[0], fields[1..]);
      if fields[0].0 == k then
        FieldsCons((k, v), fields[1..]);
        [(k, v)] + fields[1..]
      else
        var rest := FieldSet(fields[1..], k, v);
        FieldsCons(fields[0], rest);
        AppendAssoc([fields[0].0], FieldKeys(fields[1..]), [k]);
        [fields[0]] + rest
  }

  /** Keys and lookups of a property list with one property in front. */
  lemma FieldsCons(p: (string, Value), t: seq<(string, Value)>)
    ensures FieldKeys([p] + t) == [p.0] + FieldKeys(t)
    ensures forall k :: FieldGet([p] + t, k) == if p.0 == k then Some(p.1) else FieldGet(t, k)
  {
    assert ([p] + t)[1..] == t;
  }

  /** Property lookup `ptr[step]` on a value that is not undefined or null.
      Objects look up own properties; arrays and strings answer index keys
      and `length`; every other property of every other value reads as
      undefined. */
  function Lookup(ptr: Value, step: string): (r: Value)
    ensures ptr.Obj? ==> (r == match FieldGet(ptr.fields, step) case Some(v) => v case None => Undef)
    ensures ptr.Arr? && IsIndexString(step) && DigitsValue(step) < |ptr.items| ==> r == ptr.items[DigitsValue(step)]
  {
    match ptr
    case Obj(fields) =>
      (match FieldGet(fields, step) case Some(v) => v case None => Undef)
    case Arr(items) =>
      if step == "length" then Num(|items|)
      else (match ParseIndex(step)
            case Some(i) => if i < |items| then items[i] else Undef
            case None => Undef)
    case Str(s) =>
      if step == "length" then Num(|s|)
      else (match ParseIndex(step)
            case Some(i) => if i < |s| then Str([s[i]]) else Undef
            case None => Undef)
    case _ => Undef
  }

  function IndexKeys(n: nat): (ks: seq<string>)
    ensures |ks| == n
    ensures forall i :: 0 <= i < n ==> ks[i] == IndexKey(i)
  {
    if n == 0 then [] else IndexKeys(n - 1) + [IndexKey(n - 1)]
  }

  /** The keys a `for (k in v)` loop visits, in order: object keys in
      insertion order, array and string positions as index strings. */
  function ForInKeys(v: Value): (ks: seq<string>)
    ensures v.Obj? ==> ks == FieldKeys(v.fields)
    ensures v.Arr? ==> |ks| == |v.items| && forall i :: 0 <= i < |ks| ==> ks[i] == IndexKey(i)
    ensures !(v.Obj? || v.Arr? || v.Str?) ==> ks == []
  {
    match v
    case Obj(fields) => FieldKeys(fields)
    case Arr(items) => IndexKeys(|items|)
    case Str(s) => IndexKeys(|s|)
    case _ => []
  }

  /** Every key for-in yields of an array reads back the element at that
      position. */
  lemma ForInArrayElement(items: seq<Value>, i: nat)
    requires i < |items|
    ensures ForInKeys(Arr(items))[i] == IndexKey(i)
    ensures Lookup(Arr(items), IndexKey(i)) == items[i]
  {
    IndexKeyRoundTrip(i);
  }

  // ---------------------------------------------------------------------
  // String conversion.

  /** `String(v)`, as `setAttribute` and text serialisation apply it. */
  function ToJsString(v: Value): string
    decreases v, 0
  {
    match v
    case Undef => "undefined"
    case Null => "null"
    case Bool(b) => if b then "true" else "false"
    case Num(n) => IntToString(n)
    case Str(s) => s
    case Arr(items) => JoinValues(items, ",")
    case Obj(_) => "[object Object]"
    case Ctor(name) => "[class " + name + "]"
    case NodeRef(_) => "[object Node]"
  }

  /** `Array.prototype.join(sep)`: undefined and null print as empty. */
  function JoinValues(items: seq<Value>, sep: string): string
    decreases items, 0
  {
    if items == [] then ""
    else if |items| == 1 then JoinPart(items[0])
    else JoinPart(items[0]) + sep + JoinValues(items[1..], sep)
  }

  function JoinPart(v: Value): string
    decreases v, 1
  {
    if v.Undef? || v.Null? then "" else ToJsString(v)
  }

  // ---------------------------------------------------------------------
  // Strings.

  /** Concatenation is associative: stated once, for any element type, so
      that proofs about sequences of values need not rediscover it. */
  lemma AppendAssoc<T>(a: seq<T>, b: seq<T>, c: seq<T>)
    ensures a + b + c == a + (b + c)
  {
  }

  lemma AppendAssoc4<T>(a: seq<T>, b: seq<T>, c: seq<T>, d: seq<T>)
    ensures a + b + c + d == a + (b + (c + d))
  {
  }

  lemma AppendTail<T>(a: seq<T>, b: seq<T>)
    requires a != []
    ensures (a + b)[0] == a[0] && (a + b)[1..] == a[1..] + b
  {
  }

  lemma AppendEmpty<T>(a: seq<T>)
    ensures [] + a == a
  {
  }

  lemma PrefixSlice<T>(a: seq<T>, b: seq<T>)
    ensures (a + b)[0..|a|] == a && (a + b)[..|a|] == a
  {
  }

  lemma SuffixSlice<T>(a: seq<T>, b: seq<T>)
    ensures (a + b)[|a|..] == b
  {
  }

  lemma AppendOneCongruent<T>(a: seq<T>, b: seq<T>, x: T, y: T)
    requires a == b && x == y
    ensures a + [x] == b + [y]
  {
  }

  lemma SnocAt<T>(a: seq<T>, x: T, i: nat)
    requires i <= |a|
    ensures (a + [x])[..i] == a[..i]
    ensures (a + [x])[i] == if i == |a| then x else a[i]
  {
  }

  /** A sequence computed element by element from `a + b` is the two
      sequences computed from `a` and from `b`, one after the other. */
  lemma MapConcat<A, B>(f: A -> B, a: seq<A>, b: seq<A>, l: seq<B>, x: seq<B>, y: seq<B>)
    requires |l| == |a| + |b| && |x| == |a| && |y| == |b|
    requires forall i :: 0 <= i < |l| ==> l[i] == f((a + b)[i])
    requires forall i :: 0 <= i < |x| ==> x[i] == f(a[i])
    requires forall i :: 0 <= i < |y| ==> y[i] == f(b[i])
    ensures l == x + y
  {
    forall i | 0 <= i < |l| ensures l[i] == (x + y)[i] {
      if i < |a| {
        assert (a + b)[i] == a[i];
      } else {
        assert (a + b)[i] == b[i - |a|];
      }
    }
  }

  /** Sequences with the same elements are equal. */
  lemma SeqExt<T>(l: seq<T>, r: seq<T>)
    requires |l| == |r| && forall i :: 0 <= i < |l| ==> l[i] == r[i]
    ensures l == r
  {
  }

  predicate StartsWith(s: string, prefix: string) {
    |prefix| <= |s| && s[..|prefix|] == prefix
  }

  /** What a split separates on: one given character, or any character of
      the JavaScript class `\s`. */
  datatype Sep = Char(c: char) | Whitespace

  predicate IsJsWhitespace(c: char) {
    || c == '\t' || c == '\n' || c == '\U{000B}' || c == '\U{000C}' || c == '\r' || c == ' '
    || c == '\U{00A0}' || c == '\U{1680}' || ('\U{2000}' <= c <= '\U{200A}')
    || c == '\U{2028}' || c == '\U{2029}' || c == '\U{202F}' || c == '\U{205F}'
    || c == '\U{3000}' || c == '\U{FEFF}'
  }

  predicate IsSep(sep: Sep, c: char) {
    match sep
    case Char(x) => c == x
    case Whitespace => IsJsWhitespace(c)
  }

  /** `s.split(sep)` for a one-character separator or `/\s/`: the pieces
      between separators, at least one, none containing a separator. */
  function Split(s: string, sep: Sep): (parts: seq<string>)
    ensures |parts| >= 1
    ensures forall i, j :: 0 <= i < |parts| && 0 <= j < |parts[i]| ==> !IsSep(sep, parts[i][j])
    ensures (forall j :: 0 <= j < |s| ==> !IsSep(sep, s[j])) ==> parts == [s]
  {
    if s == [] then [""]
    else
      var rest := Split(s[1..], sep);
      assert [s[0]] + s[1..] == s;
      if IsSep(sep, s[0]) then [""] + rest
      else [[s[0]] + rest[0]] + rest[1..]
  }

  /** `parts.join(c)`. */
  function Join(parts: seq<string>, c: char): string {
    if parts == [] then ""
    else if |parts| == 1 then parts[0]
    else parts[0] + [c] + Join(parts[1..], c)
  }

  /** Splitting on a character and joining with it gives the string back. */
  lemma {:induction false} SplitJoin(s: string, c: char)
    ensures Join(Split(s, Char(c)), c) == s
  {
    if s != [] {
      var rest := Split(s[1..], Char(c));
      SplitJoin(s[1..], c);
      assert [s[0]] + s[1..] == s;
      if s[0] == c {
        assert Split(s, Char(c)) == [""] + rest;
        JoinAfterEmpty(rest, c);
      } else {
        assert Split(s, Char(c)) == [[s[0]] + rest[0]] + rest[1..];
        JoinConsFirst(s[0], rest, c);
      }
    }
  }

  lemma JoinAfterEmpty(rest: seq<string>, c: char)
    requires |rest| >= 1
    ensures Join([""] + rest, c) == [c] + Join(rest, c)
  {
    assert ([""] + rest)[1..] == rest;
  }

  /** Putting a character in front of the first piece puts it in front of
      the joined string. */
  lemma JoinConsFirst(x: char, rest: seq<string>, c: char)
    requires |rest| >= 1
    ensures Join([[x] + rest[0]] + rest[1..], c) == [x] + Join(rest, c)
  {
    var parts := [[x] + rest[0]] + rest[1..];
    if |rest| > 1 {
      assert parts[1..] == rest[1..];
      assert Join(parts, c) == ([x] + rest[0]) + [c] + Join(rest[1..], c);
    }
  }

  lemma JoinShorter(parts: seq<string>, c: char)
    requires |parts| >= 2 && parts[0] != []
    ensures |Join(parts, c)| >= 1
    ensures Join(parts, c)[0] == parts[0][0]
    ensures Join(parts, c)[1..] == Join([parts[0][1..]] + parts[1..], c)
  {
    var p0 := parts[0];
    var shorter := [p0[1..]] + parts[1..];
    assert shorter[1..] == parts[1..];
    assert Join(parts, c) == p0 + [c] + Join(parts[1..], c);
    assert Join(shorter, c) == p0[1..] + [c] + Join(parts[1..], c);
  }

  /** One step of `Split`, by the first character. */
  lemma SplitStep(s: string, sep: Sep)
    requires s != []
    ensures IsSep(sep, s[0]) ==> Split(s, sep) == [""] + Split(s[1..], sep)
    ensures !IsSep(sep, s[0]) ==>
      Split(s, sep) == [[s[0]] + Split(s[1..], sep)[0]] + Split(s[1..], sep)[1..]
  {
  }

  lemma ConsTail<T>(a: seq<T>)
    requires a != []
    ensures [a[0]] + a[1..] == a
  {
  }

  /** Joining separator-free pieces with a separator character and
      splitting again gives the pieces. */
  lemma {:induction false} JoinSplit(parts: seq<string>, c: char, sep: Sep)
    requires |parts| >= 1
    requires IsSep(sep, c)
    requires forall i, j :: 0 <= i < |parts| && 0 <= j < |parts[i]| ==> !IsSep(sep, parts[i][j])
    ensures Split(Join(parts, c), sep) == parts
    decreases |parts|, |parts[0]|
  {
    if |parts| == 1 {
      var s := parts[0];
      assert forall j :: 0 <= j < |s| ==> !IsSep(sep, s[j]);
    } else if parts[0] == [] {
      JoinSplit(parts[1..], c, sep);
      JoinAfterEmpty(parts[1..], c);
      ConsTail(parts);
      var s := Join(parts, c);
      assert s == [c] + Join(parts[1..], c);
      AppendTail([c], Join(parts[1..], c));
      SplitStep(s, sep);
    } else {
      var p0 := parts[0];
      var shorter := [p0[1..]] + parts[1..];
      forall i, j | 0 <= i < |shorter| && 0 <= j < |shorter[i]| ensures !IsSep(sep, shorter[i][j]) {
        if i == 0 { assert shorter[0][j] == p0[j + 1]; } else { assert shorter[i] == parts[i]; }
      }
      JoinSplit(shorter, c, sep);
      JoinShorter(parts, c);
      var s := Join(parts, c);
      SplitStep(s, sep);
      assert shorter[0] == p0[1..] && shorter[1..] == parts[1..];
      ConsTail(p0);
      ConsTail(parts);
    }
  }
}
