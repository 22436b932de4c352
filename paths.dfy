/** Dotted data paths: `_getValue` and `_setValue` of the renderer
    (identical in the generated class and in the runtime class). */
module Paths {
  import opened Values

  /** The steps of a dotted path: `path.split('.')`. */
  function Segments(path: string): (steps: seq<string>)
    ensures |steps| >= 1
  {
    Split(path, Char('.'))
  }

  /** One step of `reduce((ptr, step) => ptr && ptr[step])`: a falsy value
      is passed on unchanged, anything else is indexed. */
  function StepInto(ptr: Value, step: string): Value {
    if Truthy(ptr) then Lookup(ptr, step) else ptr
  }

  /** The whole reduction over `steps`, starting from `ptr`. */
  function Walk(ptr: Value, steps: seq<string>): Value
    decreases |steps|
  {
    if steps == [] then ptr else Walk(StepInto(ptr, steps[0]), steps[1..])
  }

  lemma WalkSingle(ptr: Value, step: string)
    ensures Walk(ptr, [step]) == StepInto(ptr, step)
  {
    assert [step][1..] == [];
  }

  predicate Negated(path: string) {
    |path| > 0 && path[0] == '!'
  }

  /** `_getValue(data, path)`: a leading `!` negates the rest, otherwise the
      dotted steps are walked from `data`. It never fails: a missing step
      yields undefined (or the first falsy value met). */
  function GetValue(data: Value, path: string): (r: Value)
    decreases |path|
    ensures Negated(path) ==> r.Bool? && r.b == !Truthy(GetValue(data, path[1..]))
    ensures !Negated(path) ==> r == Walk(data, Segments(path))
  {
    if Negated(path) then Bool(!Truthy(GetValue(data, path[1..])))
    else Walk(data, Segments(path))
  }

  /** `!!p` is a double negation: it reads as the truthiness of `p`. */
  lemma DoubleNegation(data: Value, p: string)
    ensures GetValue(data, "!!" + p) == Bool(Truthy(GetValue(data, p)))
  {
    assert ("!!" + p)[1..] == "!" + p;
    assert ("!" + p)[1..] == p;
  }

  lemma {:induction false} WalkConcat(ptr: Value, a: seq<string>, b: seq<string>)
    ensures Walk(ptr, a + b) == Walk(Walk(ptr, a), b)
    decreases |a|
  {
    if a != [] {
      assert (a + b)[0] == a[0];
      assert (a + b)[1..] == a[1..] + b;
      WalkConcat(StepInto(ptr, a[0]), a[1..], b);
      calc {
        Walk(ptr, a + b);
        Walk(StepInto(ptr, a[0]), a[1..] + b);
        Walk(Walk(StepInto(ptr, a[0]), a[1..]), b);
      }
    } else {
      assert a + b == b;
    }
  }

  lemma {:induction false} WalkFalsy(ptr: Value, steps: seq<string>)
    requires !Truthy(ptr)
    ensures Walk(ptr, steps) == ptr
    decreases |steps|
  {
    if steps != [] {
      WalkFalsy(ptr, steps[1..]);
    }
  }

  /** The walk stops at the first falsy intermediate value and returns it
      as it is. */
  lemma ShortCircuit(data: Value, steps: seq<string>, i: nat)
    requires i <= |steps|
    requires !Truthy(Walk(data, steps[..i]))
    ensures Walk(data, steps) == Walk(data, steps[..i])
  {
    assert steps == steps[..i] + steps[i..];
    WalkConcat(data, steps[..i], steps[i..]);
    WalkFalsy(Walk(data, steps[..i]), steps[i..]);
  }

  /** A value that no walk can leave holding an object. */
  predicate Atomic(v: Value) {
    !(v.Obj? || v.Arr?)
  }

  lemma {:induction false} WalkFromAtomic(ptr: Value, steps: seq<string>)
    requires Atomic(ptr)
    ensures Atomic(Walk(ptr, steps))
    decreases |steps|
  {
    if steps != [] {
      WalkFromAtomic(StepInto(ptr, steps[0]), steps[1..]);
    }
  }

  // ---------------------------------------------------------------------
  // Assignment.

  /** The containers on the way are rebuilt bottom-up once the last one has
      taken the new property. */
  function Replace(ptr: Value, step: string, child: Value): Option<Value> {
    match ptr
    case Obj(fields) => Some(Obj(FieldSet(fields, step, child)))
    case Arr(items) =>
      (match ParseIndex(step)
       case Some(i) => if i < |items| then Some(Arr(items[i := child])) else None
       case None => None)
    case _ => None
  }

  /** Walk `steps` from `ptr` and set property `last` of the object reached;
      no result when the walk does not reach an object (the source throws). */
  function Assign(ptr: Value, steps: seq<string>, last: string, v: Value): Option<Value>
    decreases |steps|
  {
    if steps == [] then
      (if ptr.Obj? then Some(Obj(FieldSet(ptr.fields, last, v))) else None)
    else if !Truthy(ptr) then None
    else
      match Assign(Lookup(ptr, steps[0]), steps[1..], last, v)
      case None => None
      case Some(c) => Replace(ptr, steps[0], c)
  }

  function Init(steps: seq<string>): seq<string>
    requires |steps| >= 1
  {
    steps[..|steps| - 1]
  }

  function Last(steps: seq<string>): string
    requires |steps| >= 1
  {
    steps[|steps| - 1]
  }

  /** `_setValue(data, path, v)`: the path's last step is set on the
      container the other steps resolve to. */
  function SetValue(data: Value, path: string, v: Value): Option<Value> {
    var steps := Segments(path);
    Assign(data, Init(steps), Last(steps), v)
  }

  /** Whether `_setValue(data, path, _)` succeeds. */
  predicate CanSet(data: Value, path: string) {
    Walk(data, Init(Segments(path))).Obj?
  }

  lemma {:induction false} AssignSucceeds(ptr: Value, steps: seq<string>, last: string, v: Value)
    ensures Assign(ptr, steps, last, v).Some? <==> Walk(ptr, steps).Obj?
    decreases |steps|
  {
    if steps != [] {
      if !Truthy(ptr) {
        WalkFalsy(ptr, steps);
      } else {
        var child := Lookup(ptr, steps[0]);
        AssignSucceeds(child, steps[1..], last, v);
        if Walk(ptr, steps).Obj? {
          match ptr {
            case Obj(_) =>
            case Arr(items) =>
              if ParseIndex(steps[0]).None? || ParseIndex(steps[0]).value >= |items| {
                assert Atomic(child);
                WalkFromAtomic(child, steps[1..]);
              }
            case _ =>
              assert Atomic(ptr);
              WalkFromAtomic(ptr, steps);
          }
        }
      }
    }
  }

  /** The write succeeds exactly when the prefix resolves to an object. */
  lemma SetValueSucceeds(data: Value, path: string, v: Value)
    ensures SetValue(data, path, v).Some? <==> CanSet(data, path)
  {
    var steps := Segments(path);
    AssignSucceeds(data, Init(steps), Last(steps), v);
  }

  /** What the walk sees after an assignment: the new container at the end
      of the prefix. */
  lemma {:induction false} WalkAfterAssign(ptr: Value, steps: seq<string>, last: string, v: Value)
    requires Assign(ptr, steps, last, v).Some?
    ensures Walk(ptr, steps).Obj?
    ensures Walk(Assign(ptr, steps, last, v).value, steps)
         == Obj(FieldSet(Walk(ptr, steps).fields, last, v))
    decreases |steps|
  {
    AssignSucceeds(ptr, steps, last, v);
    if steps != [] {
      var child := Lookup(ptr, steps[0]);
      var c := Assign(child, steps[1..], last, v).value;
      WalkAfterAssign(child, steps[1..], last, v);
      var r := Replace(ptr, steps[0], c).value;
      assert Truthy(r);
      assert Lookup(r, steps[0]) == c by {
        match ptr {
          case Obj(fields) =>
          case Arr(items) =>
            IndexKeyLookup(items, steps[0], c);
          case _ =>
        }
      }
    }
  }

  lemma IndexKeyLookup(items: seq<Value>, step: string, c: Value)
    requires ParseIndex(step).Some? && ParseIndex(step).value < |items|
    ensures step != "length"
    ensures Lookup(Arr(items[ParseIndex(step).value := c]), step) == c
  {
    assert IsIndexString(step);
    assert '0' <= step[0] <= '9';
  }

  /** After `_setValue(data, path, v)`, `_getValue(path)` reads `v`. */
  lemma GetAfterSet(data: Value, path: string, v: Value)
    requires !Negated(path)
    requires SetValue(data, path, v).Some?
    ensures GetValue(SetValue(data, path, v).value, path) == v
  {
    var steps := Segments(path);
    var d' := SetValue(data, path, v).value;
    WalkAfterAssign(data, Init(steps), Last(steps), v);
    InitLast(steps);
    WalkOntoLast(d', Init(steps), Last(steps), Walk(data, Init(steps)).fields, v);
  }

  /** A walk that ends on an object just given `last` reads the new value one step on. */
  lemma WalkOntoLast(d: Value, init: seq<string>, last: string, fields: seq<(string, Value)>, v: Value)
    requires Walk(d, init) == Obj(FieldSet(fields, last, v))
    ensures Walk(d, init + [last]) == v
  {
    WalkConcat(d, init, [last]);
    WalkSingle(Walk(d, init), last);
  }

  /** Every other property of the container keeps its value. */
  lemma SetKeepsSiblings(data: Value, path: string, v: Value, k: string)
    requires SetValue(data, path, v).Some?
    requires k != Last(Segments(path))
    ensures Lookup(Walk(SetValue(data, path, v).value, Init(Segments(path))), k)
         == Lookup(Walk(data, Init(Segments(path))), k)
  {
    var steps := Segments(path);
    WalkAfterAssign(data, Init(steps), Last(steps), v);
  }

  /** Two step lists that neither extends the other: they part at some
      position after a common prefix. */
  predicate Diverge(a: seq<string>, b: seq<string>) {
    exists i :: 0 <= i < |a| && i < |b| && a[..i] == b[..i] && a[i] != b[i]
  }

  lemma DivergeSymmetric(a: seq<string>, b: seq<string>)
    requires Diverge(a, b)
    ensures Diverge(b, a)
  {
    var i :| 0 <= i < |a| && i < |b| && a[..i] == b[..i] && a[i] != b[i];
    assert b[..i] == a[..i];
  }

  lemma {:induction false} LookupReplaceOther(ptr: Value, s: string, t: string, c: Value)
    requires s != t
    requires Replace(ptr, s, c).Some?
    ensures Lookup(Replace(ptr, s, c).value, t) == Lookup(ptr, t)
  {
    match ptr {
      case Obj(fields) =>
      case Arr(items) =>
        var i := ParseIndex(s).value;
        IndexKeyLookup(items, s, c);
        if t != "length" && ParseIndex(t).Some? {
          var j := ParseIndex(t).value;
          if i == j {
            DigitsInjective(s, t);
          }
        }
      case _ =>
    }
  }

  /** A digit string that does not start with `0` has a positive value. */
  lemma {:induction false} PositiveDigits(x: string)
    requires |x| >= 1 && x[0] != '0'
    requires forall i :: 0 <= i < |x| ==> '0' <= x[i] <= '9'
    ensures DigitsValue(x) >= 1
    decreases |x|
  {
    if |x| > 1 {
      var init := x[..|x| - 1];
      assert init[0] == x[0];
      PositiveDigits(init);
    } else {
      assert x[..0] == [];
    }
  }

  lemma DivModTen(x: nat, a: nat, y: nat, b: nat)
    requires a < 10 && b < 10 && x * 10 + a == y * 10 + b
    ensures x == y && a == b
  {
  }

  /** The value of a digit string is the value of all but its last digit,
      times ten, plus its last digit. */
  lemma DigitsValueLast(s: string)
    requires |s| >= 1 && forall i :: 0 <= i < |s| ==> '0' <= s[i] <= '9'
    ensures var init := s[..|s| - 1];
      && (forall i :: 0 <= i < |init| ==> '0' <= init[i] <= '9')
      && (|s| > 1 ==> init[0] == s[0])
      && DigitsValue(s) == DigitsValue(init) * 10 + ((s[|s| - 1] as int) - ('0' as int))
  {
  }

  lemma SameInitLast<T>(s: seq<T>, t: seq<T>)
    requires |s| >= 1 && |t| >= 1
    requires s[..|s| - 1] == t[..|t| - 1] && s[|s| - 1] == t[|t| - 1]
    ensures s == t
  {
    InitLast(s);
    InitLast(t);
  }

  /** Two canonical index strings with the same value are the same string. */
  lemma {:induction false} DigitsInjective(s: string, t: string)
    requires IsIndexString(s) && IsIndexString(t)
    requires DigitsValue(s) == DigitsValue(t)
    ensures s == t
    decreases |s|
  {
    var si, ti := s[..|s| - 1], t[..|t| - 1];
    DigitsValueLast(s);
    DigitsValueLast(t);
    DivModTen(DigitsValue(si), (s[|s| - 1] as int) - ('0' as int), DigitsValue(ti), (t[|t| - 1] as int) - ('0' as int));
    if |s| > 1 && |t| > 1 {
      DigitsInjective(si, ti);
      SameInitLast(s, t);
    } else if |s| > 1 {
      PositiveDigits(si);
      assert false;
    } else if |t| > 1 {
      PositiveDigits(ti);
      assert false;
    } else {
      SameInitLast(s, t);
    }
  }

  lemma LookupAfterReplace(ptr: Value, s: string, c: Value)
    requires Replace(ptr, s, c).Some?
    ensures Truthy(Replace(ptr, s, c).value)
    ensures Lookup(Replace(ptr, s, c).value, s) == c
  {
    if ptr.Arr? {
      IndexKeyLookup(ptr.items, s, c);
    }
  }

  /** One level of `Assign`: the container rebuilt around the new child. */
  lemma AssignStep(ptr: Value, a: seq<string>, last: string, v: Value)
    requires a != []
    requires Assign(ptr, a, last, v).Some?
    ensures Truthy(ptr)
    ensures Assign(Lookup(ptr, a[0]), a[1..], last, v).Some?
    ensures Replace(ptr, a[0], Assign(Lookup(ptr, a[0]), a[1..], last, v).value)
         == Assign(ptr, a, last, v)
  {
  }

  lemma WalkStep(ptr: Value, b: seq<string>)
    requires b != []
    ensures Walk(ptr, b) == Walk(StepInto(ptr, b[0]), b[1..])
  {
  }

  lemma DivergeTail(a: seq<string>, last: string, b: seq<string>, i: nat)
    requires 0 < i <= |a| && i < |b|
    requires a[..i] == b[..i]
    requires (if i == |a| then last else a[i]) != b[i]
    ensures b[0] == a[0]
    ensures a[1..][..i - 1] == b[1..][..i - 1]
    ensures (if i - 1 == |a[1..]| then last else a[1..][i - 1]) != b[1..][i - 1]
  {
    assert b[0] == b[..i][0] == a[..i][0] == a[0];
    assert a[1..][..i - 1] == a[..i][1..];
    assert b[1..][..i - 1] == b[..i][1..];
  }

  /** Setting `last` on an object leaves its other properties alone. */
  lemma AssignHereOther(ptr: Value, last: string, v: Value, step: string)
    requires Assign(ptr, [], last, v).Some? && step != last
    ensures StepInto(Assign(ptr, [], last, v).value, step) == StepInto(ptr, step)
  {
  }

  /** Rebuilding the container around the child at `a[0]` leaves its other
      properties alone, and makes the child at `a[0]` the rebuilt one. */
  lemma AssignThrough(ptr: Value, a: seq<string>, last: string, v: Value, step: string)
    requires a != [] && Assign(ptr, a, last, v).Some?
    ensures Truthy(ptr) && StepInto(ptr, a[0]) == Lookup(ptr, a[0])
    ensures Assign(Lookup(ptr, a[0]), a[1..], last, v).Some?
    ensures step != a[0] ==> StepInto(Assign(ptr, a, last, v).value, step) == StepInto(ptr, step)
    ensures StepInto(Assign(ptr, a, last, v).value, a[0]) == Assign(Lookup(ptr, a[0]), a[1..], last, v).value
  {
    AssignStep(ptr, a, last, v);
    var c := Assign(Lookup(ptr, a[0]), a[1..], last, v).value;
    LookupAfterReplace(ptr, a[0], c);
    if step != a[0] {
      LookupReplaceOther(ptr, a[0], step, c);
    }
  }

  lemma {:induction false} WalkAssignDivergeAt(ptr: Value, a: seq<string>, last: string, v: Value, b: seq<string>, i: nat)
    requires Assign(ptr, a, last, v).Some?
    requires i <= |a| && i < |b|
    requires a[..i] == b[..i]
    requires (if i == |a| then last else a[i]) != b[i]
    ensures Walk(Assign(ptr, a, last, v).value, b) == Walk(ptr, b)
    decreases |a|
  {
    var r := Assign(ptr, a, last, v).value;
    WalkStep(r, b);
    WalkStep(ptr, b);
    if a == [] {
      AssignHereOther(ptr, last, v, b[0]);
    } else if i == 0 {
      AssignThrough(ptr, a, last, v, b[0]);
    } else {
      DivergeTail(a, last, b, i);
      AssignThrough(ptr, a, last, v, b[0]);
      WalkAssignDivergeAt(Lookup(ptr, a[0]), a[1..], last, v, b[1..], i - 1);
    }
  }

  lemma WalkAssignDiverge(ptr: Value, a: seq<string>, last: string, v: Value, b: seq<string>)
    requires Assign(ptr, a, last, v).Some?
    requires Diverge(a + [last], b)
    ensures Walk(Assign(ptr, a, last, v).value, b) == Walk(ptr, b)
  {
    var i :| 0 <= i < |a + [last]| && i < |b| && (a + [last])[..i] == b[..i] && (a + [last])[i] != b[i];
    SnocAt(a, last, i);
    WalkAssignDivergeAt(ptr, a, last, v, b, i);
  }

  /** Writing one path leaves every read of a diverging path unchanged:
      iterator and index variables with different names do not interfere. */
  lemma SetFrame(data: Value, p: string, v: Value, q: string)
    requires SetValue(data, p, v).Some?
    requires !Negated(q)
    requires Diverge(Segments(p), Segments(q))
    ensures GetValue(SetValue(data, p, v).value, q) == GetValue(data, q)
  {
    var steps := Segments(p);
    var init, last := Init(steps), Last(steps);
    InitLast(steps);
    WalkAssignDiverge(data, init, last, v, Segments(q));
    var d' := SetValue(data, p, v).value;
    assert d' == Assign(data, init, last, v).value;
    assert GetValue(d', q) == Walk(d', Segments(q));
    assert GetValue(data, q) == Walk(data, Segments(q));
  }
}
