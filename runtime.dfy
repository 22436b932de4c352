/** The hand-written runtime class: the data context is a field that
    `_setValue` and `_forEach` update in place. */
module Runtime {
  import opened Values
  import Paths
  import opened Program
  import opened Render

  /** How a `_forEach` call ends: whether every write succeeded (a failed
      write throws and ends the loop), the data afterwards, and the data
      each call of the callback started from. */
  datatype Outcome = Outcome(ok: bool, data: Value, seen: seq<Value>)

  /** The passes over `keys`: before each, the index is set to the key and
      then the iterator to the list's entry; `fn` is the callback's effect
      on the data. */
  function RunPasses(keys: seq<string>, list: Value, lv: LoopVars, fn: Value -> Value, d: Value, seen: seq<Value>): Outcome
    decreases |keys|
  {
    if keys == [] then Outcome(true, d, seen)
    else
      match BindLoopVars(d, lv, list, keys[0])
      case Ok(d2) => RunPasses(keys[1..], list, lv, fn, fn(d2), seen + [d2])
      case Err(_) => Outcome(false, IndexWritten(d, lv, keys[0]), seen)
  }

  /** The data when binding the loop variables fails: the index write,
      which comes first, may have succeeded. */
  function IndexWritten(d: Value, lv: LoopVars, k: string): Value {
    match Paths.SetValue(d, lv.index, Str(k))
    case Some(d1) => d1
    case None => d
  }

  /** `_forEach(iteratorName, indexName, varName, fn)` on the data `d`. */
  function ForEachOf(d: Value, lv: LoopVars, fn: Value -> Value): Outcome {
    var origItem := Paths.GetValue(d, lv.item);
    var origIndex := Paths.GetValue(d, lv.index);
    var list := Paths.GetValue(d, lv.list);
    var o := RunPasses(ForInKeys(list), list, lv, fn, d, []);
    if !o.ok then o
    else
      match Paths.SetValue(o.data, lv.item, origItem)
      case None => o.(ok := false)
      case Some(d1) =>
        match Paths.SetValue(d1, lv.index, origIndex)
        case None => Outcome(false, d1, o.seen)
        case Some(d2) => Outcome(true, d2, o.seen)
  }

  /** The data each call of `fn` starts from, up to the first failed
      write. */
  function PassStarts(keys: seq<string>, list: Value, lv: LoopVars, fn: Value -> Value, d: Value): seq<Value>
    decreases |keys|
  {
    if keys == [] then []
    else
      match BindLoopVars(d, lv, list, keys[0])
      case Ok(d2) => [d2] + PassStarts(keys[1..], list, lv, fn, fn(d2))
      case Err(_) => []
  }

  /** The passes add the data each call of `fn` starts from to `seen`: one
      entry per key when every write succeeds. */
  lemma {:induction false} RunPassesSeen(keys: seq<string>, list: Value, lv: LoopVars, fn: Value -> Value, d: Value,
                                         seen: seq<Value>)
    ensures var o := RunPasses(keys, list, lv, fn, d, seen);
      o.seen == seen + PassStarts(keys, list, lv, fn, d) &&
      (o.ok ==> |PassStarts(keys, list, lv, fn, d)| == |keys|)
    decreases |keys|
  {
    if keys != [] {
      var b := BindLoopVars(d, lv, list, keys[0]);
      if b.Ok? {
        var rest := PassStarts(keys[1..], list, lv, fn, fn(b.value));
        RunPassesSeen(keys[1..], list, lv, fn, fn(b.value), seen + [b.value]);
        assert PassStarts(keys, list, lv, fn, d) == [b.value] + rest;
        AppendAssoc(seen, [b.value], rest);
      }
    }
  }

  /** Pass `i` starts from data with the loop variables bound for key `i`. */
  lemma {:induction false} PassStartsBound(keys: seq<string>, list: Value, lv: LoopVars, fn: Value -> Value, d: Value,
                                           i: nat)
    requires !Paths.Negated(lv.item)
    requires i < |PassStarts(keys, list, lv, fn, d)|
    ensures i < |keys| && Bound(PassStarts(keys, list, lv, fn, d)[i], lv, list, keys[i])
    decreases i
  {
    var d2 := BindLoopVars(d, lv, list, keys[0]).value;
    var ps := PassStarts(keys, list, lv, fn, d);
    assert ps == [d2] + PassStarts(keys[1..], list, lv, fn, fn(d2));
    if i == 0 {
      BindLoopVarsReads(d, lv, list, keys[0]);
    } else {
      PassStartsBound(keys[1..], list, lv, fn, fn(d2), i - 1);
      assert ps[i] == PassStarts(keys[1..], list, lv, fn, fn(d2))[i - 1];
      assert keys[1..][i - 1] == keys[i];
    }
  }

  /** `_forEach` is the passes followed by the restoring writes of the
      emitted loop. */
  lemma ForEachPasses(d: Value, lv: LoopVars, fn: Value -> Value)
    ensures var list := Paths.GetValue(d, lv.list); var o := RunPasses(ForInKeys(list), list, lv, fn, d, []);
      ForEachOf(d, lv, fn).seen == o.seen &&
      (ForEachOf(d, lv, fn).ok ==>
         o.ok && RestoreLoopVars(o.data, lv, Paths.GetValue(d, lv.item), Paths.GetValue(d, lv.index))
              == Ok(ForEachOf(d, lv, fn).data))
  {
    var list := Paths.GetValue(d, lv.list);
    var o := RunPasses(ForInKeys(list), list, lv, fn, d, []);
    var oi, ox := Paths.GetValue(d, lv.item), Paths.GetValue(d, lv.index);
    var f := ForEachOf(d, lv, fn);
    if !o.ok {
      assert f == o;
    } else {
      var s1 := Paths.SetValue(o.data, lv.item, oi);
      if s1.None? {
        assert f == o.(ok := false);
      } else {
        var s2 := Paths.SetValue(s1.value, lv.index, ox);
        if s2.None? {
          assert f == Outcome(false, s1.value, o.seen);
        } else {
          assert f == Outcome(true, s2.value, o.seen);
          assert RestoreLoopVars(o.data, lv, oi, ox) == Ok(s2.value);
        }
      }
    }
  }

  /** `fn` is called once per key, each time with the loop variables bound
      for that key. */
  lemma ForEachVisits(d: Value, lv: LoopVars, fn: Value -> Value)
    requires !Paths.Negated(lv.item)
    requires ForEachOf(d, lv, fn).ok
    ensures var list := Paths.GetValue(d, lv.list); var keys := ForInKeys(list); var o := ForEachOf(d, lv, fn);
      |o.seen| == |keys| &&
      forall i :: 0 <= i < |keys| ==> Paths.GetValue(o.seen[i], lv.item) == Lookup(list, keys[i])
    ensures var list := Paths.GetValue(d, lv.list); var keys := ForInKeys(list); var o := ForEachOf(d, lv, fn);
      !Paths.Negated(lv.index) && Paths.Diverge(Paths.Segments(lv.item), Paths.Segments(lv.index)) ==>
        forall i :: 0 <= i < |keys| ==> Paths.GetValue(o.seen[i], lv.index) == Str(keys[i])
  {
    var list := Paths.GetValue(d, lv.list);
    var keys := ForInKeys(list);
    var ps := PassStarts(keys, list, lv, fn, d);
    ForEachPasses(d, lv, fn);
    RunPassesSeen(keys, list, lv, fn, d, []);
    AppendEmpty(ps);
    assert ForEachOf(d, lv, fn).seen == ps && |ps| == |keys|;
    forall i | 0 <= i < |keys|
      ensures Paths.GetValue(ps[i], lv.item) == Lookup(list, keys[i])
      ensures !Paths.Negated(lv.index) && Paths.Diverge(Paths.Segments(lv.item), Paths.Segments(lv.index)) ==>
        Paths.GetValue(ps[i], lv.index) == Str(keys[i])
    {
      PassStartsBound(keys, list, lv, fn, d, i);
    }
  }

  /** After `_forEach` the iterator and index paths read what they read
      before it. */
  lemma ForEachRestores(d: Value, lv: LoopVars, fn: Value -> Value)
    requires !Paths.Negated(lv.item) && !Paths.Negated(lv.index)
    requires lv.item == lv.index || Paths.Diverge(Paths.Segments(lv.item), Paths.Segments(lv.index))
    requires ForEachOf(d, lv, fn).ok
    ensures Paths.GetValue(ForEachOf(d, lv, fn).data, lv.item) == Paths.GetValue(d, lv.item)
    ensures Paths.GetValue(ForEachOf(d, lv, fn).data, lv.index) == Paths.GetValue(d, lv.index)
  {
    var list := Paths.GetValue(d, lv.list);
    var o := RunPasses(ForInKeys(list), list, lv, fn, d, []);
    ForEachPasses(d, lv, fn);
    RestoreReads(o.data, lv, Paths.GetValue(d, lv.item), Paths.GetValue(d, lv.index));
  }

  class NodeRuntime {
    /** `this.data`. */
    var data: Value

    constructor (data: Value)
      ensures this.data == data
    {
      this.data := data;
    }

    /** `_setValue(this.data, path, value)`: the container the path's
        prefix resolves to takes the last step as a property. */
    method SetValue(path: string, v: Value)
      requires Paths.CanSet(data, path)
      modifies this
      ensures Paths.SetValue(old(data), path, v).Some?
      ensures data == Paths.SetValue(old(data), path, v).value
      ensures !Paths.Negated(path) ==> Paths.GetValue(data, path) == v
      ensures forall k :: k != Paths.Last(Paths.Segments(path)) ==>
        Lookup(Paths.Walk(data, Paths.Init(Paths.Segments(path))), k)
          == Lookup(Paths.Walk(old(data), Paths.Init(Paths.Segments(path))), k)
    {
      Paths.SetValueSucceeds(data, path, v);
      var d := data;
      data := Paths.SetValue(d, path, v).value;
      forall k | k != Paths.Last(Paths.Segments(path))
        ensures Lookup(Paths.Walk(data, Paths.Init(Paths.Segments(path))), k)
             == Lookup(Paths.Walk(d, Paths.Init(Paths.Segments(path))), k)
      {
        Paths.SetKeepsSiblings(d, path, v, k);
      }
      if !Paths.Negated(path) {
        Paths.GetAfterSet(d, path, v);
      }
    }

    /** `_forEach(iteratorName, indexName, varName, fn)`, where `fn` is
        the callback's effect on the data. Returns whether it ran to the
        end and the data each call of `fn` started from. */
    method ForEach(lv: LoopVars, fn: Value -> Value) returns (ok: bool, seen: seq<Value>)
      modifies this
      ensures Outcome(ok, data, seen) == ForEachOf(old(data), lv, fn)
    {
      var origItem := Paths.GetValue(data, lv.item);
      var origIndex := Paths.GetValue(data, lv.index);
      var list := Paths.GetValue(data, lv.list);
      var keys := ForInKeys(list);
      ghost var d0 := data;
      seen := [];
      var i := 0;
      while i < |keys|
        invariant 0 <= i <= |keys|
        invariant RunPasses(keys, list, lv, fn, d0, []) == RunPasses(keys[i..], list, lv, fn, data, seen)
        decreases |keys| - i
      {
        var k := keys[i];
        assert keys[i..][0] == k && keys[i..][1..] == keys[i + 1..];
        Paths.SetValueSucceeds(data, lv.index, Str(k));
        if !Paths.CanSet(data, lv.index) {
          return false, seen;
        }
        SetValue(lv.index, Str(k));
        Paths.SetValueSucceeds(data, lv.item, Lookup(list, k));
        if !Paths.CanSet(data, lv.item) {
          return false, seen;
        }
        SetValue(lv.item, Lookup(list, k));
        seen := seen + [data];
        data := fn(data);
        i := i + 1;
      }
      assert keys[i..] == [];
      Paths.SetValueSucceeds(data, lv.item, origItem);
      if !Paths.CanSet(data, lv.item) {
        return false, seen;
      }
      SetValue(lv.item, origItem);
      Paths.SetValueSucceeds(data, lv.index, origIndex);
      if !Paths.CanSet(data, lv.index) {
        return false, seen;
      }
      SetValue(lv.index, origIndex);
      ok := true;
    }

    /** `_getSubTemplate(templateName)`: the value at the path must be a
        renderer class, which is constructed on the same data. `templates`
        holds the compiled program of each renderer class. */
    function GetSubTemplate(templateName: string, templates: map<string, Parsed>, parse: Parser): (r: Result<Rendered, RenderError>)
      reads this
      ensures var t := Paths.GetValue(data, templateName);
        r.Ok? ==> t.Ctor? && t.name in templates && r == Render.Render(templates[t.name], data, parse)
      ensures var t := Paths.GetValue(data, templateName);
        !(t.Ctor? && t.name in templates) ==> r == Err(NotAConstructor)
    {
      var t := Paths.GetValue(data, templateName);
      if t.Ctor? && t.name in templates then Render.Render(templates[t.name], data, parse) else Err(NotAConstructor)
    }
  }
}
