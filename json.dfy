/**
 * The JSON-like values carried by bootstrap documents and dispatch entries.
 * Objects keep their keys in insertion order, as JavaScript objects do, so the
 * order in which the converter emits and assembles items is observable.
 */
module Json {
  import opened Wrappers

  datatype Json =
    | Null
    | Bool(b: bool)
    | Num(n: int)
    | Str(s: string)
    | Arr(items: seq<Json>)
    | Obj(fields: seq<(string, Json)>)

  type Fields = seq<(string, Json)>

  /** The keys of an object, in order. */
  function Keys(fs: Fields): (ks: seq<string>)
    ensures |ks| == |fs|
    ensures forall i :: 0 <= i < |fs| ==> ks[i] == fs[i].0
  {
    if fs == [] then [] else [fs[0].0] + Keys(fs[1..])
  }

  /** No key occurs twice: what every JavaScript object guarantees. */
  predicate UniqueKeys(fs: Fields) {
    fs == [] || (fs[0].0 !in Keys(fs[1..]) && UniqueKeys(fs[1..]))
  }

  /** The value stored under `k`, if any (JavaScript `o[k]`). */
  function Lookup(fs: Fields, k: string): (r: Option<Json>)
    ensures r.None? <==> k !in Keys(fs)
  {
    if fs == [] then None
    else if fs[0].0 == k then Some(fs[0].1)
    else Lookup(fs[1..], k)
  }

  /** Assignment `o[k] = v`: an existing key keeps its place, a new one goes last. */
  function Set(fs: Fields, k: string, v: Json): (r: Fields)
    ensures Keys(r) == if k in Keys(fs) then Keys(fs) else Keys(fs) + [k]
    ensures Lookup(r, k) == Some(v)
    ensures forall k' :: k' != k ==> Lookup(r, k') == Lookup(fs, k')
  {
    if fs == [] then [(k, v)]
    else if fs[0].0 == k then [(k, v)] + fs[1..]
    else [fs[0]] + Set(fs[1..], k, v)
  }

  /** `delete o[k]`: every other key keeps its value and its order. */
  function Remove(fs: Fields, k: string): (r: Fields)
    ensures k !in Keys(r)
    ensures |r| <= |fs|
    ensures forall k' :: k' != k ==> Lookup(r, k') == Lookup(fs, k')
    ensures forall p :: p in r ==> p in fs
  {
    if fs == [] then []
    else if fs[0].0 == k then Remove(fs[1..], k)
    else [fs[0]] + Remove(fs[1..], k)
  }

  /**
   * Shallow merge `Object.assign(o, more)`: the keys of `more` are assigned in
   * order, so the keys of `fs` keep their places and new ones follow.
   */
  function Merge(fs: Fields, more: Fields): (r: Fields)
    ensures forall k :: k in Keys(r) <==> k in Keys(fs) || k in Keys(more)
    ensures Keys(fs) <= Keys(r)
    ensures forall k :: k !in Keys(more) ==> Lookup(r, k) == Lookup(fs, k)
    decreases |more|
  {
    if more == [] then fs
    else
      var next := Set(fs, more[0].0, more[0].1);
      assert Keys(fs) <= Keys(next);
      assert Keys(more) == [more[0].0] + Keys(more[1..]);
      Merge(next, more[1..])
  }

  /** The fields of an object value; any other value has none. */
  function FieldsOf(v: Json): Fields {
    if v.Obj? then v.fields else []
  }

  /** JavaScript truthiness of a value. */
  predicate Truthy(v: Json) {
    match v
    case Null => false
    case Bool(b) => b
    case Num(n) => n != 0
    case Str(s) => s != ""
    case Arr(_) => true
    case Obj(_) => true
  }

  /** Every object in a value has unique keys. */
  predicate WellFormed(v: Json)
    decreases v
  {
    match v
    case Arr(xs) => forall i :: 0 <= i < |xs| ==> WellFormed(xs[i])
    case Obj(fs) => UniqueKeys(fs) && forall i :: 0 <= i < |fs| ==> WellFormed(fs[i].1)
    case _ => true
  }

  lemma {:induction false} LookupIn(fs: Fields, k: string)
    requires Lookup(fs, k).Some?
    ensures exists i :: 0 <= i < |fs| && fs[i] == (k, Lookup(fs, k).value)
  {
    if fs[0].0 != k {
      LookupIn(fs[1..], k);
      var i :| 0 <= i < |fs[1..]| && fs[1..][i] == (k, Lookup(fs, k).value);
      assert fs[i + 1] == (k, Lookup(fs, k).value);
    } else {
      assert fs[0] == (k, Lookup(fs, k).value);
    }
  }

  /** A value stored in a well-formed object is well-formed. */
  lemma LookupWellFormed(fs: Fields, k: string)
    requires WellFormed(Obj(fs)) && Lookup(fs, k).Some?
    ensures WellFormed(Lookup(fs, k).value)
  {
    LookupIn(fs, k);
  }

  lemma {:induction false} RemoveUnique(fs: Fields, k: string)
    requires UniqueKeys(fs)
    ensures UniqueKeys(Remove(fs, k))
  {
    if fs != [] {
      RemoveUnique(fs[1..], k);
      if fs[0].0 != k {
        var r := Remove(fs[1..], k);
        assert fs[0].0 !in Keys(r) by {
          assert Lookup(r, fs[0].0) == Lookup(fs[1..], fs[0].0);
        }
        assert ([fs[0]] + r)[1..] == r;
      }
    }
  }

  /** Removing a key that is not there changes nothing. */
  lemma {:induction false} RemoveAbsent(fs: Fields, k: string)
    requires k !in Keys(fs)
    ensures Remove(fs, k) == fs
  {
    if fs != [] {
      assert Keys(fs) == [fs[0].0] + Keys(fs[1..]);
      RemoveAbsent(fs[1..], k);
      assert [fs[0]] + fs[1..] == fs;
    }
  }

  /** Assigning a key that is not there appends it. */
  lemma {:induction false} SetFresh(fs: Fields, k: string, v: Json)
    requires k !in Keys(fs)
    ensures Set(fs, k, v) == fs + [(k, v)]
  {
    if fs != [] {
      assert fs[0].0 != k && k !in Keys(fs[1..]) by {
        assert Keys(fs)[0] == fs[0].0;
        assert Keys(fs[1..]) == Keys(fs)[1..];
      }
      calc {
        Set(fs, k, v);
        [fs[0]] + Set(fs[1..], k, v);
        { SetFresh(fs[1..], k, v); }
        [fs[0]] + (fs[1..] + [(k, v)]);
        { AppendAssoc([fs[0]], fs[1..], [(k, v)]); assert [fs[0]] + fs[1..] == fs; }
        fs + [(k, v)];
      }
    }
  }

  lemma KeysAppend(a: Fields, b: Fields)
    ensures Keys(a + b) == Keys(a) + Keys(b)
  {
    var ks := Keys(a + b);
    assert forall i :: 0 <= i < |ks| ==> ks[i] == (Keys(a) + Keys(b))[i];
  }

  /** The head and the tail of a non-empty sequence with more appended. */
  lemma HeadTailAppend<T>(a: seq<T>, b: seq<T>)
    requires a != []
    ensures (a + b)[0] == a[0] && (a + b)[1..] == a[1..] + b
  {
  }

  /** A sequence is its prefix and its suffix at `j`; the suffix starts with element `j`. */
  lemma SplitAt<T>(s: seq<T>, j: nat)
    requires j <= |s|
    ensures s[..j] + s[j..] == s
    ensures j < |s| ==> s[j..] != [] && s[j..][0] == s[j] && s[j..][1..] == s[j + 1..]
  {
  }

  lemma AppendAssoc<T>(a: seq<T>, b: seq<T>, c: seq<T>)
    ensures (a + b) + c == a + (b + c)
  {
  }
  /** Moving the head of `b` to the end of `a`. */
  lemma ConsAssoc<T>(a: seq<T>, b: seq<T>)
    requires b != []
    ensures a + b == (a + [b[0]]) + b[1..]
  {
    assert b == [b[0]] + b[1..];
    AppendAssoc(a, [b[0]], b[1..]);
  }


  /** No key of `more` is already a key of `fs`. */
  predicate KeysFresh(fs: Fields, more: Fields) {
    forall k :: k in Keys(more) ==> k !in Keys(fs)
  }

  /** Setting the first new field keeps the rest new. */
  lemma {:induction false} KeysFreshTail(fs: Fields, more: Fields)
    requires more != [] && UniqueKeys(more) && KeysFresh(fs, more)
    ensures more[0].0 !in Keys(fs)
    ensures UniqueKeys(more[1..]) && KeysFresh(fs + [more[0]], more[1..])
  {
    assert Keys(more)[0] == more[0].0;
    assert Keys(more[1..]) == Keys(more)[1..];
    KeysAppend(fs, [more[0]]);
    assert Keys(fs + [more[0]]) == Keys(fs) + [more[0].0];
  }

  /** Merging fields whose keys are all new appends them in order. */
  lemma {:induction false} MergeFresh(fs: Fields, more: Fields)
    requires UniqueKeys(more) && KeysFresh(fs, more)
    ensures Merge(fs, more) == fs + more
    decreases |more|
  {
    if more != [] {
      KeysFreshTail(fs, more);
      SetFresh(fs, more[0].0, more[0].1);
      MergeFresh(fs + [more[0]], more[1..]);
      ConsAssoc(fs, more);
    }
  }

  /** After a merge, a key of `more` holds the value `more` gives it, and any other key keeps its value. */
  lemma {:induction false} MergeLookup(fs: Fields, more: Fields, k: string)
    requires UniqueKeys(more)
    ensures Lookup(Merge(fs, more), k) == if k in Keys(more) then Lookup(more, k) else Lookup(fs, k)
    decreases |more|
  {
    if more != [] {
      assert Keys(more)[0] == more[0].0;
      assert Keys(more[1..]) == Keys(more)[1..];
      MergeLookup(Set(fs, more[0].0, more[0].1), more[1..], k);
    }
  }

  lemma MergeLookupAll(fs: Fields, more: Fields)
    requires UniqueKeys(more)
    ensures forall k :: Lookup(Merge(fs, more), k) == if k in Keys(more) then Lookup(more, k) else Lookup(fs, k)
  {
    forall k ensures Lookup(Merge(fs, more), k) == if k in Keys(more) then Lookup(more, k) else Lookup(fs, k) {
      MergeLookup(fs, more, k);
    }
  }

  /** Assigning a key and then deleting it is deleting it. */
  lemma {:induction false} RemoveSet(fs: Fields, k: string, v: Json)
    ensures Remove(Set(fs, k, v), k) == Remove(fs, k)
  {
    if fs != [] && fs[0].0 != k {
      RemoveSet(fs[1..], k, v);
      assert Set(fs, k, v)[1..] == Set(fs[1..], k, v);
    }
  }

  /** Assigning the last key of an object replaces its value in place. */
  lemma {:induction false} SetLast(a: Fields, k: string, v: Json, w: Json)
    requires k !in Keys(a)
    ensures Set(a + [(k, v)], k, w) == a + [(k, w)]
  {
    if a == [] {
      assert [] + [(k, v)] == [(k, v)];
    } else {
      var x, rest := a[0], a[1..];
      assert x.0 != k && k !in Keys(rest) by {
        assert Keys(a)[0] == x.0;
        assert Keys(rest) == Keys(a)[1..];
      }
      var b := a + [(k, v)];
      HeadTailAppend(a, [(k, v)]);
      calc {
        Set(b, k, w);
        [x] + Set(rest + [(k, v)], k, w);
        { SetLast(rest, k, v, w); }
        [x] + (rest + [(k, w)]);
        { AppendAssoc([x], rest, [(k, w)]); }
        ([x] + rest) + [(k, w)];
        { assert [x] + rest == a; }
        a + [(k, w)];
      }
    }
  }

  /** The value under the last key of an object. */
  lemma LookupLast(a: Fields, k: string, v: Json)
    requires k !in Keys(a)
    ensures Lookup(a + [(k, v)], k) == Some(v)
  {
    SetFresh(a, k, v);
  }

  /** Removing the last key of an object. */
  lemma {:induction false} RemoveLast(a: Fields, k: string, v: Json)
    requires k !in Keys(a)
    ensures Remove(a + [(k, v)], k) == a
  {
    if a == [] {
      assert [] + [(k, v)] == [(k, v)];
    } else {
      assert Keys(a)[0] == a[0].0;
      assert Keys(a[1..]) == Keys(a)[1..];
      assert (a + [(k, v)])[1..] == a[1..] + [(k, v)];
      RemoveLast(a[1..], k, v);
      assert [a[0]] + a[1..] == a;
    }
  }
}
