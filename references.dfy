/**
 * The reference resolver. Content of components and layouts may hold reference
 * nodes `{_ref: <path>}`. Going to dispatch form, a reference node receives a
 * copy of its target's own fields, one level deep; going back to bootstrap form,
 * the node is reduced to `{_ref: <path>}` again and the copied fields are handed
 * back to the target's slot.
 */
module References {
  import opened Wrappers
  import opened Json
  import Paths

  const RefKey: string := "_ref"
  const InstancesKey: string := "instances"

  /** The target path of a reference node: an object whose `_ref` holds a string. */
  function RefOf(v: Json): (r: Option<string>)
    ensures r.Some? <==> v.Obj? && Lookup(v.fields, RefKey).Some? && Lookup(v.fields, RefKey).value.Str?
    ensures r.Some? ==> Lookup(v.fields, RefKey) == Some(Str(r.value))
  {
    if v.Obj? then
      var t := Lookup(v.fields, RefKey);
      if t.Some? && t.value.Str? then Some(t.value.s) else None
    else None
  }

  /** The reference node in bootstrap form: its target and nothing else. */
  function RefNode(p: string): (v: Json)
    ensures RefOf(v) == Some(p)
  {
    Obj([(RefKey, Str(p))])
  }

  /** Every reference in a tree is in bootstrap form. */
  predicate Canonical(v: Json)
    decreases v
  {
    match v
    case Arr(xs) => forall i :: 0 <= i < |xs| ==> Canonical(xs[i])
    case Obj(fs) =>
      if RefOf(v).Some? then v == RefNode(RefOf(v).value)
      else forall i :: 0 <= i < |fs| ==> Canonical(fs[i].1)
    case _ => true
  }

  /** The targets of the references in a tree; the inside of a reference node is not searched. */
  function Refs(v: Json): set<string>
    decreases v
  {
    if RefOf(v).Some? then {RefOf(v).value}
    else match v
      case Arr(xs) => RefsIn(xs)
      case Obj(fs) => RefsInFields(fs)
      case _ => {}
  }

  function RefsIn(xs: seq<Json>): set<string>
    decreases xs
  {
    if xs == [] then {} else Refs(xs[0]) + RefsIn(xs[1..])
  }

  function RefsInFields(fs: Fields): set<string>
    decreases fs
  {
    if fs == [] then {} else (assert fs[0].1 < fs[0]; Refs(fs[0].1)) + RefsInFields(fs[1..])
  }

  /** The item variant at `loc` in a bootstrap document, if the document has one. */
  function Variant(doc: Fields, loc: Paths.Location): Option<Fields>
    requires loc.Item?
  {
    var items := Lookup(doc, Paths.SectionKey(loc.section));
    var item := if items.Some? then Lookup(FieldsOf(items.value), loc.name) else None;
    if item.None? then None
    else if loc.instance.None? then Some(Remove(FieldsOf(item.value), InstancesKey))
    else
      var instances := Lookup(FieldsOf(item.value), InstancesKey);
      var inst := if instances.Some? then Lookup(FieldsOf(instances.value), loc.instance.value) else None;
      if inst.Some? then Some(FieldsOf(inst.value)) else None
  }

  /**
   * The fields a reference to `p` receives: the target variant's own fields
   * (never its instances), or none when the path names no variant in the
   * document.
   */
  function TargetFields(doc: Fields, p: string): (r: Fields)
    ensures r != [] ==> Paths.Decode(p).Item? && !Paths.Decode(p).meta
    ensures Paths.Decode(p).Item? && Paths.Decode(p).instance.None? ==> InstancesKey !in Keys(r)
  {
    var loc := Paths.Decode(p);
    if loc.Item? && !loc.meta then
      var t := Variant(doc, loc);
      if t.Some? then t.value else []
    else []
  }

  /** What a reference node to `p` holding `fs` becomes in dispatch form. */
  function Inline(fs: Fields, doc: Fields, p: string): Fields {
    Merge(fs, Remove(TargetFields(doc, p), RefKey))
  }

  /** Forward resolution of a content tree, one level deep. */
  function Resolve(v: Json, doc: Fields): (r: Json)
    decreases v
  {
    match v
    case Arr(xs) => Arr(ResolveAll(xs, doc))
    case Obj(fs) =>
      if RefOf(v).Some? then Obj(Inline(fs, doc, RefOf(v).value))
      else Obj(ResolveFields(fs, doc))
    case _ => v
  }

  function ResolveAll(xs: seq<Json>, doc: Fields): (r: seq<Json>)
    decreases xs
    ensures |r| == |xs|
  {
    if xs == [] then [] else [Resolve(xs[0], doc)] + ResolveAll(xs[1..], doc)
  }

  function ResolveFields(fs: Fields, doc: Fields): (r: Fields)
    decreases fs
    ensures Keys(r) == Keys(fs)
  {
    if fs == [] then []
    else (assert fs[0].1 < fs[0]; [(fs[0].0, Resolve(fs[0].1, doc))]) + ResolveFields(fs[1..], doc)
  }

  /** Reverse resolution: every reference node is reduced to its target. */
  function Reduce(v: Json): (r: Json)
    decreases v
  {
    match v
    case Arr(xs) => Arr(ReduceAll(xs))
    case Obj(fs) =>
      if RefOf(v).Some? then RefNode(RefOf(v).value)
      else Obj(ReduceFields(fs))
    case _ => v
  }

  function ReduceAll(xs: seq<Json>): (r: seq<Json>)
    decreases xs
    ensures |r| == |xs|
  {
    if xs == [] then [] else [Reduce(xs[0])] + ReduceAll(xs[1..])
  }

  function ReduceFields(fs: Fields): (r: Fields)
    decreases fs
    ensures Keys(r) == Keys(fs)
  {
    if fs == [] then []
    else (assert fs[0].1 < fs[0]; [(fs[0].0, Reduce(fs[0].1))]) + ReduceFields(fs[1..])
  }

  /** A reference node's fields other than `_ref`, to be handed back to its target. */
  type Move = (string, Fields)

  /**
   * The fields that reduction takes off the reference nodes of a tree, in
   * document order, each with the path of its target. A node carrying only
   * `_ref` hands back nothing.
   */
  function Moves(v: Json): seq<Move>
    decreases v
  {
    if RefOf(v).Some? then
      var rest := Remove(v.fields, RefKey);
      if rest == [] then [] else [(RefOf(v).value, rest)]
    else match v
      case Arr(xs) => MovesIn(xs)
      case Obj(fs) => MovesInFields(fs)
      case _ => []
  }

  function MovesIn(xs: seq<Json>): seq<Move>
    decreases xs
  {
    if xs == [] then [] else Moves(xs[0]) + MovesIn(xs[1..])
  }

  function MovesInFields(fs: Fields): seq<Move>
    decreases fs
  {
    if fs == [] then [] else (assert fs[0].1 < fs[0]; Moves(fs[0].1)) + MovesInFields(fs[1..])
  }

  // ---- Facts about single nodes ----

  lemma {:induction false} LookupResolveFields(fs: Fields, doc: Fields, k: string)
    ensures Lookup(ResolveFields(fs, doc), k)
         == if Lookup(fs, k).Some? then Some(Resolve(Lookup(fs, k).value, doc)) else None
  {
    if fs != [] && fs[0].0 != k {
      LookupResolveFields(fs[1..], doc, k);
    }
  }

  lemma {:induction false} LookupReduceFields(fs: Fields, k: string)
    ensures Lookup(ReduceFields(fs), k) == if Lookup(fs, k).Some? then Some(Reduce(Lookup(fs, k).value)) else None
  {
    if fs != [] && fs[0].0 != k {
      LookupReduceFields(fs[1..], k);
    }
  }

  /** Resolution neither creates nor removes a reference node, nor changes its target. */
  lemma RefOfResolve(v: Json, doc: Fields)
    ensures RefOf(Resolve(v, doc)) == RefOf(v)
  {
    if RefOf(v).None? && v.Obj? {
      LookupResolveFields(v.fields, doc, RefKey);
    }
  }

  /** Reduction neither creates nor removes a reference node, nor changes its target. */
  lemma RefOfReduce(v: Json)
    ensures RefOf(Reduce(v)) == RefOf(v)
  {
    if RefOf(v).Some? {
    } else if v.Obj? {
      LookupReduceFields(v.fields, RefKey);
    }
  }

  // ---- Reduction undoes resolution ----

  /** Reducing a resolved tree gives back the bootstrap tree it came from. */
  lemma ReduceResolve(v: Json, doc: Fields)
    requires Canonical(v)
    ensures Reduce(Resolve(v, doc)) == v
    decreases v
  {
    RefOfResolve(v, doc);
    match v {
      case Arr(xs) => ReduceResolveAll(xs, doc);
      case Obj(fs) =>
        if RefOf(v).None? {
          ReduceResolveFields(fs, doc);
        }
      case _ =>
    }
  }

  lemma ReduceResolveAll(xs: seq<Json>, doc: Fields)
    requires forall i :: 0 <= i < |xs| ==> Canonical(xs[i])
    ensures ReduceAll(ResolveAll(xs, doc)) == xs
    decreases xs
  {
    if xs != [] {
      ReduceResolve(xs[0], doc);
      ReduceResolveAll(xs[1..], doc);
      assert xs == [xs[0]] + xs[1..];
    }
  }

  lemma ReduceResolveFields(fs: Fields, doc: Fields)
    requires forall i :: 0 <= i < |fs| ==> Canonical(fs[i].1)
    ensures ReduceFields(ResolveFields(fs, doc)) == fs
    decreases fs
  {
    if fs != [] {
      assert fs[0].1 < fs[0];
      ReduceResolve(fs[0].1, doc);
      ReduceResolveFields(fs[1..], doc);
      assert fs == [fs[0]] + fs[1..];
    }
  }

  // ---- Reduction is a normal form ----

  /** Reduction yields bootstrap form. */
  lemma {:induction false} ReduceCanonical(v: Json)
    ensures Canonical(Reduce(v))
    decreases v
  {
    match v {
      case Arr(xs) => ReduceCanonicalAll(xs);
      case Obj(fs) =>
        if RefOf(v).Some? {
          var n := RefNode(RefOf(v).value);
          assert Reduce(v) == n && n.Obj? && RefOf(n) == RefOf(v);
        } else {
          RefOfReduce(v);
          ReduceCanonicalFields(fs);
        }
      case _ =>
    }
  }

  lemma {:induction false} ReduceCanonicalAll(xs: seq<Json>)
    ensures forall i :: 0 <= i < |ReduceAll(xs)| ==> Canonical(ReduceAll(xs)[i])
    decreases xs
  {
    if xs != [] {
      ReduceCanonical(xs[0]);
      ReduceCanonicalAll(xs[1..]);
      var r := ReduceAll(xs);
      assert r == [Reduce(xs[0])] + ReduceAll(xs[1..]);
      assert forall i :: 1 <= i < |r| ==> r[i] == ReduceAll(xs[1..])[i - 1];
    }
  }

  lemma {:induction false} ReduceCanonicalFields(fs: Fields)
    ensures forall i :: 0 <= i < |ReduceFields(fs)| ==> Canonical(ReduceFields(fs)[i].1)
    decreases fs
  {
    if fs != [] {
      assert fs[0].1 < fs[0];
      ReduceCanonical(fs[0].1);
      ReduceCanonicalFields(fs[1..]);
      var r := ReduceFields(fs);
      assert r == [(fs[0].0, Reduce(fs[0].1))] + ReduceFields(fs[1..]);
      assert forall i :: 1 <= i < |r| ==> r[i] == ReduceFields(fs[1..])[i - 1];
    }
  }

  /** Bootstrap form is left alone by reduction, with nothing to hand back. */
  lemma {:induction false} CanonicalFixed(v: Json)
    requires Canonical(v)
    ensures Reduce(v) == v && Moves(v) == []
    decreases v
  {
    match v {
      case Arr(xs) => CanonicalFixedAll(xs);
      case Obj(fs) =>
        if RefOf(v).Some? {
          assert Remove(v.fields, RefKey) == [];
        } else {
          CanonicalFixedFields(fs);
        }
      case _ =>
    }
  }

  lemma {:induction false} CanonicalFixedAll(xs: seq<Json>)
    requires forall i :: 0 <= i < |xs| ==> Canonical(xs[i])
    ensures ReduceAll(xs) == xs && MovesIn(xs) == []
    decreases xs
  {
    if xs != [] {
      CanonicalFixed(xs[0]);
      assert forall i :: 0 <= i < |xs[1..]| ==> xs[1..][i] == xs[i + 1];
      CanonicalFixedAll(xs[1..]);
      assert xs == [xs[0]] + xs[1..];
    }
  }

  lemma {:induction false} CanonicalFixedFields(fs: Fields)
    requires forall i :: 0 <= i < |fs| ==> Canonical(fs[i].1)
    ensures ReduceFields(fs) == fs && MovesInFields(fs) == []
    decreases fs
  {
    if fs != [] {
      assert fs[0].1 < fs[0];
      CanonicalFixed(fs[0].1);
      assert forall i :: 0 <= i < |fs[1..]| ==> fs[1..][i] == fs[i + 1];
      CanonicalFixedFields(fs[1..]);
      assert fs == [fs[0]] + fs[1..];
    }
  }

  /** Reducing twice is reducing once. */
  lemma ReduceIdempotent(v: Json)
    ensures Reduce(Reduce(v)) == Reduce(v)
  {
    ReduceCanonical(v);
    CanonicalFixed(Reduce(v));
  }

  // ---- Targets ----

  lemma WellFormedFieldsOf(v: Json)
    requires WellFormed(v)
    ensures WellFormed(Obj(FieldsOf(v)))
  {
  }

  /** In a well-formed document every target variant is a proper object. */
  lemma TargetUnique(doc: Fields, p: string)
    requires WellFormed(Obj(doc))
    ensures UniqueKeys(TargetFields(doc, p))
  {
    var loc := Paths.Decode(p);
    if loc.Item? && !loc.meta {
      var items := Lookup(doc, Paths.SectionKey(loc.section));
      if items.Some? {
        LookupWellFormed(doc, Paths.SectionKey(loc.section));
        WellFormedFieldsOf(items.value);
        var item := Lookup(FieldsOf(items.value), loc.name);
        if item.Some? {
          LookupWellFormed(FieldsOf(items.value), loc.name);
          WellFormedFieldsOf(item.value);
          if loc.instance.None? {
            RemoveUnique(FieldsOf(item.value), InstancesKey);
          } else {
            var instances := Lookup(FieldsOf(item.value), InstancesKey);
            if instances.Some? {
              LookupWellFormed(FieldsOf(item.value), InstancesKey);
              WellFormedFieldsOf(instances.value);
              var inst := Lookup(FieldsOf(instances.value), loc.instance.value);
              if inst.Some? {
                LookupWellFormed(FieldsOf(instances.value), loc.instance.value);
              }
            }
          }
        }
      }
    }
  }

  /** Resolution keeps the set of referenced targets. */
  lemma RefsResolve(v: Json, doc: Fields)
    ensures Refs(Resolve(v, doc)) == Refs(v)
    decreases v
  {
    RefOfResolve(v, doc);
    if RefOf(v).None? {
      match v {
        case Arr(xs) => RefsResolveAll(xs, doc);
        case Obj(fs) => RefsResolveFields(fs, doc);
        case _ =>
      }
    }
  }

  lemma RefsResolveAll(xs: seq<Json>, doc: Fields)
    ensures RefsIn(ResolveAll(xs, doc)) == RefsIn(xs)
    decreases xs
  {
    if xs != [] {
      RefsResolve(xs[0], doc);
      RefsResolveAll(xs[1..], doc);
      var r := ResolveAll(xs, doc);
      assert r[0] == Resolve(xs[0], doc) && r[1..] == ResolveAll(xs[1..], doc);
    }
  }

  lemma RefsResolveFields(fs: Fields, doc: Fields)
    ensures RefsInFields(ResolveFields(fs, doc)) == RefsInFields(fs)
    decreases fs
  {
    if fs != [] {
      assert fs[0].1 < fs[0];
      RefsResolve(fs[0].1, doc);
      RefsResolveFields(fs[1..], doc);
      var r := ResolveFields(fs, doc);
      assert r[0].1 == Resolve(fs[0].1, doc) && r[1..] == ResolveFields(fs[1..], doc);
    }
  }

  /** Content without references is passed through untouched in both directions. */
  lemma RefFree(v: Json, doc: Fields)
    requires Refs(v) == {}
    ensures Resolve(v, doc) == v && Reduce(v) == v && Moves(v) == []
    decreases v
  {
    match v {
      case Arr(xs) => RefFreeAll(xs, doc);
      case Obj(fs) => RefFreeFields(fs, doc);
      case _ =>
    }
  }

  lemma RefFreeAll(xs: seq<Json>, doc: Fields)
    requires RefsIn(xs) == {}
    ensures ResolveAll(xs, doc) == xs && ReduceAll(xs) == xs && MovesIn(xs) == []
    decreases xs
  {
    if xs != [] {
      RefFree(xs[0], doc);
      RefFreeAll(xs[1..], doc);
      assert xs == [xs[0]] + xs[1..];
    }
  }

  lemma RefFreeFields(fs: Fields, doc: Fields)
    requires RefsInFields(fs) == {}
    ensures ResolveFields(fs, doc) == fs && ReduceFields(fs) == fs && MovesInFields(fs) == []
    decreases fs
  {
    if fs != [] {
      assert fs[0].1 < fs[0];
      RefFree(fs[0].1, doc);
      RefFreeFields(fs[1..], doc);
      assert fs == [fs[0]] + fs[1..];
    }
  }

  // ---- What reduction hands back ----

  /** The node a bootstrap reference to `p` becomes in dispatch form: `_ref` first, then the copied fields. */
  lemma InlineNode(doc: Fields, p: string)
    requires WellFormed(Obj(doc))
    ensures Inline([(RefKey, Str(p))], doc, p) == [(RefKey, Str(p))] + Remove(TargetFields(doc, p), RefKey)
    ensures Remove(Inline([(RefKey, Str(p))], doc, p), RefKey) == Remove(TargetFields(doc, p), RefKey)
  {
    var t := Remove(TargetFields(doc, p), RefKey);
    TargetUnique(doc, p);
    RemoveUnique(TargetFields(doc, p), RefKey);
    assert Keys([(RefKey, Str(p))]) == [RefKey];
    MergeFresh([(RefKey, Str(p))], t);
    RemoveAbsent(t, RefKey);
  }

  /**
   * Every move taken off a resolved tree hands back to a target of the tree
   * exactly the fields resolution copied from it, so putting the moves back
   * writes each target's own fields.
   */
  lemma MovesResolve(v: Json, doc: Fields)
    requires Canonical(v) && WellFormed(Obj(doc))
    ensures forall m :: m in Moves(Resolve(v, doc)) ==>
      m.0 in Refs(v) && m.1 != [] && m.1 == Remove(TargetFields(doc, m.0), RefKey)
    decreases v
  {
    RefOfResolve(v, doc);
    if RefOf(v).Some? {
      InlineNode(doc, RefOf(v).value);
    } else {
      match v {
        case Arr(xs) => MovesResolveAll(xs, doc);
        case Obj(fs) => MovesResolveFields(fs, doc);
        case _ =>
      }
    }
  }

  lemma MovesResolveAll(xs: seq<Json>, doc: Fields)
    requires (forall i :: 0 <= i < |xs| ==> Canonical(xs[i])) && WellFormed(Obj(doc))
    ensures forall m :: m in MovesIn(ResolveAll(xs, doc)) ==>
      m.0 in RefsIn(xs) && m.1 != [] && m.1 == Remove(TargetFields(doc, m.0), RefKey)
    decreases xs
  {
    if xs != [] {
      MovesResolve(xs[0], doc);
      MovesResolveAll(xs[1..], doc);
      var r := ResolveAll(xs, doc);
      assert r[0] == Resolve(xs[0], doc) && r[1..] == ResolveAll(xs[1..], doc);
    }
  }

  lemma MovesResolveFields(fs: Fields, doc: Fields)
    requires (forall i :: 0 <= i < |fs| ==> Canonical(fs[i].1)) && WellFormed(Obj(doc))
    ensures forall m :: m in MovesInFields(ResolveFields(fs, doc)) ==>
      m.0 in RefsInFields(fs) && m.1 != [] && m.1 == Remove(TargetFields(doc, m.0), RefKey)
    decreases fs
  {
    if fs != [] {
      assert fs[0].1 < fs[0];
      MovesResolve(fs[0].1, doc);
      MovesResolveFields(fs[1..], doc);
      var r := ResolveFields(fs, doc);
      assert r[0].1 == Resolve(fs[0].1, doc) && r[1..] == ResolveFields(fs[1..], doc);
    }
  }
}
