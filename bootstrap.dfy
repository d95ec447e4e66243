/**
 * The bootstrap aggregator (`toBootstrap`): a sequence of dispatch entries is
 * folded, entry by entry, into one bootstrap document. Each entry's path names
 * the slot it writes; later entries merge into the slots earlier ones made.
 */
module Bootstrap {
  import opened Wrappers
  import opened Json
  import opened Paths
  import opened References
  import opened Dispatch

  /** What an entry does to its slot. */
  datatype Edit =
    | MergeFields(fs: Fields)   // shallow-merge these fields into the slot
    | MergeMeta(m: Json)        // merge this value under the slot's `meta`

  /** The fields stored under `k`, or none. */
  function Get(fs: Fields, k: string): Fields {
    var v := Lookup(fs, k);
    if v.Some? then FieldsOf(v.value) else []
  }

  /** A slot after an edit: existing keys keep their places. */
  function ApplyEdit(slot: Fields, e: Edit): (r: Fields)
    ensures Keys(slot) <= Keys(r)
    ensures e.MergeFields? ==> forall k :: k in Keys(r) <==> k in Keys(slot) || k in Keys(e.fs)
    ensures e.MergeFields? ==> forall k :: k !in Keys(e.fs) ==> Lookup(r, k) == Lookup(slot, k)
    ensures e.MergeFields? && UniqueKeys(e.fs) ==>
      forall k :: Lookup(r, k) == if k in Keys(e.fs) then Lookup(e.fs, k) else Lookup(slot, k)
    ensures e.MergeMeta? ==> Keys(r) == if MetaKey in Keys(slot) then Keys(slot) else Keys(slot) + [MetaKey]
    ensures e.MergeMeta? ==> forall k :: k != MetaKey ==> Lookup(r, k) == Lookup(slot, k)
    ensures e.MergeMeta? ==> var prev := Lookup(slot, MetaKey);
      Lookup(r, MetaKey) == Some(if prev.Some? && prev.value.Obj? && e.m.Obj? then Obj(Merge(prev.value.fields, e.m.fields)) else e.m)
  {
    match e
    case MergeFields(fs) =>
      if UniqueKeys(fs) then MergeLookupAll(slot, fs); Merge(slot, fs) else Merge(slot, fs)
    case MergeMeta(m) =>
      var prev := Lookup(slot, MetaKey);
      Set(slot, MetaKey, if prev.Some? && prev.value.Obj? && m.Obj? then Obj(Merge(prev.value.fields, m.fields)) else m)
  }

  /**
   * An item after an edit of its default variant: the edit applies to the
   * item in place, and a merge never writes `instances`.
   */
  function EditDefault(item: Fields, e: Edit): (r: Fields)
    ensures Keys(item) <= Keys(r)
    ensures Lookup(r, InstancesKey) == Lookup(item, InstancesKey)
    ensures e.MergeMeta? || UniqueKeys(e.fs) ==>
      forall k :: k != InstancesKey ==> Lookup(r, k) == Lookup(ApplyEdit(Remove(item, InstancesKey), e), k)
  {
    var r := ApplyEdit(item, DefaultEdit(e));
    assert e.MergeMeta? || UniqueKeys(e.fs) ==>
      forall k :: k != InstancesKey ==> Lookup(r, k) == Lookup(ApplyEdit(Remove(item, InstancesKey), e), k)
    by {
      if e.MergeMeta? || UniqueKeys(e.fs) {
        forall k | k != InstancesKey
          ensures Lookup(r, k) == Lookup(ApplyEdit(Remove(item, InstancesKey), e), k)
        {
          EditDefaultLookup(item, e, k);
        }
      }
    }
    r
  }

  /** The edit of a default variant applied to its whole item: a merge leaves out `instances`. */
  function DefaultEdit(e: Edit): (d: Edit)
    ensures d.MergeFields? <==> e.MergeFields?
    ensures d.MergeFields? ==> InstancesKey !in Keys(d.fs)
    ensures e.MergeFields? && UniqueKeys(e.fs) ==> UniqueKeys(d.fs)
  {
    if e.MergeFields? then
      (if UniqueKeys(e.fs) then RemoveUnique(e.fs, InstancesKey); MergeFields(Remove(e.fs, InstancesKey))
       else MergeFields(Remove(e.fs, InstancesKey)))
    else e
  }

  lemma EditDefaultLookup(item: Fields, e: Edit, k: string)
    requires k != InstancesKey && (e.MergeMeta? || UniqueKeys(e.fs))
    ensures Lookup(ApplyEdit(item, DefaultEdit(e)), k) == Lookup(ApplyEdit(Remove(item, InstancesKey), e), k)
  {
    var own := Remove(item, InstancesKey);
    assert Lookup(own, MetaKey) == Lookup(item, MetaKey);
    if e.MergeFields? {
      var fs := DefaultEdit(e).fs;
      assert Lookup(fs, k) == Lookup(e.fs, k);
      assert k in Keys(fs) <==> k in Keys(e.fs);
    }
  }

  /** An item after an edit of its instance `i`; the item's own fields are untouched. */
  function EditInstance(item: Fields, i: string, e: Edit): (r: Fields)
    ensures Keys(item) <= Keys(r)
    ensures forall k :: k != InstancesKey ==> Lookup(r, k) == Lookup(item, k)
    ensures Lookup(r, InstancesKey) == Some(Obj(Set(Get(item, InstancesKey), i, Obj(ApplyEdit(Get(Get(item, InstancesKey), i), e)))))
  {
    var insts := Get(item, InstancesKey);
    Set(item, InstancesKey, Obj(Set(insts, i, Obj(ApplyEdit(Get(insts, i), e)))))
  }

  /** The fields of the item variant at `loc`, or none when the document has no such variant. */
  function VariantFields(doc: Fields, loc: Location): Fields
    requires loc.Item?
  {
    var v := Variant(doc, loc);
    if v.Some? then v.value else []
  }

  /** The document after an edit of an item variant, creating the section, item and slot as needed. */
  function PutItem(acc: Fields, sec: Section, name: string, inst: Option<string>, e: Edit): (r: Fields)
    ensures forall k :: k != SectionKey(sec) ==> Lookup(r, k) == Lookup(acc, k)
    ensures forall n :: n != name ==> Lookup(Get(r, SectionKey(sec)), n) == Lookup(Get(acc, SectionKey(sec)), n)
    ensures inst.Some? ==>
      VariantFields(r, Item(sec, name, inst, false)) == ApplyEdit(VariantFields(acc, Item(sec, name, inst, false)), e)
    ensures inst.None? && (e.MergeMeta? || UniqueKeys(e.fs)) ==> forall k :: k != InstancesKey ==>
      Lookup(VariantFields(r, Item(sec, name, None, false)), k)
        == Lookup(ApplyEdit(VariantFields(acc, Item(sec, name, None, false)), e), k)
    ensures inst.None? ==> Lookup(Get(Get(r, SectionKey(sec)), name), InstancesKey) == Lookup(Get(Get(acc, SectionKey(sec)), name), InstancesKey)
  {
    var key := SectionKey(sec);
    var items := Get(acc, key);
    var item := Get(items, name);
    var item' := EditItem(item, inst, e);
    var r := Set(acc, key, Obj(Set(items, name, Obj(item'))));
    assert Get(r, key) == Set(items, name, Obj(item'));
    assert Get(Get(r, key), name) == item';
    if inst.Some? then
      EditItemInstance(items, name, inst.value, e);
      VariantFieldsItem(r, Item(sec, name, inst, false));
      VariantFieldsItem(acc, Item(sec, name, inst, false));
      assert Lookup(Get(r, key), name) == Some(Obj(item'));
      r
    else
      VariantFieldsItem(r, Item(sec, name, None, false));
      VariantFieldsItem(acc, Item(sec, name, None, false));
      ItemVariantMissing(items, name, None);
      assert Lookup(Get(r, key), name) == Some(Obj(item'));
      r
  }

  /** After an edit of instance `i`, its slot holds the edit applied to what it held. */
  lemma EditItemInstance(items: Fields, name: string, i: string, e: Edit)
    ensures Get(Get(EditInstance(Get(items, name), i, e), InstancesKey), i)
      == ApplyEdit(ItemVariant(Lookup(items, name), Some(i)), e)
  {
    var item := Get(items, name);
    var insts := Get(item, InstancesKey);
    var v := Obj(ApplyEdit(Get(insts, i), e));
    ItemVariantMissing(items, name, Some(i));
    assert EditInstance(item, i, e) == Set(item, InstancesKey, Obj(Set(insts, i, v)));
    GetSet(item, InstancesKey, Obj(Set(insts, i, v)));
    GetSet(insts, i, v);
  }

  /** An item after an edit of one of its variants. */
  function EditItem(item: Fields, inst: Option<string>, e: Edit): Fields {
    if inst.None? then EditDefault(item, e) else EditInstance(item, inst.value, e)
  }

  /** The fields of variant `inst` of an item that may be missing. */
  function ItemVariant(item: Option<Json>, inst: Option<string>): Fields {
    if item.None? then []
    else if inst.None? then Remove(FieldsOf(item.value), InstancesKey)
    else Get(Get(FieldsOf(item.value), InstancesKey), inst.value)
  }

  lemma VariantFieldsItem(doc: Fields, loc: Location)
    requires loc.Item?
    ensures VariantFields(doc, loc) == ItemVariant(Lookup(Get(doc, SectionKey(loc.section)), loc.name), loc.instance)
  {
  }

  /** A missing item has the variants of an empty one. */
  lemma ItemVariantMissing(items: Fields, name: string, inst: Option<string>)
    ensures ItemVariant(Lookup(items, name), inst) == ItemVariant(Some(Obj(Get(items, name))), inst)
  {
  }

  /** Editing one variant of an item leaves its other variants as they were. */
  lemma EditItemOther(item: Fields, inst: Option<string>, e: Edit, other: Option<string>)
    requires inst != other
    ensures ItemVariant(Some(Obj(EditItem(item, inst, e))), other) == ItemVariant(Some(Obj(item)), other)
  {
    if inst.Some? && other.None? {
      EditInstanceDefault(item, inst.value, e);
    } else if inst.Some? {
      EditInstanceOther(item, inst.value, e, other.value);
    }
  }

  lemma EditInstanceDefault(item: Fields, i: string, e: Edit)
    ensures Remove(EditInstance(item, i, e), InstancesKey) == Remove(item, InstancesKey)
  {
    var insts := Get(item, InstancesKey);
    RemoveSet(item, InstancesKey, Obj(Set(insts, i, Obj(ApplyEdit(Get(insts, i), e)))));
  }

  lemma EditInstanceOther(item: Fields, i: string, e: Edit, j: string)
    requires i != j
    ensures Get(Get(EditInstance(item, i, e), InstancesKey), j) == Get(Get(item, InstancesKey), j)
  {
    var insts := Get(item, InstancesKey);
    var v := Obj(ApplyEdit(Get(insts, i), e));
    assert EditInstance(item, i, e) == Set(item, InstancesKey, Obj(Set(insts, i, v)));
    GetSet(item, InstancesKey, Obj(Set(insts, i, v)));
    GetSetOther(insts, i, v, j);
  }

  lemma GetSet(fs: Fields, k: string, v: Json)
    ensures Get(Set(fs, k, v), k) == FieldsOf(v)
  {
  }

  lemma GetSetOther(fs: Fields, k: string, v: Json, k': string)
    requires k != k'
    ensures Get(Set(fs, k, v), k') == Get(fs, k')
  {
  }

  /** Editing one item variant leaves every other item variant as it was. */
  lemma PutItemOtherVariant(acc: Fields, sec: Section, name: string, inst: Option<string>, e: Edit, loc: Location)
    requires loc.Item? && !loc.meta && loc != Item(sec, name, inst, false)
    ensures VariantFields(PutItem(acc, sec, name, inst, e), loc) == VariantFields(acc, loc)
  {
    var r := PutItem(acc, sec, name, inst, e);
    var key := SectionKey(sec);
    VariantFieldsItem(r, loc);
    VariantFieldsItem(acc, loc);
    if loc.section == sec && loc.name == name {
      var items := Get(acc, key);
      assert Lookup(Get(r, key), name) == Some(Obj(EditItem(Get(items, name), inst, e)));
      ItemVariantMissing(items, name, loc.instance);
      EditItemOther(Get(items, name), inst, e, loc.instance);
    } else if loc.section != sec {
      assert SectionKey(loc.section) != key;
    }
  }

  /** The fields of the page `name`, or none. */
  function PageFields(doc: Fields, name: string): Fields {
    Get(Get(doc, PagesKey), name)
  }

  /** The document after an edit of a page; a merge normalises the page's legacy `url`. */
  function PutPage(acc: Fields, name: string, e: Edit): (r: Fields)
    ensures forall k :: k != PagesKey ==> Lookup(r, k) == Lookup(acc, k)
    ensures forall n :: n != name ==> Lookup(Get(r, PagesKey), n) == Lookup(Get(acc, PagesKey), n)
    ensures e.MergeMeta? ==> PageFields(r, name) == ApplyEdit(PageFields(acc, name), e)
    ensures e.MergeFields? ==> UrlKey !in Keys(PageFields(r, name))
    ensures e.MergeFields? ==> forall k :: k != UrlKey && k != CustomUrlKey ==>
      Lookup(PageFields(r, name), k) == Lookup(ApplyEdit(PageFields(acc, name), e), k)
    ensures e.MergeFields? ==> var merged := ApplyEdit(PageFields(acc, name), e);
      Lookup(PageFields(r, name), CustomUrlKey)
        == if CustomUrlKey in Keys(merged) then Lookup(merged, CustomUrlKey) else Lookup(merged, UrlKey)
  {
    var pages := Get(acc, PagesKey);
    var slot := ApplyEdit(Get(pages, name), e);
    var slot' := if e.MergeFields? then NormalizeUrl(slot) else slot;
    var r := Set(acc, PagesKey, Obj(Set(pages, name, Obj(slot'))));
    assert Get(r, PagesKey) == Set(pages, name, Obj(slot'));
    assert PageFields(r, name) == slot';
    r
  }

  /** The document with a user appended to `_users`. */
  function AppendUser(acc: Fields, user: Json): (r: Fields)
    ensures UsersOf(r) == UsersOf(acc) + [user]
    ensures forall k :: k != UsersKey ==> Lookup(r, k) == Lookup(acc, k)
  {
    Set(acc, UsersKey, Arr(UsersOf(acc) + [user]))
  }

  /** The key an arbitrary path's sub-key is stored under; the root sub-key is `/`. */
  function SubKey(sub: string): (k: string)
    ensures sub == "" ==> k == "/"
    ensures sub != "" ==> k == sub
  {
    if sub == "" then "/" else sub
  }

  /** The document with `value` stored at `top.sub`. */
  function PutOther(acc: Fields, top: string, sub: string, value: Json): (r: Fields)
    ensures Lookup(r, top) == Some(Obj(Set(Get(acc, top), SubKey(sub), value)))
    ensures forall k :: k != top ==> Lookup(r, k) == Lookup(acc, k)
  {
    Set(acc, top, Obj(Set(Get(acc, top), SubKey(sub), value)))
  }

  /**
   * Hands one reference's fields back to its target, if the target is an item
   * variant: they are merged into it, and nothing outside the two item
   * sections changes.
   */
  function PutMove(acc: Fields, m: Move): (r: Fields)
    ensures !(Decode(m.0).Item? && !Decode(m.0).meta) ==> r == acc
    ensures Decode(m.0).Item? && !Decode(m.0).meta && UniqueKeys(m.1) ==>
      var loc := Decode(m.0);
      forall k :: k in Keys(m.1) && (loc.instance.None? ==> k != InstancesKey) ==> Lookup(VariantFields(r, loc), k) == Lookup(m.1, k)
    ensures forall k :: k != ComponentsKey && k != LayoutsKey ==> Lookup(r, k) == Lookup(acc, k)
  {
    var loc := Decode(m.0);
    if loc.Item? && !loc.meta then PutItem(acc, loc.section, loc.name, loc.instance, MergeFields(m.1)) else acc
  }

  /** Hands back a run of moves in order; nothing outside the two item sections changes. */
  function PutMoves(acc: Fields, ms: seq<Move>): (r: Fields)
    ensures forall k :: k != ComponentsKey && k != LayoutsKey ==> Lookup(r, k) == Lookup(acc, k)
    decreases |ms|
  {
    if ms == [] then acc else PutMoves(PutMove(acc, ms[0]), ms[1..])
  }

  /** A move to another item variant, or to no variant, leaves the variant at `loc` as it was. */
  lemma PutMoveOther(acc: Fields, m: Move, loc: Location)
    requires loc.Item? && !loc.meta && Decode(m.0) != loc
    ensures VariantFields(PutMove(acc, m), loc) == VariantFields(acc, loc)
  {
    var t := Decode(m.0);
    if t.Item? && !t.meta {
      PutItemOtherVariant(acc, t.section, t.name, t.instance, MergeFields(m.1), loc);
    }
  }

  /** No move of `ms` from index `from` on targets `loc`. */
  predicate NoneTargets(ms: seq<Move>, from: nat, loc: Location) {
    forall i :: from <= i < |ms| ==> Decode(ms[i].0) != loc
  }

  lemma NoneTargetsTail(ms: seq<Move>, from: nat, loc: Location)
    requires ms != [] && NoneTargets(ms, from, loc)
    ensures NoneTargets(ms[1..], if from == 0 then 0 else from - 1, loc)
  {
    forall i | (if from == 0 then 0 else from - 1) <= i < |ms[1..]|
      ensures Decode(ms[1..][i].0) != loc
    {
      assert ms[1..][i] == ms[i + 1];
    }
  }

  /** Moves none of which targets `loc` leave the variant at `loc` as it was. */
  lemma {:induction false} PutMovesOther(acc: Fields, ms: seq<Move>, loc: Location)
    requires loc.Item? && !loc.meta && NoneTargets(ms, 0, loc)
    ensures VariantFields(PutMoves(acc, ms), loc) == VariantFields(acc, loc)
    decreases |ms|
  {
    if ms != [] {
      PutMoveOther(acc, ms[0], loc);
      NoneTargetsTail(ms, 0, loc);
      PutMovesOther(PutMove(acc, ms[0]), ms[1..], loc);
    }
  }

  lemma PutMovesFirst(acc: Fields, ms: seq<Move>)
    requires ms != []
    ensures PutMoves(acc, ms) == PutMoves(PutMove(acc, ms[0]), ms[1..])
  {
  }

  /** Handing back two runs of moves is handing back their concatenation. */
  lemma {:induction false} PutMovesAppend(acc: Fields, a: seq<Move>, b: seq<Move>)
    ensures PutMoves(acc, a + b) == PutMoves(PutMoves(acc, a), b)
    decreases |a|
  {
    if a == [] {
      assert a + b == b;
    } else {
      HeadTailAppend(a, b);
      PutMovesFirst(acc, a + b);
      PutMovesAppend(PutMove(acc, a[0]), a[1..], b);
    }
  }

  lemma NoneTargetsDrop(ms: seq<Move>, from: nat, loc: Location)
    requires from <= |ms| && NoneTargets(ms, from, loc)
    ensures NoneTargets(ms[from..], 0, loc)
  {
    forall i | 0 <= i < |ms[from..]|
      ensures Decode(ms[from..][i].0) != loc
    {
      assert ms[from..][i] == ms[from + i];
    }
  }

  /**
   * The fields a move hands back land in its target variant, unless a later
   * move to the same variant overwrites them (a default variant never takes
   * `instances`).
   */
  lemma PutMovesLand(acc: Fields, ms: seq<Move>, j: nat, k: string)
    requires j < |ms| && Decode(ms[j].0).Item? && !Decode(ms[j].0).meta && UniqueKeys(ms[j].1)
    requires k in Keys(ms[j].1) && (Decode(ms[j].0).instance.None? ==> k != InstancesKey)
    requires NoneTargets(ms, j + 1, Decode(ms[j].0))
    ensures Lookup(VariantFields(PutMoves(acc, ms), Decode(ms[j].0)), k) == Lookup(ms[j].1, k)
  {
    var loc := Decode(ms[j].0);
    var mid := PutMove(PutMoves(acc, ms[..j]), ms[j]);
    assert Lookup(VariantFields(mid, loc), k) == Lookup(ms[j].1, k);
    NoneTargetsDrop(ms, j + 1, loc);
    PutMovesOther(mid, ms[j + 1..], loc);
    SplitAt(ms, j);
    calc {
      PutMoves(acc, ms);
      { PutMovesAppend(acc, ms[..j], ms[j..]); }
      PutMoves(PutMoves(acc, ms[..j]), ms[j..]);
      { PutMovesFirst(PutMoves(acc, ms[..j]), ms[j..]); }
      PutMoves(mid, ms[j + 1..]);
    }
  }

  /** The document after one entry. */
  function Apply(acc: Fields, e: Entry): Fields {
    match Decode(e.path)
    case Item(sec, name, inst, meta) =>
      if meta then PutItem(acc, sec, name, inst, MergeMeta(e.value))
      else
        var fs := FieldsOf(e.value);
        PutMoves(PutItem(acc, sec, name, inst, MergeFields(ReduceFields(fs))), MovesInFields(fs))
    case Page(name, meta) =>
      PutPage(acc, name, if meta then MergeMeta(e.value) else MergeFields(FieldsOf(e.value)))
    case User(_) => AppendUser(acc, e.value)
    case Other(top, sub) => PutOther(acc, top, sub, e.value)
  }

  /** The document after the entries `es`, in order, starting from `acc`. */
  function AssembleFrom(acc: Fields, es: seq<Entry>): Fields
    decreases |es|
  {
    if es == [] then acc else AssembleFrom(Apply(acc, es[0]), es[1..])
  }

  /** Folding two runs of entries is folding their concatenation. */
  lemma {:induction false} AssembleAppend(acc: Fields, a: seq<Entry>, b: seq<Entry>)
    ensures AssembleFrom(acc, a + b) == AssembleFrom(AssembleFrom(acc, a), b)
    decreases |a|
  {
    if a != [] {
      assert (a + b)[0] == a[0] && (a + b)[1..] == a[1..] + b;
      AssembleAppend(Apply(acc, a[0]), a[1..], b);
    } else {
      assert a + b == b;
    }
  }

  lemma ApplyUser(acc: Fields, e: Entry)
    requires Decode(e.path).User?
    ensures Apply(acc, e) == AppendUser(acc, e.value)
  {
  }

  lemma ApplyOther(acc: Fields, e: Entry, top: string, sub: string)
    requires Decode(e.path) == Other(top, sub)
    ensures Apply(acc, e) == PutOther(acc, top, sub, e.value)
  {
  }

  lemma ApplyPage(acc: Fields, e: Entry, name: string, meta: bool)
    requires Decode(e.path) == Page(name, meta)
    ensures Apply(acc, e) == PutPage(acc, name, if meta then MergeMeta(e.value) else MergeFields(FieldsOf(e.value)))
  {
  }

  lemma ApplyItemMeta(acc: Fields, e: Entry, sec: Section, name: string, inst: Option<string>)
    requires Decode(e.path) == Item(sec, name, inst, true)
    ensures Apply(acc, e) == PutItem(acc, sec, name, inst, MergeMeta(e.value))
  {
  }

  lemma AssembleFirst(acc: Fields, es: seq<Entry>)
    requires es != []
    ensures AssembleFrom(acc, es) == AssembleFrom(Apply(acc, es[0]), es[1..])
  {
  }

  /** An entry for the main slot of an item variant: the reduced fields, then the moves. */
  lemma ApplyItem(acc: Fields, e: Entry)
    requires Decode(e.path).Item? && !Decode(e.path).meta
    ensures var loc := Decode(e.path);
      Apply(acc, e) == PutMoves(PutItem(acc, loc.section, loc.name, loc.instance, MergeFields(ReduceFields(FieldsOf(e.value)))),
                                MovesInFields(FieldsOf(e.value)))
  {
  }

  /**
   * After an entry for the main slot of an item variant, each of its reduced
   * fields holds its value in that variant, unless a move the entry makes
   * targets the variant itself.
   */
  lemma ApplyItemLand(acc: Fields, e: Entry, k: string)
    requires Decode(e.path).Item? && !Decode(e.path).meta
    requires UniqueKeys(ReduceFields(FieldsOf(e.value))) && k in Keys(ReduceFields(FieldsOf(e.value)))
    requires Decode(e.path).instance.None? ==> k != InstancesKey
    requires NoneTargets(MovesInFields(FieldsOf(e.value)), 0, Decode(e.path))
    ensures Lookup(VariantFields(Apply(acc, e), Decode(e.path)), k) == Lookup(ReduceFields(FieldsOf(e.value)), k)
  {
    var loc := Decode(e.path);
    var fs := FieldsOf(e.value);
    var put := PutItem(acc, loc.section, loc.name, loc.instance, MergeFields(ReduceFields(fs)));
    ApplyItem(acc, e);
    PutMovesOther(put, MovesInFields(fs), loc);
    assert loc == Item(loc.section, loc.name, loc.instance, false);
  }

  lemma AssembleStep(acc: Fields, es: seq<Entry>, i: nat)
    requires i < |es|
    ensures AssembleFrom(acc, es[i..]) == AssembleFrom(Apply(acc, es[i]), es[i + 1..])
  {
    assert es[i..][0] == es[i] && es[i..][1..] == es[i + 1..];
  }

  lemma PutMovesStep(acc: Fields, ms: seq<Move>, j: nat)
    requires j < |ms|
    ensures PutMoves(acc, ms[j..]) == PutMoves(PutMove(acc, ms[j]), ms[j + 1..])
  {
    assert ms[j..][0] == ms[j] && ms[j..][1..] == ms[j + 1..];
  }

  /** Hands the fields taken off reference nodes back to their targets, one move at a time. */
  method HandBack(acc: Fields, moves: seq<Move>) returns (r: Fields)
    ensures r == PutMoves(acc, moves)
  {
    r := acc;
    var j := 0;
    while j < |moves|
      invariant 0 <= j <= |moves|
      invariant PutMoves(r, moves[j..]) == PutMoves(acc, moves)
    {
      PutMovesStep(r, moves, j);
      r := PutMove(r, moves[j]);
      j := j + 1;
    }
    assert moves[j..] == [];
  }

  /** `toBootstrap`: fill one accumulator document from the entries, in order. */
  method ToBootstrap(entries: seq<Entry>) returns (doc: Json)
    ensures doc == Obj(AssembleFrom([], entries))
  {
    var acc: Fields := [];
    var i := 0;
    while i < |entries|
      invariant 0 <= i <= |entries|
      invariant AssembleFrom(acc, entries[i..]) == AssembleFrom([], entries)
    {
      var e := entries[i];
      AssembleStep(acc, entries, i);
      var loc := Decode(e.path);
      if loc.Item? && !loc.meta {
        ApplyItem(acc, e);
        var fs := FieldsOf(e.value);
        acc := PutItem(acc, loc.section, loc.name, loc.instance, MergeFields(ReduceFields(fs)));
        acc := HandBack(acc, MovesInFields(fs));
      } else {
        acc := Apply(acc, e);
      }
      i := i + 1;
    }
    assert entries[i..] == [];
    doc := Obj(acc);
  }
}
