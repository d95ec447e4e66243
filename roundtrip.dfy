/**
 * Round trips: assembling the dispatch entries of a bootstrap section gives
 * the section back. Each lemma starts from any document `a` that does not yet
 * hold the section, and shows that the section is appended to it unchanged.
 */
module RoundTrip {
  import opened Wrappers
  import opened Json
  import opened Paths
  import opened References
  import opened Dispatch
  import opened Bootstrap

  /** The values carried by a run of entries. */
  function Values(es: seq<Entry>): (vs: seq<Json>)
    ensures |vs| == |es|
    ensures forall i :: 0 <= i < |es| ==> vs[i] == es[i].value
  {
    if es == [] then [] else [es[0].value] + Values(es[1..])
  }

  lemma LookupAbsent(a: Fields, k: string)
    requires k !in Keys(a)
    ensures Lookup(a, k) == None && Get(a, k) == []
  {
  }

  // ---- Users ----

  /** Every entry of `es` is a user entry. */
  predicate AllUsers(es: seq<Entry>) {
    forall i :: 0 <= i < |es| ==> Decode(es[i].path).User?
  }

  lemma ValuesCons(es: seq<Entry>)
    requires es != []
    ensures Values(es) == [es[0].value] + Values(es[1..])
  {
  }

  /** The first of a run of user entries appends its record. */
  lemma {:induction false} UserStep(acc: Fields, es: seq<Entry>)
    requires es != [] && AllUsers(es)
    ensures AllUsers(es[1..])
    ensures AssembleFrom(acc, es) == AssembleFrom(AppendUser(acc, es[0].value), es[1..])
  {
    assert Decode(es[0].path).User?;
    ApplyUser(acc, es[0]);
    AssembleFirst(acc, es);
    forall i | 0 <= i < |es[1..]|
      ensures Decode(es[1..][i].path).User?
    {
      assert es[1..][i] == es[i + 1];
    }
  }

  /**
   * User entries are appended to `_users` in arrival order whatever their id
   * segment says, and touch nothing else.
   */
  lemma {:induction false} AssembleUsers(acc: Fields, es: seq<Entry>)
    requires AllUsers(es)
    ensures UsersOf(AssembleFrom(acc, es)) == UsersOf(acc) + Values(es)
    ensures forall k :: k != UsersKey ==> Lookup(AssembleFrom(acc, es), k) == Lookup(acc, k)
    decreases |es|
  {
    if es != [] {
      UserStep(acc, es);
      var next := AppendUser(acc, es[0].value);
      AssembleUsers(next, es[1..]);
      ValuesCons(es);
      AppendAssoc(UsersOf(acc), [es[0].value], Values(es[1..]));
    } else {
      assert UsersOf(acc) + [] == UsersOf(acc);
    }
  }

  /** Appending a user when `_users` is the last key extends it in place. */
  lemma {:induction false} UsersLast(a: Fields, xs: seq<Json>, u: Json)
    requires UsersKey !in Keys(a)
    ensures AppendUser(a + [(UsersKey, Arr(xs))], u) == a + [(UsersKey, Arr(xs + [u]))]
  {
    LookupLast(a, UsersKey, Arr(xs));
    SetLast(a, UsersKey, Arr(xs), Arr(xs + [u]));
  }

  lemma {:induction false} UsersAfter(a: Fields, xs: seq<Json>, es: seq<Entry>)
    requires UsersKey !in Keys(a) && AllUsers(es)
    ensures AssembleFrom(a + [(UsersKey, Arr(xs))], es) == a + [(UsersKey, Arr(xs + Values(es)))]
    decreases |es|
  {
    if es == [] {
      assert xs + [] == xs;
    } else {
      UserStep(a + [(UsersKey, Arr(xs))], es);
      UsersLast(a, xs, es[0].value);
      UsersAfter(a, xs + [es[0].value], es[1..]);
      ValuesCons(es);
      AppendAssoc(xs, [es[0].value], Values(es[1..]));
    }
  }

  /** The first user entry opens `_users`. */
  lemma {:induction false} UsersOpen(a: Fields, u: Json)
    requires UsersKey !in Keys(a)
    ensures AppendUser(a, u) == a + [(UsersKey, Arr([u]))]
  {
    LookupAbsent(a, UsersKey);
    assert UsersOf(a) + [u] == [u];
    SetFresh(a, UsersKey, Arr([u]));
  }

  /** Assembling a non-empty run of user entries adds `_users` holding their values. */
  lemma {:induction false} AssembleUsersFresh(a: Fields, es: seq<Entry>)
    requires UsersKey !in Keys(a) && es != [] && AllUsers(es)
    ensures AssembleFrom(a, es) == a + [(UsersKey, Arr(Values(es)))]
  {
    UserStep(a, es);
    UsersOpen(a, es[0].value);
    UsersAfter(a, [es[0].value], es[1..]);
    ValuesCons(es);
  }

  /** The entries dispatched for valid users are user entries carrying the records. */
  lemma {:induction false} UsersEntriesShape(users: seq<Json>)
    requires forall i :: 0 <= i < |users| ==> ValidUser(users[i])
    ensures UsersEntries(users).Success?
    ensures AllUsers(UsersEntries(users).value) && Values(UsersEntries(users).value) == users
  {
    UsersEntriesFails(users);
    UsersEntriesAt(users);
    var es := UsersEntries(users).value;
    forall i | 0 <= i < |es|
      ensures Decode(es[i].path).User?
    {
      DecodeEncode(User(UserId(users[i])));
    }
    assert Values(es) == users;
  }

  /** The users of a document survive dispatch and assembly unchanged and in order. */
  lemma {:induction false} UsersRoundTrip(a: Fields, users: seq<Json>)
    requires UsersKey !in Keys(a) && users != []
    requires forall i :: 0 <= i < |users| ==> ValidUser(users[i])
    ensures UsersEntries(users).Success?
    ensures AssembleFrom(a, UsersEntries(users).value) == a + [(UsersKey, Arr(users))]
  {
    UsersEntriesShape(users);
    AssembleUsersFresh(a, UsersEntries(users).value);
  }

  // ---- Arbitrary sections ----

  /** A sub-key that survives the trip through a path: the root `/`, or a key not starting with a slash. */
  predicate Restorable(k: string) {
    k == "/" || (k != "" && k[0] != '/')
  }

  lemma RestorableSubKey(k: string)
    requires Restorable(k)
    ensures SubKey(StripSlash(k)) == k
  {
  }

  /** An arbitrary section whose sub-keys survive the trip, under a top-level key that does too. */
  predicate ArbitrarySection(top: string, fs: Fields) {
    IsSegment(top) && !IsCanonicalKey(top) && fs != [] && UniqueKeys(fs)
    && forall i :: 0 <= i < |fs| ==> Restorable(fs[i].0)
  }

  /** Storing a fresh sub-key under the last top-level key appends it there. */
  lemma {:induction false} PutOtherLast(a: Fields, top: string, xs: Fields, sub: string, v: Json)
    requires top !in Keys(a) && SubKey(sub) !in Keys(xs)
    ensures PutOther(a + [(top, Obj(xs))], top, sub, v) == a + [(top, Obj(xs + [(SubKey(sub), v)]))]
  {
    LookupLast(a, top, Obj(xs));
    SetFresh(xs, SubKey(sub), v);
    SetLast(a, top, Obj(xs), Obj(xs + [(SubKey(sub), v)]));
  }

  /** The first entry of an arbitrary section, applied after the section was opened. */
  lemma {:induction false} SubEntryStep(a: Fields, top: string, xs: Fields, fs: Fields)
    requires top !in Keys(a) && IsSegment(top) && !IsCanonicalKey(top)
    requires fs != [] && Restorable(fs[0].0) && fs[0].0 !in Keys(xs)
    ensures AssembleFrom(a + [(top, Obj(xs))], SubEntries(top, fs))
         == AssembleFrom(a + [(top, Obj(xs + [fs[0]]))], SubEntries(top, fs[1..]))
  {
    var es := SubEntries(top, fs);
    var sub := StripSlash(fs[0].0);
    DecodeEncode(Other(top, sub));
    RestorableSubKey(fs[0].0);
    ApplyOther(a + [(top, Obj(xs))], es[0], top, sub);
    PutOtherLast(a, top, xs, sub, fs[0].1);
    AssembleFirst(a + [(top, Obj(xs))], es);
    assert es == [es[0]] + SubEntries(top, fs[1..]);
  }

  /** The sub-keys of `fs` are distinct, survive the trip, and are not yet among `xs`. */
  predicate FreshSubKeys(xs: Fields, fs: Fields) {
    UniqueKeys(fs) && forall i :: 0 <= i < |fs| ==> Restorable(fs[i].0) && fs[i].0 !in Keys(xs)
  }

  lemma {:induction false} FreshSubKeysTail(xs: Fields, fs: Fields)
    requires fs != [] && FreshSubKeys(xs, fs)
    ensures Restorable(fs[0].0) && fs[0].0 !in Keys(xs)
    ensures FreshSubKeys(xs + [fs[0]], fs[1..])
  {
    var rest := fs[1..];
    KeysAppend(xs, [fs[0]]);
    assert Keys([fs[0]]) == [fs[0].0];
    assert fs[0].0 !in Keys(rest);
    forall i | 0 <= i < |rest|
      ensures Restorable(rest[i].0) && rest[i].0 !in Keys(xs + [fs[0]])
    {
      assert rest[i] == fs[i + 1];
      assert Keys(rest)[i] == rest[i].0;
    }
  }

  lemma {:induction false} SubEntriesAfter(a: Fields, top: string, xs: Fields, fs: Fields)
    requires top !in Keys(a) && IsSegment(top) && !IsCanonicalKey(top)
    requires FreshSubKeys(xs, fs)
    ensures AssembleFrom(a + [(top, Obj(xs))], SubEntries(top, fs)) == a + [(top, Obj(xs + fs))]
    decreases |fs|
  {
    if fs == [] {
      assert xs + [] == xs;
    } else {
      FreshSubKeysTail(xs, fs);
      SubEntryStep(a, top, xs, fs);
      SubEntriesAfter(a, top, xs + [fs[0]], fs[1..]);
      ConsAssoc(xs, fs);
    }
  }

  /** The first entry of an arbitrary section opens the section. */
  lemma {:induction false} SubEntryOpen(a: Fields, top: string, fs: Fields)
    requires top !in Keys(a) && IsSegment(top) && !IsCanonicalKey(top)
    requires fs != [] && Restorable(fs[0].0)
    ensures AssembleFrom(a, SubEntries(top, fs)) == AssembleFrom(a + [(top, Obj([fs[0]]))], SubEntries(top, fs[1..]))
  {
    var es := SubEntries(top, fs);
    var sub := StripSlash(fs[0].0);
    DecodeEncode(Other(top, sub));
    RestorableSubKey(fs[0].0);
    LookupAbsent(a, top);
    SetFresh(a, top, Obj([fs[0]]));
    SetFresh([], fs[0].0, fs[0].1);
    assert [] + [fs[0]] == [fs[0]];
    ApplyOther(a, es[0], top, sub);
    AssembleFirst(a, es);
    assert es == [es[0]] + SubEntries(top, fs[1..]);
  }

  /** One arbitrary section survives dispatch and assembly unchanged. */
  lemma {:induction false} SubEntriesRoundTrip(a: Fields, top: string, fs: Fields)
    requires top !in Keys(a) && ArbitrarySection(top, fs)
    ensures AssembleFrom(a, SubEntries(top, fs)) == a + [(top, Obj(fs))]
  {
    assert FreshSubKeys([], fs);
    FreshSubKeysTail([], fs);
    assert [] + [fs[0]] == [fs[0]];
    calc {
      AssembleFrom(a, SubEntries(top, fs));
      == { SubEntryOpen(a, top, fs); }
      AssembleFrom(a + [(top, Obj([fs[0]]))], SubEntries(top, fs[1..]));
      == { SubEntriesAfter(a, top, [fs[0]], fs[1..]); }
      a + [(top, Obj([fs[0]] + fs[1..]))];
      == { assert [fs[0]] + fs[1..] == fs; }
      a + [(top, Obj(fs))];
    }
  }

  /** Every top-level key of `doc` is an arbitrary section that survives the trip. */
  predicate ArbitraryDoc(doc: Fields) {
    UniqueKeys(doc)
    && forall i :: 0 <= i < |doc| ==> doc[i].1.Obj? && ArbitrarySection(doc[i].0, doc[i].1.fields)
  }

  /** The sections of `doc` survive the trip and none of their keys is in `a`. */
  predicate FreshSections(a: Fields, doc: Fields) {
    ArbitraryDoc(doc) && forall i :: 0 <= i < |doc| ==> doc[i].0 !in Keys(a)
  }

  lemma {:induction false} FreshSectionsTail(a: Fields, doc: Fields)
    requires doc != [] && FreshSections(a, doc)
    ensures doc[0].1.Obj? && ArbitrarySection(doc[0].0, doc[0].1.fields) && doc[0].0 !in Keys(a)
    ensures FreshSections(a + [doc[0]], doc[1..])
    ensures ArbitraryEntries(doc) == SubEntries(doc[0].0, doc[0].1.fields) + ArbitraryEntries(doc[1..])
  {
    var rest := doc[1..];
    KeysAppend(a, [doc[0]]);
    assert Keys([doc[0]]) == [doc[0].0];
    assert doc[0].0 !in Keys(rest);
    forall i | 0 <= i < |rest|
      ensures rest[i].1.Obj? && ArbitrarySection(rest[i].0, rest[i].1.fields) && rest[i].0 !in Keys(a + [doc[0]])
    {
      assert rest[i] == doc[i + 1];
      assert Keys(rest)[i] == rest[i].0;
    }
  }

  /** Arbitrary data survives dispatch and assembly unchanged, keys and order included. */
  lemma {:induction false} ArbitraryRoundTrip(a: Fields, doc: Fields)
    requires ArbitraryDoc(doc)
    requires forall i :: 0 <= i < |doc| ==> doc[i].0 !in Keys(a)
    ensures AssembleFrom(a, ArbitraryEntries(doc)) == a + doc
    decreases |doc|
  {
    if doc == [] {
      assert a + [] == a;
    } else {
      assert FreshSections(a, doc);
      FreshSectionsTail(a, doc);
      var first := SubEntries(doc[0].0, doc[0].1.fields);
      AssembleAppend(a, first, ArbitraryEntries(doc[1..]));
      SubEntriesRoundTrip(a, doc[0].0, doc[0].1.fields);
      assert doc[0] == (doc[0].0, Obj(doc[0].1.fields));
      ArbitraryRoundTrip(a + [doc[0]], doc[1..]);
      ConsAssoc(a, doc);
    }
  }

  // ---- Pages ----

  /** A page's own fields: all of them but a last `meta` field. */
  function OwnFields(fs: Fields): (own: Fields)
    ensures |own| <= |fs|
  {
    if fs != [] && fs[|fs| - 1].0 == MetaKey then fs[..|fs| - 1] else fs
  }

  /**
   * A page that survives the trip: distinct keys, no legacy `url` (it would
   * come back as `customUrl`), and `meta`, if present, as its last field
   * (the `/meta` entry is applied after the page's own entry).
   */
  predicate PageBody(fs: Fields) {
    UniqueKeys(OwnFields(fs)) && MetaKey !in Keys(OwnFields(fs)) && UrlKey !in Keys(OwnFields(fs))
  }

  /** A page is its own fields, followed by its `meta` if it has one. */
  lemma OwnFieldsSplit(fs: Fields)
    ensures OwnFields(fs) == fs || (fs != [] && fs == OwnFields(fs) + [(MetaKey, fs[|fs| - 1].1)])
  {
    if fs != [] && fs[|fs| - 1].0 == MetaKey {
      assert fs == fs[..|fs| - 1] + [fs[|fs| - 1]];
    }
  }

  /** A single segment has no leading slash to strip. */
  lemma SegmentUnslashed(key: string)
    requires IsSegment(key)
    ensures StripSlash(key) == key
  {
    if key != [] {
      assert key[0] in key;
    }
  }

  /** The first entry of a page that survives the trip is its own fields at its path. */
  lemma PageEntriesFirst(key: string, fs: Fields)
    requires IsSegment(key) && PageBody(fs)
    ensures PageEntries(key, Obj(fs)) != []
    ensures PageEntries(key, Obj(fs))[0] == Entry(Encode(Page(key, false)), Obj(OwnFields(fs)))
  {
    OwnFieldsSplit(fs);
    if OwnFields(fs) == fs {
      PageEntriesPlain(key, fs);
    } else {
      PageEntriesMeta(key, OwnFields(fs), fs[|fs| - 1].1);
    }
  }

  /** The entry of a page without `meta` and without `url`: the page itself. */
  lemma PageEntriesPlain(key: string, fs: Fields)
    requires IsSegment(key) && MetaKey !in Keys(fs) && UrlKey !in Keys(fs)
    ensures PageEntries(key, Obj(fs)) == [Entry(Encode(Page(key, false)), Obj(fs))]
  {
    SegmentUnslashed(key);
    RemoveAbsent(fs, MetaKey);
    assert NormalizeUrl(fs) == fs;
  }

  /** The entries of a page whose last field is `meta`: the page without it, then its `meta`. */
  lemma PageEntriesMeta(key: string, own: Fields, m: Json)
    requires IsSegment(key) && MetaKey !in Keys(own) && UrlKey !in Keys(own)
    ensures PageEntries(key, Obj(own + [(MetaKey, m)]))
         == [Entry(Encode(Page(key, false)), Obj(own)), Entry(Encode(Page(key, true)), m)]
  {
    var fs := own + [(MetaKey, m)];
    var loc := Page(key, false);
    assert MetaKey in Keys(fs) && UrlKey !in Keys(fs) by {
      KeysAppend(own, [(MetaKey, m)]);
    }
    var r := SplitMeta(loc, fs);
    assert r[0] == Entry(Encode(loc), Obj(own)) by {
      RemoveLast(own, MetaKey, m);
    }
    assert r[1] == Entry(Encode(Page(key, true)), m) by {
      LookupLast(own, MetaKey, m);
    }
    calc {
      PageEntries(key, Obj(fs));
      { SegmentUnslashed(key); }
      SplitMeta(loc, NormalizeUrl(fs));
      r;
      [r[0], r[1]];
    }
  }

  /** A page's own entry, applied when `_pages` is the last key and the page is new, appends the page. */
  lemma {:induction false} PutPageMain(a: Fields, xs: Fields, key: string, g: Fields)
    requires PagesKey !in Keys(a) && key !in Keys(xs)
    requires UniqueKeys(g) && UrlKey !in Keys(g)
    ensures PutPage(a + [(PagesKey, Obj(xs))], key, MergeFields(g)) == a + [(PagesKey, Obj(xs + [(key, Obj(g))]))]
  {
    LookupLast(a, PagesKey, Obj(xs));
    LookupAbsent(xs, key);
    MergeFresh([], g);
    assert [] + g == g;
    assert NormalizeUrl(g) == g;
    SetFresh(xs, key, Obj(g));
    SetLast(a, PagesKey, Obj(xs), Obj(xs + [(key, Obj(g))]));
  }

  /** A page's `/meta` entry, applied right after its own entry, appends `meta` to the page. */
  lemma {:induction false} PutPageMetaLast(a: Fields, xs: Fields, key: string, g: Fields, m: Json)
    requires PagesKey !in Keys(a) && key !in Keys(xs) && MetaKey !in Keys(g)
    ensures PutPage(a + [(PagesKey, Obj(xs + [(key, Obj(g))]))], key, MergeMeta(m))
         == a + [(PagesKey, Obj(xs + [(key, Obj(g + [(MetaKey, m)]))]))]
  {
    var pages := xs + [(key, Obj(g))];
    LookupLast(a, PagesKey, Obj(pages));
    LookupLast(xs, key, Obj(g));
    SetFresh(g, MetaKey, m);
    assert ApplyEdit(g, MergeMeta(m)) == g + [(MetaKey, m)];
    SetLast(xs, key, Obj(g), Obj(g + [(MetaKey, m)]));
    SetLast(a, PagesKey, Obj(pages), Obj(xs + [(key, Obj(g + [(MetaKey, m)]))]));
  }

  /** Folding one entry is applying it. */
  lemma AssembleOne(acc: Fields, e: Entry)
    ensures AssembleFrom(acc, [e]) == Apply(acc, e)
  {
    AssembleFirst(acc, [e]);
    assert [e][1..] == [];
  }

  /** Folding two entries is applying them in turn. */
  lemma AssembleTwo(acc: Fields, e: Entry, f: Entry)
    ensures AssembleFrom(acc, [e, f]) == Apply(Apply(acc, e), f)
  {
    AssembleFirst(acc, [e, f]);
    assert [e, f][1..] == [f];
    AssembleOne(Apply(acc, e), f);
  }

  lemma PageMainStep(a: Fields, xs: Fields, key: string, g: Fields)
    requires PagesKey !in Keys(a) && key !in Keys(xs) && IsSegment(key)
    requires UniqueKeys(g) && UrlKey !in Keys(g)
    ensures Apply(a + [(PagesKey, Obj(xs))], Entry(Encode(Page(key, false)), Obj(g)))
         == a + [(PagesKey, Obj(xs + [(key, Obj(g))]))]
  {
    DecodePagePath(key, false);
    ApplyPage(a + [(PagesKey, Obj(xs))], Entry(Encode(Page(key, false)), Obj(g)), key, false);
    PutPageMain(a, xs, key, g);
  }

  lemma PageMetaStep(a: Fields, xs: Fields, key: string, g: Fields, m: Json)
    requires PagesKey !in Keys(a) && key !in Keys(xs) && IsSegment(key) && MetaKey !in Keys(g)
    ensures Apply(a + [(PagesKey, Obj(xs + [(key, Obj(g))]))], Entry(Encode(Page(key, true)), m))
         == a + [(PagesKey, Obj(xs + [(key, Obj(g + [(MetaKey, m)]))]))]
  {
    DecodePagePath(key, true);
    ApplyPage(a + [(PagesKey, Obj(xs + [(key, Obj(g))]))], Entry(Encode(Page(key, true)), m), key, true);
    PutPageMetaLast(a, xs, key, g, m);
  }

  /** The entries of one page, applied when `_pages` is the last key, append the page unchanged. */
  lemma PageStep(a: Fields, xs: Fields, key: string, fs: Fields)
    requires PagesKey !in Keys(a) && key !in Keys(xs) && IsSegment(key) && PageBody(fs)
    ensures AssembleFrom(a + [(PagesKey, Obj(xs))], PageEntries(key, Obj(fs))) == a + [(PagesKey, Obj(xs + [(key, Obj(fs))]))]
  {
    var acc := a + [(PagesKey, Obj(xs))];
    var own := OwnFields(fs);
    OwnFieldsSplit(fs);
    var e0 := Entry(Encode(Page(key, false)), Obj(own));
    PageMainStep(a, xs, key, own);
    if own == fs {
      PageEntriesPlain(key, fs);
      AssembleOne(acc, e0);
    } else {
      var m := fs[|fs| - 1].1;
      PageEntriesMeta(key, own, m);
      AssembleTwo(acc, e0, Entry(Encode(Page(key, true)), m));
      PageMetaStep(a, xs, key, own, m);
    }
  }

  /** The pages of `ps` survive the trip, their keys are distinct, and none is yet among `xs`. */
  predicate FreshPages(xs: Fields, ps: Fields) {
    UniqueKeys(ps)
    && forall i :: 0 <= i < |ps| ==> IsSegment(ps[i].0) && ps[i].1.Obj? && PageBody(ps[i].1.fields) && ps[i].0 !in Keys(xs)
  }

  lemma {:induction false} FreshPagesTail(xs: Fields, ps: Fields)
    requires ps != [] && FreshPages(xs, ps)
    ensures IsSegment(ps[0].0) && ps[0].1 == Obj(ps[0].1.fields) && PageBody(ps[0].1.fields) && ps[0].0 !in Keys(xs)
    ensures FreshPages(xs + [ps[0]], ps[1..])
    ensures PagesEntries(ps) == PageEntries(ps[0].0, ps[0].1) + PagesEntries(ps[1..])
  {
    var rest := ps[1..];
    KeysAppend(xs, [ps[0]]);
    assert Keys([ps[0]]) == [ps[0].0];
    assert ps[0].0 !in Keys(rest);
    forall i | 0 <= i < |rest|
      ensures IsSegment(rest[i].0) && rest[i].1.Obj? && PageBody(rest[i].1.fields) && rest[i].0 !in Keys(xs + [ps[0]])
    {
      assert rest[i] == ps[i + 1];
      assert Keys(rest)[i] == rest[i].0;
    }
  }

  lemma {:induction false} PagesAfter(a: Fields, xs: Fields, ps: Fields)
    requires PagesKey !in Keys(a) && FreshPages(xs, ps)
    ensures AssembleFrom(a + [(PagesKey, Obj(xs))], PagesEntries(ps)) == a + [(PagesKey, Obj(xs + ps))]
    decreases |ps|
  {
    if ps == [] {
      assert xs + [] == xs;
    } else {
      FreshPagesTail(xs, ps);
      var p := ps[0];
      AssembleAppend(a + [(PagesKey, Obj(xs))], PageEntries(p.0, p.1), PagesEntries(ps[1..]));
      PageStep(a, xs, p.0, p.1.fields);
      PagesAfter(a, xs + [p], ps[1..]);
      ConsAssoc(xs, ps);
    }
  }

  /** A page edit on a document without `_pages` is the same edit on an empty `_pages` added last. */
  lemma PutPageOpen(a: Fields, key: string, e: Edit)
    requires PagesKey !in Keys(a)
    ensures PutPage(a, key, e) == PutPage(a + [(PagesKey, Obj([]))], key, e)
  {
    LookupAbsent(a, PagesKey);
    LookupLast(a, PagesKey, Obj([]));
    var v := Obj(Set([], key, Obj(ApplyEdit([], e))));
    var w := Obj(Set([], key, Obj(NormalizeUrl(ApplyEdit([], e)))));
    SetFresh(a, PagesKey, v);
    SetLast(a, PagesKey, Obj([]), v);
    SetFresh(a, PagesKey, w);
    SetLast(a, PagesKey, Obj([]), w);
  }

  /** A non-empty pages section survives dispatch and assembly unchanged, keys and order included. */
  lemma {:induction false} PagesRoundTrip(a: Fields, ps: Fields)
    requires PagesKey !in Keys(a) && ps != [] && FreshPages([], ps)
    ensures AssembleFrom(a, PagesEntries(ps)) == a + [(PagesKey, Obj(ps))]
  {
    FreshPagesTail([], ps);
    var key, fs := ps[0].0, ps[0].1.fields;
    var es := PagesEntries(ps);
    var open := a + [(PagesKey, Obj([]))];
    var e0 := Entry(Encode(Page(key, false)), Obj(OwnFields(fs)));
    PageEntriesFirst(key, fs);
    assert es[0] == e0;
    calc {
      AssembleFrom(a, es);
      { AssembleFirst(a, es); }
      AssembleFrom(Apply(a, e0), es[1..]);
      { DecodePagePath(key, false); ApplyPage(a, e0, key, false); ApplyPage(open, e0, key, false);
        PutPageOpen(a, key, MergeFields(OwnFields(fs))); }
      AssembleFrom(Apply(open, e0), es[1..]);
      { AssembleFirst(open, es); }
      AssembleFrom(open, es);
      { PagesAfter(a, [], ps); assert [] + ps == ps; }
      a + [(PagesKey, Obj(ps))];
    }
  }

  // ---- Components and layouts ----

  lemma EmptyPrefix<T>(s: seq<T>)
    ensures [] + s == s
  {
  }

  /** An item's default variant: all of its fields but a last `instances` field. */
  function DefaultPart(fs: Fields): (d: Fields)
    ensures |d| <= |fs|
  {
    if fs != [] && fs[|fs| - 1].0 == InstancesKey then fs[..|fs| - 1] else fs
  }

  /** The instances of an item whose last field is `instances`; none otherwise. */
  function InstancesPart(fs: Fields): Fields {
    if fs != [] && fs[|fs| - 1].0 == InstancesKey then FieldsOf(fs[|fs| - 1].1) else []
  }

  /**
   * A variant that survives the trip: no references (a reference is resolved
   * on the way out and handed back as a separate variant on the way in),
   * distinct keys, and `meta`, if present, as its last field.
   */
  predicate VariantBody(fs: Fields) {
    RefsInFields(fs) == {} && UniqueKeys(OwnFields(fs)) && MetaKey !in Keys(OwnFields(fs))
  }

  /** The instances `ins` survive the trip, their names are distinct, and none is yet among `js`. */
  predicate FreshInstances(js: Fields, ins: Fields) {
    UniqueKeys(ins)
    && forall i :: 0 <= i < |ins| ==>
         IsSegment(ins[i].0) && ins[i].1.Obj? && VariantBody(ins[i].1.fields) && ins[i].0 !in Keys(js)
  }

  /**
   * An item that survives the trip: a default variant without `instances`,
   * then, as its last field if at all, a non-empty `instances` object whose
   * instances survive. An item with neither is not emitted at all.
   */
  predicate ItemBody(fs: Fields) {
    var d := DefaultPart(fs);
    InstancesKey !in Keys(d) && VariantBody(d)
    && (d == fs ==> d != [])
    && (d != fs ==> fs == d + [(InstancesKey, Obj(InstancesPart(fs)))]
                    && InstancesPart(fs) != [] && FreshInstances([], InstancesPart(fs)))
  }

  /** No variant of section `sec` is consumed by a reference. */
  predicate Unconsumed(sec: Section, consumed: set<Location>) {
    forall l :: l in consumed ==> !(l.Item? && l.section == sec)
  }

  /** The references of a concatenation are those of its parts. */
  lemma {:induction false} RefsInFieldsAppend(a: Fields, b: Fields)
    ensures RefsInFields(a + b) == RefsInFields(a) + RefsInFields(b)
    decreases |a|
  {
    if a == [] {
      assert a + b == b;
    } else {
      HeadTailAppend(a, b);
      RefsInFieldsAppend(a[1..], b);
    }
  }

  /** A variant that survives is its own fields, without references, then maybe `meta`. */
  lemma VariantBodySplit(fs: Fields)
    requires VariantBody(fs)
    ensures RefsInFields(OwnFields(fs)) == {}
    ensures OwnFields(fs) != fs ==> fs == OwnFields(fs) + [(MetaKey, fs[|fs| - 1].1)]
  {
    OwnFieldsSplit(fs);
    if OwnFields(fs) != fs {
      RefsInFieldsAppend(OwnFields(fs), [(MetaKey, fs[|fs| - 1].1)]);
    }
  }

  /** The entry of a variant without references and without `meta`: the variant itself. */
  lemma VariantEntriesPlain(loc: Location, fs: Fields, doc: Fields)
    requires loc.Item? && !loc.meta && RefsInFields(fs) == {} && MetaKey !in Keys(fs)
    ensures VariantEntries(loc, fs, doc) == [Entry(Encode(loc), Obj(fs))]
  {
    RefFreeFields(fs, doc);
    RemoveAbsent(fs, MetaKey);
  }

  /** The entries of a variant without references whose last field is `meta`: the rest, then `meta`. */
  lemma VariantEntriesMeta(sec: Section, name: string, inst: Option<string>, own: Fields, m: Json, doc: Fields)
    requires MetaKey !in Keys(own) && RefsInFields(own + [(MetaKey, m)]) == {}
    ensures VariantEntries(Item(sec, name, inst, false), own + [(MetaKey, m)], doc)
         == [Entry(Encode(Item(sec, name, inst, false)), Obj(own)), Entry(Encode(Item(sec, name, inst, true)), m)]
  {
    RefFreeFields(own + [(MetaKey, m)], doc);
    RemoveLast(own, MetaKey, m);
    LookupLast(own, MetaKey, m);
  }

  /** The first entry of a variant that survives: its own fields, at its path. */
  lemma VariantEntriesFirst(loc: Location, fs: Fields, doc: Fields)
    requires loc.Item? && !loc.meta && VariantBody(fs)
    ensures VariantEntries(loc, fs, doc) != []
    ensures VariantEntries(loc, fs, doc)[0] == Entry(Encode(loc), Obj(OwnFields(fs)))
  {
    VariantBodySplit(fs);
    if OwnFields(fs) == fs {
      VariantEntriesPlain(loc, fs, doc);
    } else {
      VariantEntriesMeta(loc.section, loc.name, loc.instance, OwnFields(fs), fs[|fs| - 1].1, doc);
    }
  }

  /** The default part of an item is the item without `instances`, and its instances are its last field's. */
  lemma ItemParts(fs: Fields)
    requires ItemBody(fs)
    ensures Remove(fs, InstancesKey) == DefaultPart(fs)
    ensures (if Lookup(fs, InstancesKey).Some? then FieldsOf(Lookup(fs, InstancesKey).value) else []) == InstancesPart(fs)
    ensures DefaultPart(fs) == fs <==> InstancesPart(fs) == []
  {
    var d := DefaultPart(fs);
    if d == fs {
      RemoveAbsent(fs, InstancesKey);
    } else {
      RemoveLast(d, InstancesKey, Obj(InstancesPart(fs)));
      LookupLast(d, InstancesKey, Obj(InstancesPart(fs)));
    }
  }

  /** The entries of an item that survives: its default variant, unless empty, then its instances. */
  lemma ItemEntriesSplit(sec: Section, name: string, fs: Fields, doc: Fields, consumed: set<Location>)
    requires ItemBody(fs) && Unconsumed(sec, consumed)
    ensures ItemEntries(sec, name, Obj(fs), doc, consumed)
         == (if DefaultPart(fs) == [] then [] else VariantEntries(Item(sec, name, None, false), DefaultPart(fs), doc))
            + InstanceEntries(sec, name, InstancesPart(fs), doc, consumed)
  {
    ItemParts(fs);
    assert Item(sec, name, None, false) !in consumed;
  }

  /** The first entry of a fresh instance list: the first instance's own fields. */
  lemma InstanceEntriesFirst(sec: Section, name: string, ins: Fields, doc: Fields, consumed: set<Location>)
    requires ins != [] && FreshInstances([], ins) && Unconsumed(sec, consumed)
    ensures InstanceEntries(sec, name, ins, doc, consumed) != []
    ensures InstanceEntries(sec, name, ins, doc, consumed)[0]
         == Entry(Encode(Item(sec, name, Some(ins[0].0), false)), Obj(OwnFields(ins[0].1.fields)))
  {
    var loc := Item(sec, name, Some(ins[0].0), false);
    assert loc !in consumed;
    VariantEntriesFirst(loc, ins[0].1.fields, doc);
  }

  /** The first entry of an item that survives is for one of its variants. */
  lemma ItemEntriesFirst(sec: Section, name: string, fs: Fields, doc: Fields, consumed: set<Location>)
    requires IsSegment(name) && ItemBody(fs) && Unconsumed(sec, consumed)
    ensures ItemEntries(sec, name, Obj(fs), doc, consumed) != []
    ensures var loc := Decode(ItemEntries(sec, name, Obj(fs), doc, consumed)[0].path);
      loc.Item? && loc.section == sec && loc.name == name
  {
    ItemEntriesSplit(sec, name, fs, doc, consumed);
    ItemParts(fs);
    var d, ins := DefaultPart(fs), InstancesPart(fs);
    if d != [] {
      VariantEntriesFirst(Item(sec, name, None, false), d, doc);
      DecodeDefaultPath(sec, name, false);
    } else {
      InstanceEntriesFirst(sec, name, ins, doc, consumed);
      DecodeInstancePath(sec, name, ins[0].0, false);
    }
  }

  // Item edits on the bodies the trip builds.

  lemma EditDefaultFresh(own: Fields)
    requires UniqueKeys(own) && InstancesKey !in Keys(own)
    ensures EditItem([], None, MergeFields(own)) == own
  {
    RemoveAbsent(own, InstancesKey);
    MergeFresh([], own);
    assert [] + own == own;
  }

  lemma EditDefaultMeta(own: Fields, m: Json)
    requires MetaKey !in Keys(own)
    ensures EditItem(own, None, MergeMeta(m)) == own + [(MetaKey, m)]
  {
    LookupAbsent(own, MetaKey);
    SetFresh(own, MetaKey, m);
  }

  lemma EditInstanceNew(g: Fields, js: Fields, i: string, own: Fields)
    requires InstancesKey !in Keys(g) && i !in Keys(js) && UniqueKeys(own)
    ensures EditItem(g + [(InstancesKey, Obj(js))], Some(i), MergeFields(own))
         == g + [(InstancesKey, Obj(js + [(i, Obj(own))]))]
  {
    LookupLast(g, InstancesKey, Obj(js));
    LookupAbsent(js, i);
    MergeFresh([], own);
    assert [] + own == own;
    SetFresh(js, i, Obj(own));
    SetLast(g, InstancesKey, Obj(js), Obj(js + [(i, Obj(own))]));
  }

  lemma EditInstanceMeta(g: Fields, js: Fields, i: string, own: Fields, m: Json)
    requires InstancesKey !in Keys(g) && i !in Keys(js) && MetaKey !in Keys(own)
    ensures EditItem(g + [(InstancesKey, Obj(js + [(i, Obj(own))]))], Some(i), MergeMeta(m))
         == g + [(InstancesKey, Obj(js + [(i, Obj(own + [(MetaKey, m)]))]))]
  {
    var insts := js + [(i, Obj(own))];
    LookupLast(g, InstancesKey, Obj(insts));
    LookupLast(js, i, Obj(own));
    LookupAbsent(own, MetaKey);
    SetFresh(own, MetaKey, m);
    SetLast(js, i, Obj(own), Obj(own + [(MetaKey, m)]));
    SetLast(g, InstancesKey, Obj(insts), Obj(js + [(i, Obj(own + [(MetaKey, m)]))]));
  }

  /** An instance edit on an item without `instances` is the same edit on an empty `instances` added last. */
  lemma EditInstanceOpen(g: Fields, i: string, e: Edit)
    requires InstancesKey !in Keys(g)
    ensures EditItem(g, Some(i), e) == EditItem(g + [(InstancesKey, Obj([]))], Some(i), e)
  {
    var v := Obj(Set([], i, Obj(ApplyEdit([], e))));
    LookupAbsent(g, InstancesKey);
    LookupLast(g, InstancesKey, Obj([]));
    SetFresh(g, InstancesKey, v);
    SetLast(g, InstancesKey, Obj([]), v);
  }

  // Item edits when the item is the last of the last section.

  /** The document `a`, then section `sec` whose items are `xs` and, last, item `name` with fields `g`. */
  function ItemAt(a: Fields, sec: Section, xs: Fields, name: string, g: Fields): Fields {
    a + [(SectionKey(sec), Obj(xs + [(name, Obj(g))]))]
  }

  lemma {:induction false} PutItemLast(a: Fields, sec: Section, xs: Fields, name: string, g: Fields,
                                       inst: Option<string>, e: Edit)
    requires SectionKey(sec) !in Keys(a) && name !in Keys(xs)
    ensures PutItem(ItemAt(a, sec, xs, name, g), sec, name, inst, e) == ItemAt(a, sec, xs, name, EditItem(g, inst, e))
  {
    var key := SectionKey(sec);
    var items := xs + [(name, Obj(g))];
    var g' := EditItem(g, inst, e);
    LookupLast(a, key, Obj(items));
    LookupLast(xs, name, Obj(g));
    SetLast(xs, name, Obj(g), Obj(g'));
    SetLast(a, key, Obj(items), Obj(xs + [(name, Obj(g'))]));
  }

  /** An edit of an item missing from the last section is the same edit on an empty item added last. */
  lemma {:induction false} PutItemOpen(a: Fields, sec: Section, xs: Fields, name: string, inst: Option<string>, e: Edit)
    requires SectionKey(sec) !in Keys(a) && name !in Keys(xs)
    ensures PutItem(a + [(SectionKey(sec), Obj(xs))], sec, name, inst, e) == PutItem(ItemAt(a, sec, xs, name, []), sec, name, inst, e)
  {
    var key := SectionKey(sec);
    var g' := EditItem([], inst, e);
    LookupLast(a, key, Obj(xs));
    LookupAbsent(xs, name);
    SetFresh(xs, name, Obj(g'));
    SetLast(a, key, Obj(xs), Obj(xs + [(name, Obj(g'))]));
    PutItemLast(a, sec, xs, name, [], inst, e);
  }

  /** An item edit on a document without its section is the same edit on an empty section added last. */
  lemma PutItemSectionOpen(a: Fields, sec: Section, name: string, inst: Option<string>, e: Edit)
    requires SectionKey(sec) !in Keys(a)
    ensures PutItem(a, sec, name, inst, e) == PutItem(a + [(SectionKey(sec), Obj([]))], sec, name, inst, e)
  {
    var key := SectionKey(sec);
    var v := Obj(Set([], name, Obj(EditItem([], inst, e))));
    LookupAbsent(a, key);
    LookupLast(a, key, Obj([]));
    SetFresh(a, key, v);
    SetLast(a, key, Obj([]), v);
  }

  lemma PutItemInstancesOpen(a: Fields, sec: Section, xs: Fields, name: string, g: Fields, i: string, e: Edit)
    requires SectionKey(sec) !in Keys(a) && name !in Keys(xs) && InstancesKey !in Keys(g)
    ensures PutItem(ItemAt(a, sec, xs, name, g), sec, name, Some(i), e)
         == PutItem(ItemAt(a, sec, xs, name, g + [(InstancesKey, Obj([]))]), sec, name, Some(i), e)
  {
    PutItemLast(a, sec, xs, name, g, Some(i), e);
    PutItemLast(a, sec, xs, name, g + [(InstancesKey, Obj([]))], Some(i), e);
    EditInstanceOpen(g, i, e);
  }

  /** The edit an item entry makes to its variant. */
  function EntryEdit(e: Entry): Edit {
    if Decode(e.path).Item? && Decode(e.path).meta then MergeMeta(e.value)
    else MergeFields(ReduceFields(FieldsOf(e.value)))
  }

  /** Two documents on which a first item entry's edit agrees give the same document after all entries. */
  lemma AssembleSame(acc1: Fields, acc2: Fields, es: seq<Entry>)
    requires es != [] && Decode(es[0].path).Item?
    requires var loc := Decode(es[0].path);
      PutItem(acc1, loc.section, loc.name, loc.instance, EntryEdit(es[0]))
        == PutItem(acc2, loc.section, loc.name, loc.instance, EntryEdit(es[0]))
    ensures AssembleFrom(acc1, es) == AssembleFrom(acc2, es)
  {
    AssembleFirst(acc1, es);
    AssembleFirst(acc2, es);
  }

  // One entry at a time.

  lemma DefaultMainStep(a: Fields, sec: Section, xs: Fields, name: string, own: Fields)
    requires SectionKey(sec) !in Keys(a) && name !in Keys(xs) && IsSegment(name)
    requires UniqueKeys(own) && InstancesKey !in Keys(own) && RefsInFields(own) == {}
    ensures Apply(ItemAt(a, sec, xs, name, []), Entry(Encode(Item(sec, name, None, false)), Obj(own)))
         == ItemAt(a, sec, xs, name, own)
  {
    DecodeDefaultPath(sec, name, false);
    ApplyItem(ItemAt(a, sec, xs, name, []), Entry(Encode(Item(sec, name, None, false)), Obj(own)));
    RefFreeFields(own, []);
    PutItemLast(a, sec, xs, name, [], None, MergeFields(own));
    EditDefaultFresh(own);
  }

  lemma DefaultMetaStep(a: Fields, sec: Section, xs: Fields, name: string, own: Fields, m: Json)
    requires SectionKey(sec) !in Keys(a) && name !in Keys(xs) && IsSegment(name) && MetaKey !in Keys(own)
    ensures Apply(ItemAt(a, sec, xs, name, own), Entry(Encode(Item(sec, name, None, true)), m))
         == ItemAt(a, sec, xs, name, own + [(MetaKey, m)])
  {
    DecodeDefaultPath(sec, name, true);
    ApplyItemMeta(ItemAt(a, sec, xs, name, own), Entry(Encode(Item(sec, name, None, true)), m), sec, name, None);
    PutItemLast(a, sec, xs, name, own, None, MergeMeta(m));
    EditDefaultMeta(own, m);
  }

  lemma InstanceMainStep(a: Fields, sec: Section, xs: Fields, name: string, g: Fields, js: Fields, i: string, own: Fields)
    requires SectionKey(sec) !in Keys(a) && name !in Keys(xs) && IsSegment(name) && IsSegment(i)
    requires InstancesKey !in Keys(g) && i !in Keys(js) && UniqueKeys(own) && RefsInFields(own) == {}
    ensures Apply(ItemAt(a, sec, xs, name, g + [(InstancesKey, Obj(js))]), Entry(Encode(Item(sec, name, Some(i), false)), Obj(own)))
         == ItemAt(a, sec, xs, name, g + [(InstancesKey, Obj(js + [(i, Obj(own))]))])
  {
    var before := g + [(InstancesKey, Obj(js))];
    var e := Entry(Encode(Item(sec, name, Some(i), false)), Obj(own));
    calc {
      Apply(ItemAt(a, sec, xs, name, before), e);
      { DecodeInstancePath(sec, name, i, false); ApplyItem(ItemAt(a, sec, xs, name, before), e); RefFreeFields(own, []); }
      PutMoves(PutItem(ItemAt(a, sec, xs, name, before), sec, name, Some(i), MergeFields(own)), []);
      PutItem(ItemAt(a, sec, xs, name, before), sec, name, Some(i), MergeFields(own));
      { PutItemLast(a, sec, xs, name, before, Some(i), MergeFields(own)); }
      ItemAt(a, sec, xs, name, EditItem(before, Some(i), MergeFields(own)));
      { EditInstanceNew(g, js, i, own); }
      ItemAt(a, sec, xs, name, g + [(InstancesKey, Obj(js + [(i, Obj(own))]))]);
    }
  }

  lemma InstanceMetaStep(a: Fields, sec: Section, xs: Fields, name: string, g: Fields, js: Fields, i: string,
                         own: Fields, m: Json)
    requires SectionKey(sec) !in Keys(a) && name !in Keys(xs) && IsSegment(name) && IsSegment(i)
    requires InstancesKey !in Keys(g) && i !in Keys(js) && MetaKey !in Keys(own)
    ensures Apply(ItemAt(a, sec, xs, name, g + [(InstancesKey, Obj(js + [(i, Obj(own))]))]),
                  Entry(Encode(Item(sec, name, Some(i), true)), m))
         == ItemAt(a, sec, xs, name, g + [(InstancesKey, Obj(js + [(i, Obj(own + [(MetaKey, m)]))]))])
  {
    var before := g + [(InstancesKey, Obj(js + [(i, Obj(own))]))];
    DecodeInstancePath(sec, name, i, true);
    ApplyItemMeta(ItemAt(a, sec, xs, name, before), Entry(Encode(Item(sec, name, Some(i), true)), m), sec, name, Some(i));
    PutItemLast(a, sec, xs, name, before, Some(i), MergeMeta(m));
    EditInstanceMeta(g, js, i, own, m);
  }

  // One variant at a time.

  /** The entries of a default variant, applied to an empty last item, give that item the variant. */
  lemma DefaultStep(a: Fields, sec: Section, xs: Fields, name: string, d: Fields, doc: Fields)
    requires SectionKey(sec) !in Keys(a) && name !in Keys(xs) && IsSegment(name)
    requires VariantBody(d) && InstancesKey !in Keys(d)
    ensures AssembleFrom(ItemAt(a, sec, xs, name, []), VariantEntries(Item(sec, name, None, false), d, doc))
         == ItemAt(a, sec, xs, name, d)
  {
    var loc := Item(sec, name, None, false);
    var own := OwnFields(d);
    VariantBodySplit(d);
    var e0 := Entry(Encode(loc), Obj(own));
    if own == d {
      VariantEntriesPlain(loc, d, doc);
      AssembleOne(ItemAt(a, sec, xs, name, []), e0);
      DefaultMainStep(a, sec, xs, name, d);
    } else {
      var m := d[|d| - 1].1;
      KeysAppend(own, [(MetaKey, m)]);
      VariantEntriesMeta(sec, name, None, own, m, doc);
      AssembleTwo(ItemAt(a, sec, xs, name, []), e0, Entry(Encode(Item(sec, name, None, true)), m));
      DefaultMainStep(a, sec, xs, name, own);
      DefaultMetaStep(a, sec, xs, name, own, m);
    }
  }

  /** The entries of an instance, applied to a last item whose `instances` come last, append the instance. */
  lemma InstanceStep(a: Fields, sec: Section, xs: Fields, name: string, g: Fields, js: Fields, i: string,
                     fs: Fields, doc: Fields)
    requires SectionKey(sec) !in Keys(a) && name !in Keys(xs) && IsSegment(name) && IsSegment(i)
    requires InstancesKey !in Keys(g) && i !in Keys(js) && VariantBody(fs)
    ensures AssembleFrom(ItemAt(a, sec, xs, name, g + [(InstancesKey, Obj(js))]),
                         VariantEntries(Item(sec, name, Some(i), false), fs, doc))
         == ItemAt(a, sec, xs, name, g + [(InstancesKey, Obj(js + [(i, Obj(fs))]))])
  {
    var loc := Item(sec, name, Some(i), false);
    var own := OwnFields(fs);
    var acc := ItemAt(a, sec, xs, name, g + [(InstancesKey, Obj(js))]);
    VariantBodySplit(fs);
    var e0 := Entry(Encode(loc), Obj(own));
    if own == fs {
      VariantEntriesPlain(loc, fs, doc);
      AssembleOne(acc, e0);
      InstanceMainStep(a, sec, xs, name, g, js, i, fs);
    } else {
      var m := fs[|fs| - 1].1;
      VariantEntriesMeta(sec, name, Some(i), own, m, doc);
      AssembleTwo(acc, e0, Entry(Encode(Item(sec, name, Some(i), true)), m));
      InstanceMainStep(a, sec, xs, name, g, js, i, own);
      InstanceMetaStep(a, sec, xs, name, g, js, i, own, m);
    }
  }

  lemma {:induction false} FreshInstancesTail(js: Fields, ins: Fields)
    requires ins != [] && FreshInstances(js, ins)
    ensures IsSegment(ins[0].0) && ins[0].1 == Obj(ins[0].1.fields) && VariantBody(ins[0].1.fields) && ins[0].0 !in Keys(js)
    ensures FreshInstances(js + [ins[0]], ins[1..])
  {
    var rest := ins[1..];
    KeysAppend(js, [ins[0]]);
    assert Keys([ins[0]]) == [ins[0].0];
    assert ins[0].0 !in Keys(rest);
    forall i | 0 <= i < |rest|
      ensures IsSegment(rest[i].0) && rest[i].1.Obj? && VariantBody(rest[i].1.fields) && rest[i].0 !in Keys(js + [ins[0]])
    {
      assert rest[i] == ins[i + 1];
      assert Keys(rest)[i] == rest[i].0;
    }
  }

  lemma {:induction false} InstancesAfter(a: Fields, sec: Section, xs: Fields, name: string, g: Fields, js: Fields,
                                          ins: Fields, doc: Fields, consumed: set<Location>)
    requires SectionKey(sec) !in Keys(a) && name !in Keys(xs) && IsSegment(name) && InstancesKey !in Keys(g)
    requires FreshInstances(js, ins) && Unconsumed(sec, consumed)
    ensures AssembleFrom(ItemAt(a, sec, xs, name, g + [(InstancesKey, Obj(js))]), InstanceEntries(sec, name, ins, doc, consumed))
         == ItemAt(a, sec, xs, name, g + [(InstancesKey, Obj(js + ins))])
    decreases |ins|
  {
    if ins == [] {
      assert js + [] == js;
    } else {
      FreshInstancesTail(js, ins);
      var i, fs := ins[0].0, ins[0].1.fields;
      var loc := Item(sec, name, Some(i), false);
      assert loc !in consumed;
      AssembleAppend(ItemAt(a, sec, xs, name, g + [(InstancesKey, Obj(js))]),
                     VariantEntries(loc, fs, doc), InstanceEntries(sec, name, ins[1..], doc, consumed));
      InstanceStep(a, sec, xs, name, g, js, i, fs, doc);
      InstancesAfter(a, sec, xs, name, g, js + [ins[0]], ins[1..], doc, consumed);
      ConsAssoc(js, ins);
    }
  }

  // One item at a time.

  /** The instances of an item land the same whether or not an empty `instances` is there first. */
  lemma InstancesOpen(a: Fields, sec: Section, xs: Fields, name: string, d: Fields, ins: Fields,
                      doc: Fields, consumed: set<Location>)
    requires SectionKey(sec) !in Keys(a) && name !in Keys(xs) && IsSegment(name) && InstancesKey !in Keys(d)
    requires ins != [] && FreshInstances([], ins) && Unconsumed(sec, consumed)
    ensures AssembleFrom(ItemAt(a, sec, xs, name, d), InstanceEntries(sec, name, ins, doc, consumed))
         == AssembleFrom(ItemAt(a, sec, xs, name, d + [(InstancesKey, Obj([]))]), InstanceEntries(sec, name, ins, doc, consumed))
  {
    InstanceEntriesFirst(sec, name, ins, doc, consumed);
    var e0 := InstanceEntries(sec, name, ins, doc, consumed)[0];
    DecodeInstancePath(sec, name, ins[0].0, false);
    PutItemInstancesOpen(a, sec, xs, name, d, ins[0].0, EntryEdit(e0));
    AssembleSame(ItemAt(a, sec, xs, name, d), ItemAt(a, sec, xs, name, d + [(InstancesKey, Obj([]))]),
                 InstanceEntries(sec, name, ins, doc, consumed));
  }

  /** The entries of the instances of an item, applied after its default variant, give it its `instances`. */
  lemma ItemInstancesStep(a: Fields, sec: Section, xs: Fields, name: string, d: Fields, ins: Fields,
                          doc: Fields, consumed: set<Location>)
    requires SectionKey(sec) !in Keys(a) && name !in Keys(xs) && IsSegment(name) && InstancesKey !in Keys(d)
    requires ins != [] && FreshInstances([], ins) && Unconsumed(sec, consumed)
    ensures AssembleFrom(ItemAt(a, sec, xs, name, d), InstanceEntries(sec, name, ins, doc, consumed))
         == ItemAt(a, sec, xs, name, d + [(InstancesKey, Obj(ins))])
  {
    EmptyPrefix(ins);
    InstancesOpen(a, sec, xs, name, d, ins, doc, consumed);
    InstancesAfter(a, sec, xs, name, d, [], ins, doc, consumed);
  }

  /** The entries of an item that survives, applied to a section without it, append the item unchanged. */
  lemma ItemStep(a: Fields, sec: Section, xs: Fields, name: string, fs: Fields, doc: Fields, consumed: set<Location>)
    requires SectionKey(sec) !in Keys(a) && name !in Keys(xs) && IsSegment(name)
    requires ItemBody(fs) && Unconsumed(sec, consumed)
    ensures AssembleFrom(a + [(SectionKey(sec), Obj(xs))], ItemEntries(sec, name, Obj(fs), doc, consumed))
         == ItemAt(a, sec, xs, name, fs)
  {
    var es := ItemEntries(sec, name, Obj(fs), doc, consumed);
    var d, ins := DefaultPart(fs), InstancesPart(fs);
    var dflt := if d == [] then [] else VariantEntries(Item(sec, name, None, false), d, doc);
    ItemEntriesFirst(sec, name, fs, doc, consumed);
    var loc := Decode(es[0].path);
    PutItemOpen(a, sec, xs, name, loc.instance, EntryEdit(es[0]));
    AssembleSame(a + [(SectionKey(sec), Obj(xs))], ItemAt(a, sec, xs, name, []), es);
    ItemEntriesSplit(sec, name, fs, doc, consumed);
    ItemParts(fs);
    AssembleAppend(ItemAt(a, sec, xs, name, []), dflt, InstanceEntries(sec, name, ins, doc, consumed));
    if d != [] {
      DefaultStep(a, sec, xs, name, d, doc);
    }
    if ins != [] {
      ItemInstancesStep(a, sec, xs, name, d, ins, doc, consumed);
    }
  }

  /** The items of `items` survive the trip, their names are distinct, and none is yet among `xs`. */
  predicate FreshItems(xs: Fields, items: Fields) {
    UniqueKeys(items)
    && forall i :: 0 <= i < |items| ==>
         IsSegment(items[i].0) && items[i].1.Obj? && ItemBody(items[i].1.fields) && items[i].0 !in Keys(xs)
  }

  lemma {:induction false} FreshItemsTail(xs: Fields, items: Fields)
    requires items != [] && FreshItems(xs, items)
    ensures IsSegment(items[0].0) && items[0].1 == Obj(items[0].1.fields) && ItemBody(items[0].1.fields)
    ensures items[0].0 !in Keys(xs)
    ensures FreshItems(xs + [items[0]], items[1..])
  {
    var rest := items[1..];
    KeysAppend(xs, [items[0]]);
    assert Keys([items[0]]) == [items[0].0];
    assert items[0].0 !in Keys(rest);
    forall i | 0 <= i < |rest|
      ensures IsSegment(rest[i].0) && rest[i].1.Obj? && ItemBody(rest[i].1.fields) && rest[i].0 !in Keys(xs + [items[0]])
    {
      assert rest[i] == items[i + 1];
      assert Keys(rest)[i] == rest[i].0;
    }
  }

  lemma {:induction false} ItemsAfter(a: Fields, sec: Section, xs: Fields, items: Fields, doc: Fields,
                                      consumed: set<Location>)
    requires SectionKey(sec) !in Keys(a) && FreshItems(xs, items) && Unconsumed(sec, consumed)
    ensures AssembleFrom(a + [(SectionKey(sec), Obj(xs))], ItemsEntries(sec, items, doc, consumed))
         == a + [(SectionKey(sec), Obj(xs + items))]
    decreases |items|
  {
    if items == [] {
      assert xs + [] == xs;
    } else {
      FreshItemsTail(xs, items);
      var x := items[0];
      AssembleAppend(a + [(SectionKey(sec), Obj(xs))], ItemEntries(sec, x.0, x.1, doc, consumed),
                     ItemsEntries(sec, items[1..], doc, consumed));
      ItemStep(a, sec, xs, x.0, x.1.fields, doc, consumed);
      ItemsAfter(a, sec, xs + [x], items[1..], doc, consumed);
      ConsAssoc(xs, items);
    }
  }

  /** The items of a section land the same whether or not an empty section is there first. */
  lemma ItemsOpen(a: Fields, sec: Section, items: Fields, doc: Fields, consumed: set<Location>)
    requires SectionKey(sec) !in Keys(a) && items != [] && FreshItems([], items) && Unconsumed(sec, consumed)
    ensures AssembleFrom(a, ItemsEntries(sec, items, doc, consumed))
         == AssembleFrom(a + [(SectionKey(sec), Obj([]))], ItemsEntries(sec, items, doc, consumed))
  {
    FreshItemsTail([], items);
    var es := ItemsEntries(sec, items, doc, consumed);
    var first := ItemEntries(sec, items[0].0, items[0].1, doc, consumed);
    ItemEntriesFirst(sec, items[0].0, items[0].1.fields, doc, consumed);
    assert es[0] == first[0];
    var loc := Decode(es[0].path);
    PutItemSectionOpen(a, sec, loc.name, loc.instance, EntryEdit(es[0]));
    AssembleSame(a, a + [(SectionKey(sec), Obj([]))], es);
  }

  /**
   * A non-empty components or layouts section without references survives
   * dispatch and assembly unchanged, item and instance order included.
   */
  lemma {:induction false} ItemsRoundTrip(a: Fields, sec: Section, items: Fields, doc: Fields, consumed: set<Location>)
    requires SectionKey(sec) !in Keys(a) && items != [] && FreshItems([], items) && Unconsumed(sec, consumed)
    ensures AssembleFrom(a, ItemsEntries(sec, items, doc, consumed)) == a + [(SectionKey(sec), Obj(items))]
  {
    var es := ItemsEntries(sec, items, doc, consumed);
    var open := a + [(SectionKey(sec), Obj([]))];
    calc {
      AssembleFrom(a, es);
      { ItemsOpen(a, sec, items, doc, consumed); }
      AssembleFrom(open, es);
      { ItemsAfter(a, sec, [], items, doc, consumed); }
      a + [(SectionKey(sec), Obj([] + items))];
      { assert [] + items == items; }
      a + [(SectionKey(sec), Obj(items))];
    }
  }

  // ---- Whole documents ----

  /** The `_pages` section of a document, absent when there are no pages. */
  function PagesPart(ps: Fields): (r: Fields)
    ensures Keys(r) == if ps == [] then [] else [PagesKey]
  {
    if ps == [] then [] else [(PagesKey, Obj(ps))]
  }

  /** The `_users` section of a document, absent when there are no users. */
  function UsersPart(users: seq<Json>): (r: Fields)
    ensures Keys(r) == if users == [] then [] else [UsersKey]
  {
    if users == [] then [] else [(UsersKey, Arr(users))]
  }

  /**
   * A document without components or layouts whose every section survives
   * the trip: pages, then valid users, then arbitrary sections, in the order
   * the conversion emits them.
   */
  predicate PlainDoc(ps: Fields, users: seq<Json>, rest: Fields) {
    FreshPages([], ps) && AllValid(users) && ArbitraryDoc(rest)
  }

  /** The value under a key of a concatenation: the first part's, if it has the key. */
  lemma {:induction false} LookupConcat(a: Fields, b: Fields, k: string)
    ensures Lookup(a + b, k) == if k in Keys(a) then Lookup(a, k) else Lookup(b, k)
    decreases |a|
  {
    if a != [] {
      HeadTailAppend(a, b);
      assert Keys(a) == [a[0].0] + Keys(a[1..]);
      LookupConcat(a[1..], b, k);
    } else {
      assert a + b == b;
    }
  }

  /** No canonical key is a key of arbitrary data. */
  lemma ArbitraryKeys(rest: Fields, k: string)
    requires ArbitraryDoc(rest) && IsCanonicalKey(k)
    ensures k !in Keys(rest)
  {
  }

  /** A canonical section yields no arbitrary entries. */
  lemma ArbitrarySkip(x: (string, Json), d: Fields)
    requires IsCanonicalKey(x.0)
    ensures ArbitraryEntries([x] + d) == ArbitraryEntries(d)
  {
    HeadTailAppend([x], d);
  }

  /** A canonical key of such a document is looked up among its pages and users. */
  lemma PlainDocLookup(ps: Fields, users: seq<Json>, rest: Fields, k: string)
    requires IsCanonicalKey(k) && k !in Keys(rest)
    ensures Lookup(PagesPart(ps) + UsersPart(users) + rest, k)
         == if k == PagesKey && ps != [] then Some(Obj(ps))
            else if k == UsersKey && users != [] then Some(Arr(users))
            else None
  {
    var pu := PagesPart(ps) + UsersPart(users);
    LookupConcat(pu, rest, k);
    KeysAppend(PagesPart(ps), UsersPart(users));
    LookupConcat(PagesPart(ps), UsersPart(users), k);
  }

  /** The arbitrary entries of such a document are those of its arbitrary sections. */
  lemma PlainDocArbitrary(ps: Fields, users: seq<Json>, rest: Fields)
    ensures ArbitraryEntries(PagesPart(ps) + UsersPart(users) + rest) == ArbitraryEntries(rest)
  {
    var afterPages := UsersPart(users) + rest;
    if ps != [] {
      AppendAssoc(PagesPart(ps), UsersPart(users), rest);
      ArbitrarySkip((PagesKey, Obj(ps)), afterPages);
    } else {
      assert PagesPart(ps) + UsersPart(users) + rest == afterPages;
    }
    if users != [] {
      ArbitrarySkip((UsersKey, Arr(users)), rest);
    } else {
      assert afterPages == rest;
    }
  }

  /** The values of the canonical sections of such a document. */
  lemma PlainDocSections(ps: Fields, users: seq<Json>, rest: Fields)
    requires ArbitraryDoc(rest)
    ensures var doc := PagesPart(ps) + UsersPart(users) + rest;
      Dispatch.Section(doc, ComponentsKey) == [] && Dispatch.Section(doc, LayoutsKey) == []
      && Dispatch.Section(doc, PagesKey) == ps && UsersOf(doc) == users
      && ArbitraryEntries(doc) == ArbitraryEntries(rest)
  {
    ArbitraryKeys(rest, ComponentsKey);
    ArbitraryKeys(rest, LayoutsKey);
    ArbitraryKeys(rest, PagesKey);
    ArbitraryKeys(rest, UsersKey);
    PlainDocLookup(ps, users, rest, ComponentsKey);
    PlainDocLookup(ps, users, rest, LayoutsKey);
    PlainDocLookup(ps, users, rest, PagesKey);
    PlainDocLookup(ps, users, rest, UsersKey);
    PlainDocArbitrary(ps, users, rest);
  }

  /** Such a document dispatches to its pages' entries, then its users', then its arbitrary data's. */
  lemma DispatchPlainDoc(ps: Fields, users: seq<Json>, rest: Fields)
    requires PlainDoc(ps, users, rest)
    ensures UsersEntries(users).Success?
    ensures DispatchDoc(PagesPart(ps) + UsersPart(users) + rest)
         == Success(PagesEntries(ps) + UsersEntries(users).value + ArbitraryEntries(rest))
  {
    var doc := PagesPart(ps) + UsersPart(users) + rest;
    PlainDocSections(ps, users, rest);
    UsersEntriesFails(users);
    var none: seq<Entry> := [];
    assert none + none + PagesEntries(ps) == PagesEntries(ps);
  }

  /** Assembling those entries from nothing rebuilds the document. */
  lemma AssemblePlainDoc(ps: Fields, users: seq<Json>, rest: Fields)
    requires PlainDoc(ps, users, rest)
    ensures UsersEntries(users).Success?
    ensures AssembleFrom([], PagesEntries(ps) + UsersEntries(users).value + ArbitraryEntries(rest))
         == PagesPart(ps) + UsersPart(users) + rest
  {
    UsersEntriesFails(users);
    var pe, ue, ae := PagesEntries(ps), UsersEntries(users).value, ArbitraryEntries(rest);
    var d1 := PagesPart(ps);
    var d2 := d1 + UsersPart(users);
    AssemblePages(ps);
    AssembleUsersPart(d1, users);
    ArbitraryAfter(d1, users, rest);
    calc {
      AssembleFrom([], pe + ue + ae);
      { AssembleAppend([], pe + ue, ae); }
      AssembleFrom(AssembleFrom([], pe + ue), ae);
      { AssembleAppend([], pe, ue); }
      AssembleFrom(AssembleFrom(AssembleFrom([], pe), ue), ae);
      AssembleFrom(d2, ae);
      d2 + rest;
    }
  }

  lemma AssemblePages(ps: Fields)
    requires FreshPages([], ps)
    ensures AssembleFrom([], PagesEntries(ps)) == PagesPart(ps)
  {
    if ps != [] {
      PagesRoundTrip([], ps);
      assert [] + [(PagesKey, Obj(ps))] == PagesPart(ps);
    }
  }

  lemma AssembleUsersPart(d1: Fields, users: seq<Json>)
    requires UsersKey !in Keys(d1) && AllValid(users)
    ensures UsersEntries(users).Success?
    ensures AssembleFrom(d1, UsersEntries(users).value) == d1 + UsersPart(users)
  {
    UsersEntriesFails(users);
    if users != [] {
      UsersRoundTrip(d1, users);
    } else {
      assert d1 + [] == d1;
    }
  }

  lemma ArbitraryAfter(d1: Fields, users: seq<Json>, rest: Fields)
    requires ArbitraryDoc(rest) && Keys(d1) <= [PagesKey]
    ensures AssembleFrom(d1 + UsersPart(users), ArbitraryEntries(rest)) == d1 + UsersPart(users) + rest
  {
    var d2 := d1 + UsersPart(users);
    KeysAppend(d1, UsersPart(users));
    forall i | 0 <= i < |rest|
      ensures rest[i].0 !in Keys(d2)
    {
      assert !IsCanonicalKey(rest[i].0);
    }
    ArbitraryRoundTrip(d2, rest);
  }

  /**
   * Converting such a document to dispatch and back gives it back: its pages,
   * its users and its arbitrary sections, with their keys and order.
   */
  lemma PlainDocRoundTrip(ps: Fields, users: seq<Json>, rest: Fields)
    requires PlainDoc(ps, users, rest)
    ensures var doc := PagesPart(ps) + UsersPart(users) + rest;
      ToDispatch([Obj(doc)]).Success? && AssembleFrom([], ToDispatch([Obj(doc)]).value) == doc
  {
    var doc := PagesPart(ps) + UsersPart(users) + rest;
    ToDispatchOne(Obj(doc));
    DispatchPlainDoc(ps, users, rest);
    AssemblePlainDoc(ps, users, rest);
  }
}
