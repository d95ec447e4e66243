/**
 * The dispatch generator (`toDispatch`): each bootstrap document becomes a
 * sequence of single-path writes. Sections are taken in a fixed order
 * (components, layouts, pages, users), then every other top-level key in the
 * document's own order.
 */
module Dispatch {
  import opened Wrappers
  import opened Json
  import Base64
  import Utf8
  import Paths
  import opened References

  /** A dispatch entry `{ <path>: <value> }`. */
  datatype Entry = Entry(path: string, value: Json)

  const MetaKey: string := "meta"
  const UrlKey: string := "url"
  const CustomUrlKey: string := "customUrl"
  const UsernameKey: string := "username"
  const ProviderKey: string := "provider"
  const AuthKey: string := "auth"

  const UserError: string := "Cannot bootstrap users without username, provider, and auth level"

  /** The fields of a top-level section; an absent or non-object section has none. */
  function Section(doc: Fields, key: string): Fields {
    var v := Lookup(doc, key);
    if v.Some? then FieldsOf(v.value) else []
  }

  // ---- Meta splitting ----

  /**
   * The entries of one item variant or page: the main entry without `meta`,
   * then, if there was a `meta` field, its value at `<path>/meta`.
   */
  function SplitMeta(loc: Paths.Location, fs: Fields): (r: seq<Entry>)
    requires (loc.Item? || loc.Page?) && !loc.meta
    ensures |r| == if MetaKey in Keys(fs) then 2 else 1
    ensures r[0] == Entry(Paths.Encode(loc), Obj(Remove(fs, MetaKey)))
    ensures MetaKey !in Keys(FieldsOf(r[0].value))
    ensures |r| == 2 ==> r[1] == Entry(Paths.Encode(loc.(meta := true)), Lookup(fs, MetaKey).value)
  {
    var m := Lookup(fs, MetaKey);
    [Entry(Paths.Encode(loc), Obj(Remove(fs, MetaKey)))]
      + (if m.Some? then [Entry(Paths.Encode(loc.(meta := true)), m.value)] else [])
  }

  // ---- Components and layouts ----

  /** The item variants that some reference in the components or layouts points at. */
  function Consumed(doc: Fields): set<Paths.Location> {
    var refs := RefsInFields(Section(doc, Paths.ComponentsKey)) + RefsInFields(Section(doc, Paths.LayoutsKey));
    set p | p in refs :: Paths.Decode(p)
  }

  /** The entries of one variant: its fields with references resolved, `meta` split off. */
  function VariantEntries(loc: Paths.Location, fs: Fields, doc: Fields): seq<Entry>
    requires loc.Item? && !loc.meta
  {
    SplitMeta(loc, ResolveFields(fs, doc))
  }

  /** The entries of the named instances of item `name`, in map order, skipping consumed ones. */
  function InstanceEntries(sec: Paths.Section, name: string, insts: Fields, doc: Fields,
                           consumed: set<Paths.Location>): seq<Entry>
  {
    if insts == [] then []
    else
      var loc := Paths.Item(sec, name, Some(insts[0].0), false);
      (if loc in consumed then [] else VariantEntries(loc, FieldsOf(insts[0].1), doc))
        + InstanceEntries(sec, name, insts[1..], doc, consumed)
  }

  /**
   * The entries of one item: its default variant (its fields other than
   * `instances`) unless it has none or is consumed, then its instances.
   */
  function ItemEntries(sec: Paths.Section, name: string, body: Json, doc: Fields,
                       consumed: set<Paths.Location>): seq<Entry>
  {
    var fs := FieldsOf(body);
    var own := Remove(fs, InstancesKey);
    var loc := Paths.Item(sec, name, None, false);
    var insts := Lookup(fs, InstancesKey);
    (if own == [] || loc in consumed then [] else VariantEntries(loc, own, doc))
      + InstanceEntries(sec, name, if insts.Some? then FieldsOf(insts.value) else [], doc, consumed)
  }

  /** The entries of every item of a section, in map order. */
  function ItemsEntries(sec: Paths.Section, items: Fields, doc: Fields, consumed: set<Paths.Location>): seq<Entry> {
    if items == [] then []
    else ItemEntries(sec, items[0].0, items[0].1, doc, consumed) + ItemsEntries(sec, items[1..], doc, consumed)
  }

  // ---- Which variants an item emits ----

  /** Every key is a single path segment, so the paths built from it can be read back. */
  predicate SegmentKeys(fs: Fields) {
    forall i :: 0 <= i < |fs| ==> Paths.IsSegment(fs[i].0)
  }

  /** The instances of an item body (`instances`, when it is an object). */
  function InstancesOf(body: Json): Fields {
    Section(FieldsOf(body), InstancesKey)
  }

  /** Items whose names and instance names are single path segments. */
  predicate ReadableItems(items: Fields) {
    forall i :: 0 <= i < |items| ==> Paths.IsSegment(items[i].0) && SegmentKeys(InstancesOf(items[i].1))
  }

  /** A variant of item `name` of section `sec` (its main location, not its `meta`). */
  predicate VariantOf(loc: Paths.Location, sec: Paths.Section, name: string) {
    loc.Item? && !loc.meta && loc.section == sec && loc.name == name
  }

  /** The instance variants of item `name` that are emitted: each one not consumed, in map order. */
  function EmittedInstances(sec: Paths.Section, name: string, insts: Fields,
                            consumed: set<Paths.Location>): (r: seq<Paths.Location>)
    ensures forall i :: 0 <= i < |r| ==> r[i] !in consumed && VariantOf(r[i], sec, name)
    ensures forall i :: 0 <= i < |r| ==> r[i].Item? && r[i].instance.Some? && r[i].instance.value in Keys(insts)
  {
    if insts == [] then []
    else
      var loc := Paths.Item(sec, name, Some(insts[0].0), false);
      (if loc in consumed then [] else [loc]) + EmittedInstances(sec, name, insts[1..], consumed)
  }

  /**
   * The variants of one item that are emitted, in order: the default variant
   * when the item has fields besides `instances` and is not consumed, then
   * its emitted instances.
   */
  function Emitted(sec: Paths.Section, name: string, body: Json, consumed: set<Paths.Location>): (r: seq<Paths.Location>)
    ensures forall i :: 0 <= i < |r| ==> r[i] !in consumed && VariantOf(r[i], sec, name)
    ensures Remove(FieldsOf(body), InstancesKey) == [] ==> (forall i :: 0 <= i < |r| ==> r[i].Item? && r[i].instance.Some?)
    ensures (|r| > 0 && r[0].Item? && r[0].instance.None?) <==>
      (Remove(FieldsOf(body), InstancesKey) != [] && Paths.Item(sec, name, None, false) !in consumed)
  {
    var loc := Paths.Item(sec, name, None, false);
    (if Remove(FieldsOf(body), InstancesKey) == [] || loc in consumed then [] else [loc])
      + EmittedInstances(sec, name, InstancesOf(body), consumed)
  }

  /** The emitted variants of every item of a section, in map order. */
  function EmittedItems(sec: Paths.Section, items: Fields, consumed: set<Paths.Location>): (r: seq<Paths.Location>)
    ensures forall i :: 0 <= i < |r| ==> r[i] !in consumed && r[i].Item? && !r[i].meta && r[i].section == sec
  {
    if items == [] then []
    else Emitted(sec, items[0].0, items[0].1, consumed) + EmittedItems(sec, items[1..], consumed)
  }

  /** The variant an item location belongs to: itself, or the variant whose `meta` it is. */
  function Owner(loc: Paths.Location): (r: Paths.Location)
    requires loc.Item?
    ensures VariantOf(r, loc.section, loc.name) && r.instance == loc.instance
  {
    Paths.Item(loc.section, loc.name, loc.instance, false)
  }

  /** The location an entry writes to, unless it is a `/meta` entry. */
  function MainLoc(e: Entry): seq<Paths.Location> {
    var loc := Paths.Decode(e.path);
    if (loc.Item? || loc.Page?) && loc.meta then [] else [loc]
  }

  /** The locations the main entries write to, in order; the `/meta` entries are skipped. */
  function MainLocs(es: seq<Entry>): seq<Paths.Location> {
    if es == [] then [] else MainLoc(es[0]) + MainLocs(es[1..])
  }

  lemma {:induction false} MainLocsAppend(a: seq<Entry>, b: seq<Entry>)
    ensures MainLocs(a + b) == MainLocs(a) + MainLocs(b)
  {
    if a == [] {
      assert a + b == b;
    } else {
      HeadTailAppend(a, b);
      MainLocsAppend(a[1..], b);
      AppendAssoc(MainLoc(a[0]), MainLocs(a[1..]), MainLocs(b));
    }
  }

  /** A variant writes one main entry, to its own path; a `/meta` entry may follow. */
  lemma VariantEntriesMain(loc: Paths.Location, fs: Fields, doc: Fields)
    requires loc.Item? && !loc.meta && Paths.Readable(loc)
    ensures MainLocs(VariantEntries(loc, fs, doc)) == [loc]
  {
    SplitMetaMain(loc, ResolveFields(fs, doc));
  }

  lemma SplitMetaMain(loc: Paths.Location, fs: Fields)
    requires loc.Item? && !loc.meta && Paths.Readable(loc)
    ensures MainLocs(SplitMeta(loc, fs)) == [loc]
  {
    var es := SplitMeta(loc, fs);
    Paths.DecodeEncode(loc);
    assert MainLoc(es[0]) == [loc];
    if |es| == 2 {
      var m := Paths.Item(loc.section, loc.name, loc.instance, true);
      Paths.DecodeEncode(m);
      assert es[1].path == Paths.Encode(m);
      assert MainLoc(es[1]) == [];
      assert MainLocs(es[1..]) == [] + MainLocs(es[2..]);
    } else {
      assert es[1..] == [];
    }
    assert MainLocs(es) == [loc] + MainLocs(es[1..]);
  }

  /** Every entry of a variant writes to that variant or to its `meta`. */
  lemma VariantEntriesOwners(loc: Paths.Location, fs: Fields, doc: Fields)
    requires loc.Item? && !loc.meta && Paths.Readable(loc)
    ensures forall e :: e in VariantEntries(loc, fs, doc) ==>
      Paths.Decode(e.path).Item? && Owner(Paths.Decode(e.path)) == loc
  {
    var es := VariantEntries(loc, fs, doc);
    var m := Paths.Item(loc.section, loc.name, loc.instance, true);
    Paths.DecodeEncode(loc);
    Paths.DecodeEncode(m);
    forall e | e in es
      ensures Paths.Decode(e.path).Item? && Owner(Paths.Decode(e.path)) == loc
    {
      if e != es[0] {
        assert e == es[1] && Owner(m) == loc;
      }
    }
  }

  /** The instance entries write the emitted instances, in map order, and nothing else. */
  lemma {:induction false} InstanceEntriesOrder(sec: Paths.Section, name: string, insts: Fields, doc: Fields,
                                                consumed: set<Paths.Location>)
    requires Paths.IsSegment(name) && SegmentKeys(insts)
    ensures MainLocs(InstanceEntries(sec, name, insts, doc, consumed)) == EmittedInstances(sec, name, insts, consumed)
    ensures forall e :: e in InstanceEntries(sec, name, insts, doc, consumed) ==>
      Paths.Decode(e.path).Item? && Owner(Paths.Decode(e.path)) in EmittedInstances(sec, name, insts, consumed)
  {
    if insts != [] {
      var loc := Paths.Item(sec, name, Some(insts[0].0), false);
      var head := if loc in consumed then [] else VariantEntries(loc, FieldsOf(insts[0].1), doc);
      var rest := InstanceEntries(sec, name, insts[1..], doc, consumed);
      assert InstanceEntries(sec, name, insts, doc, consumed) == head + rest;
      assert SegmentKeys(insts[1..]) by {
        forall i | 0 <= i < |insts[1..]| ensures Paths.IsSegment(insts[1..][i].0) {
          assert insts[1..][i] == insts[i + 1];
        }
      }
      InstanceEntriesOrder(sec, name, insts[1..], doc, consumed);
      MainLocsAppend(head, rest);
      if loc !in consumed {
        VariantEntriesMain(loc, FieldsOf(insts[0].1), doc);
        VariantEntriesOwners(loc, FieldsOf(insts[0].1), doc);
      }
    }
  }

  /** An item writes its emitted variants, default first, and nothing else. */
  lemma ItemEntriesOrder(sec: Paths.Section, name: string, body: Json, doc: Fields, consumed: set<Paths.Location>)
    requires Paths.IsSegment(name) && SegmentKeys(InstancesOf(body))
    ensures MainLocs(ItemEntries(sec, name, body, doc, consumed)) == Emitted(sec, name, body, consumed)
    ensures forall e :: e in ItemEntries(sec, name, body, doc, consumed) ==>
      Paths.Decode(e.path).Item? && Owner(Paths.Decode(e.path)) in Emitted(sec, name, body, consumed)
  {
    var fs := FieldsOf(body);
    var own := Remove(fs, InstancesKey);
    var loc := Paths.Item(sec, name, None, false);
    var head := if own == [] || loc in consumed then [] else VariantEntries(loc, own, doc);
    var rest := InstanceEntries(sec, name, InstancesOf(body), doc, consumed);
    assert ItemEntries(sec, name, body, doc, consumed) == head + rest;
    InstanceEntriesOrder(sec, name, InstancesOf(body), doc, consumed);
    MainLocsAppend(head, rest);
    if !(own == [] || loc in consumed) {
      VariantEntriesMain(loc, own, doc);
      VariantEntriesOwners(loc, own, doc);
    }
  }

  /** A section writes the emitted variants of its items, in map order, and nothing else. */
  lemma {:induction false} ItemsEntriesOrder(sec: Paths.Section, items: Fields, doc: Fields, consumed: set<Paths.Location>)
    requires ReadableItems(items)
    ensures MainLocs(ItemsEntries(sec, items, doc, consumed)) == EmittedItems(sec, items, consumed)
    ensures forall e :: e in ItemsEntries(sec, items, doc, consumed) ==>
      Paths.Decode(e.path).Item? && Owner(Paths.Decode(e.path)) in EmittedItems(sec, items, consumed)
  {
    if items != [] {
      var head := ItemEntries(sec, items[0].0, items[0].1, doc, consumed);
      var rest := ItemsEntries(sec, items[1..], doc, consumed);
      assert ReadableItems(items[1..]) by {
        forall i | 0 <= i < |items[1..]|
          ensures Paths.IsSegment(items[1..][i].0) && SegmentKeys(InstancesOf(items[1..][i].1))
        {
          assert items[1..][i] == items[i + 1];
        }
      }
      ItemEntriesOrder(sec, items[0].0, items[0].1, doc, consumed);
      ItemsEntriesOrder(sec, items[1..], doc, consumed);
      MainLocsAppend(head, rest);
    }
  }

  /** No entry of a section writes to a variant that a reference consumes, nor to its `meta`. */
  lemma ItemsEntriesUnconsumed(sec: Paths.Section, items: Fields, doc: Fields, consumed: set<Paths.Location>)
    requires ReadableItems(items)
    ensures forall e :: e in ItemsEntries(sec, items, doc, consumed) ==>
      Paths.Decode(e.path).Item? && Paths.Decode(e.path).section == sec
      && Owner(Paths.Decode(e.path)) !in consumed
  {
    ItemsEntriesOrder(sec, items, doc, consumed);
  }

  // ---- Pages ----

  /** Legacy `url` becomes `customUrl`; an existing `customUrl` wins. */
  function NormalizeUrl(fs: Fields): (r: Fields)
    ensures UrlKey !in Keys(r)
    ensures Lookup(r, CustomUrlKey) == if CustomUrlKey in Keys(fs) then Lookup(fs, CustomUrlKey) else Lookup(fs, UrlKey)
    ensures forall k :: k != UrlKey && k != CustomUrlKey ==> Lookup(r, k) == Lookup(fs, k)
  {
    var u := Lookup(fs, UrlKey);
    if u.None? then fs
    else if CustomUrlKey in Keys(fs) then Remove(fs, UrlKey)
    else Set(Remove(fs, UrlKey), CustomUrlKey, u.value)
  }

  /** The entries of one page: its key without a leading slash names it. */
  function PageEntries(key: string, page: Json): seq<Entry> {
    SplitMeta(Paths.Page(Paths.StripSlash(key), false), NormalizeUrl(FieldsOf(page)))
  }

  function PagesEntries(pages: Fields): seq<Entry> {
    if pages == [] then [] else PageEntries(pages[0].0, pages[0].1) + PagesEntries(pages[1..])
  }

  // ---- Users ----

  /** The users of a document: the `_users` array, if there is one. */
  function UsersOf(doc: Fields): seq<Json> {
    var u := Lookup(doc, Paths.UsersKey);
    if u.Some? && u.value.Arr? then u.value.items else []
  }

  predicate NonEmptyStr(v: Option<Json>) {
    v.Some? && v.value.Str? && v.value.s != ""
  }

  /** A user record has a username, a provider and an auth level. */
  predicate ValidUser(u: Json) {
    u.Obj? && NonEmptyStr(Lookup(u.fields, UsernameKey)) && NonEmptyStr(Lookup(u.fields, ProviderKey))
    && Lookup(u.fields, AuthKey).Some? && Truthy(Lookup(u.fields, AuthKey).value)
  }

  /** `<username>@<provider>` */
  function Login(u: Json): string
    requires ValidUser(u)
  {
    Lookup(u.fields, UsernameKey).value.s + "@" + Lookup(u.fields, ProviderKey).value.s
  }

  /**
   * A user's id: the base64 of the UTF-8 bytes of `<username>@<provider>`,
   * the one base64 text that decodes to those bytes.
   */
  function UserId(u: Json): string
    requires ValidUser(u)
  {
    Base64.Encode(Utf8.Encode(Login(u)))
  }

  /** A user's id decodes to the UTF-8 bytes of its login. */
  lemma UserIdDecodes(u: Json)
    requires ValidUser(u)
    ensures Base64.Decode(UserId(u)) == Some(Utf8.Encode(Login(u)))
  {
    Base64.DecodeEncode(Utf8.Encode(Login(u)));
  }

  /** No other base64 text decodes to a user's login: the id is the canonical one. */
  lemma UserIdUnique(u: Json, s: string)
    requires ValidUser(u) && Base64.Decode(s) == Some(Utf8.Encode(Login(u)))
    ensures s == UserId(u)
  {
    Base64.DecodeUnique(s, Utf8.Encode(Login(u)));
  }

  /** A user record with these three string fields. */
  function UserRecord(username: string, provider: string, auth: string): Json {
    Obj([(UsernameKey, Str(username)), (ProviderKey, Str(provider)), (AuthKey, Str(auth))])
  }

  /** A record with a username, a provider and an auth level has the id that decodes to its login. */
  lemma UserIdOfRecord(u: Json, username: string, provider: string, auth: string, id: string)
    requires username != "" && provider != "" && auth != ""
    requires u == UserRecord(username, provider, auth)
    requires Base64.Decode(id) == Some(Utf8.Encode(username + "@" + provider))
    ensures ValidUser(u) && UserId(u) == id
  {
    LoginOf(username, provider, auth);
    UserIdUnique(u, id);
  }

  lemma LoginOf(username: string, provider: string, auth: string)
    requires username != "" && provider != "" && auth != ""
    ensures ValidUser(UserRecord(username, provider, auth))
    ensures Login(UserRecord(username, provider, auth)) == username + "@" + provider
  {
    var fs := UserRecord(username, provider, auth).fields;
    var fs2, fs3 := fs[1..], fs[2..];
    assert fs2 == [(ProviderKey, Str(provider)), (AuthKey, Str(auth))] && fs3 == [(AuthKey, Str(auth))] && fs2[1..] == fs3;
    assert UsernameKey[0] != ProviderKey[0] && UsernameKey[0] != AuthKey[0] && ProviderKey[0] != AuthKey[0];
    assert Lookup(fs3, AuthKey) == Some(Str(auth));
    assert Lookup(fs2, AuthKey) == Some(Str(auth)) && Lookup(fs2, ProviderKey) == Some(Str(provider));
    assert Lookup(fs, UsernameKey) == Some(Str(username));
  }

  /**
   * The first user of the fixture, `foo` at `google`, gets the id
   * `Zm9vQGdvb2dsZQ==` (written here group by group).
   */
  lemma UserIdFoo()
    ensures ValidUser(UserRecord("foo", "google", "admin"))
    ensures UserId(UserRecord("foo", "google", "admin")) == "Zm9v" + ("QGdv" + "b2ds" + "ZQ==")
  {
    FooBytes();
    QuadsFoo();
    DecodeAtGoogle();
    Base64.DecodeStep("Zm9v", "QGdv" + "b2ds" + "ZQ==");
    UserIdOfRecord(UserRecord("foo", "google", "admin"), "foo", "google", "admin", "Zm9v" + ("QGdv" + "b2ds" + "ZQ=="));
  }

  /**
   * The second user of the fixture, `nobody` at `google`, gets the id
   * `bm9ib2R5QGdvb2dsZQ==` (written here group by group).
   */
  lemma UserIdNobody()
    ensures ValidUser(UserRecord("nobody", "google", "write"))
    ensures UserId(UserRecord("nobody", "google", "write")) == "bm9i" + ("b2R5" + ("QGdv" + "b2ds" + "ZQ=="))
  {
    NobodyBytes();
    QuadsNobody();
    DecodeAtGoogle();
    Base64.DecodeStep("b2R5", "QGdv" + "b2ds" + "ZQ==");
    Base64.DecodeStep("bm9i", "b2R5" + ("QGdv" + "b2ds" + "ZQ=="));
    UserIdOfRecord(UserRecord("nobody", "google", "write"), "nobody", "google", "write", "bm9i" + ("b2R5" + ("QGdv" + "b2ds" + "ZQ==")));
  }

  // The groups of the two fixture ids, decoded one at a time.
  lemma QuadsAtGoogle()
    ensures Base64.DecodeQuad("QGdv", false) == Some([64, 103, 111])
    ensures Base64.DecodeQuad("b2ds", false) == Some([111, 103, 108])
    ensures Base64.DecodeQuad("ZQ==", true) == Some([101])
  {
  }

  lemma QuadsFoo()
    ensures Base64.DecodeQuad("Zm9v", false) == Some([102, 111, 111])
  {
  }

  lemma QuadsNobody()
    ensures Base64.DecodeQuad("bm9i", false) == Some([110, 111, 98])
    ensures Base64.DecodeQuad("b2R5", false) == Some([111, 100, 121])
  {
  }

  /** `@google` after a full group: the tail both fixture ids share. */
  lemma DecodeAtGoogle()
    ensures Base64.Decode("QGdv" + "b2ds" + "ZQ==") == Some([64, 103, 111] + [111, 103, 108] + [101])
  {
    var q0, q1, q2 := "QGdv", "b2ds", "ZQ==";
    QuadsAtGoogle();
    Base64.DecodeOneQuad(q2);
    Base64.DecodeStep(q1, q2);
    Base64.DecodeStep(q0, q1 + q2);
    assert q0 + q1 + q2 == q0 + (q1 + q2);
    assert [64, 103, 111] + [111, 103, 108] + [101] == [64, 103, 111] + ([111, 103, 108] + [101]);
  }

  lemma FooBytes()
    ensures Utf8.Encode("foo" + "@" + "google") == [102, 111, 111] + ([64, 103, 111] + [111, 103, 108] + [101])
  {
    var s, b := "foo" + "@" + "google", [102, 111, 111] + ([64, 103, 111] + [111, 103, 108] + [101]);
    assert |s| == |b| == 10;
    assert s[0] == 'f' && s[1] == 'o' && s[2] == 'o' && s[3] == '@' && s[4] == 'g';
    assert s[5] == 'o' && s[6] == 'o' && s[7] == 'g' && s[8] == 'l' && s[9] == 'e';
    AsciiBytes(s, b);
  }

  lemma NobodyBytes()
    ensures Utf8.Encode("nobody" + "@" + "google") == [110, 111, 98] + ([111, 100, 121] + ([64, 103, 111] + [111, 103, 108] + [101]))
  {
    var s, b := "nobody" + "@" + "google", [110, 111, 98] + ([111, 100, 121] + ([64, 103, 111] + [111, 103, 108] + [101]));
    assert |s| == |b| == 13;
    assert s[0] == 'n' && s[1] == 'o' && s[2] == 'b' && s[3] == 'o' && s[4] == 'd' && s[5] == 'y' && s[6] == '@';
    assert s[7] == 'g' && s[8] == 'o' && s[9] == 'o' && s[10] == 'g' && s[11] == 'l' && s[12] == 'e';
    AsciiBytes(s, b);
  }

  /** An ASCII string's UTF-8 bytes are its character codes. */
  lemma AsciiBytes(s: string, b: seq<Base64.byte>)
    requires |s| == |b| && forall i :: 0 <= i < |s| ==> s[i] as int < 0x80 && b[i] == s[i] as int
    ensures Utf8.Encode(s) == b
  {
    Utf8.EncodeAscii(s);
  }

  /**
   * One entry per user at `/_users/<id>` holding the record unchanged, in array
   * order; a single invalid record fails the whole conversion.
   */
  function UsersEntries(users: seq<Json>): (r: Result<seq<Entry>, string>)
    ensures r.Failure? ==> r.error == UserError
  {
    if users == [] then Success([])
    else if !ValidUser(users[0]) then Failure(UserError)
    else
      var rest := UsersEntries(users[1..]);
      if rest.Failure? then rest
      else Success([Entry(Paths.Encode(Paths.User(UserId(users[0]))), users[0])] + rest.value)
  }

  /** Every record has a username, a provider and an auth level. */
  predicate AllValid(users: seq<Json>) {
    forall i :: 0 <= i < |users| ==> ValidUser(users[i])
  }

  lemma AllValidCons(users: seq<Json>)
    requires users != []
    ensures AllValid(users) <==> ValidUser(users[0]) && AllValid(users[1..])
  {
    if ValidUser(users[0]) && AllValid(users[1..]) {
      forall i | 1 <= i < |users| ensures ValidUser(users[i]) {
        assert users[i] == users[1..][i - 1];
      }
    }
  }

  /** The users convert exactly when every record has a username, a provider and an auth level. */
  lemma {:induction false} UsersEntriesFails(users: seq<Json>)
    ensures UsersEntries(users).Success? <==> AllValid(users)
  {
    if users != [] {
      UsersEntriesFails(users[1..]);
      AllValidCons(users);
    }
  }

  /** Converted users give one entry per record, at `/_users/<id>` and holding the record, in array order. */
  lemma {:induction false} UsersEntriesAt(users: seq<Json>)
    requires UsersEntries(users).Success?
    ensures |UsersEntries(users).value| == |users|
    ensures forall i :: 0 <= i < |users| ==> (ValidUser(users[i])
      && UsersEntries(users).value[i] == Entry(Paths.Encode(Paths.User(UserId(users[i]))), users[i]))
  {
    if users != [] {
      UsersEntriesAt(users[1..]);
      var es, rest := UsersEntries(users).value, UsersEntries(users[1..]).value;
      var head := Entry(Paths.Encode(Paths.User(UserId(users[0]))), users[0]);
      assert es == [head] + rest;
      assert es[1..] == rest;
      forall i | 1 <= i < |users|
        ensures ValidUser(users[i]) && es[i] == Entry(Paths.Encode(Paths.User(UserId(users[i]))), users[i])
      {
        assert users[i] == users[1..][i - 1] && es[i] == es[1..][i - 1];
      }
    }
  }

  // ---- Arbitrary sections ----

  /** One entry per sub-key of an arbitrary section, at `/<top>/<sub>` (one leading slash of `sub` dropped). */
  function SubEntries(top: string, fs: Fields): (r: seq<Entry>)
    ensures |r| == |fs|
    ensures forall i :: 0 <= i < |fs| ==> r[i].value == fs[i].1
    ensures forall i :: 0 <= i < |fs| ==> r[i].path == Paths.Encode(Paths.Other(top, Paths.StripSlash(fs[i].0)))
  {
    if fs == [] then []
    else [Entry(Paths.Encode(Paths.Other(top, Paths.StripSlash(fs[0].0))), fs[0].1)] + SubEntries(top, fs[1..])
  }

  /** The entries of every top-level key outside the four canonical sections, in document order. */
  function ArbitraryEntries(doc: Fields): seq<Entry> {
    if doc == [] then []
    else
      (if Paths.IsCanonicalKey(doc[0].0) then [] else SubEntries(doc[0].0, FieldsOf(doc[0].1)))
        + ArbitraryEntries(doc[1..])
  }

  // ---- Documents ----

  /** The dispatch entries of one bootstrap document. */
  function DispatchDoc(doc: Fields): Result<seq<Entry>, string> {
    var consumed := Consumed(doc);
    var users := UsersEntries(UsersOf(doc));
    if users.Failure? then Failure(users.error)
    else Success(
      ItemsEntries(Paths.Components, Section(doc, Paths.ComponentsKey), doc, consumed)
      + ItemsEntries(Paths.Layouts, Section(doc, Paths.LayoutsKey), doc, consumed)
      + PagesEntries(Section(doc, Paths.PagesKey))
      + users.value
      + ArbitraryEntries(doc))
  }

  /**
   * `toDispatch`: the entries of every document in turn; the first failure
   * ends the conversion, and the only failure is an invalid user.
   */
  function ToDispatch(docs: seq<Json>): (r: Result<seq<Entry>, string>)
    ensures r.Failure? ==> r.error == UserError
  {
    if docs == [] then Success([])
    else
      var first := DispatchDoc(FieldsOf(docs[0]));
      if first.Failure? then Failure(first.error)
      else
        var rest := ToDispatch(docs[1..]);
        if rest.Failure? then rest else Success(first.value + rest.value)
  }

  // ---- What toDispatch emits ----

  /** The conversion fails exactly when one of the documents holds an invalid user. */
  lemma {:induction false} ToDispatchFails(docs: seq<Json>)
    ensures ToDispatch(docs).Failure? <==> exists i :: 0 <= i < |docs| && DispatchDoc(FieldsOf(docs[i])).Failure?
  {
    if docs != [] {
      ToDispatchFails(docs[1..]);
      if DispatchDoc(FieldsOf(docs[0])).Success? && ToDispatch(docs[1..]).Failure? {
        var i :| 0 <= i < |docs[1..]| && DispatchDoc(FieldsOf(docs[1..][i])).Failure?;
        assert docs[1..][i] == docs[i + 1];
      }
      if ToDispatch(docs).Success? {
        forall i | 0 <= i < |docs|
          ensures DispatchDoc(FieldsOf(docs[i])).Success?
        {
          if i > 0 {
            assert docs[i] == docs[1..][i - 1];
          }
        }
      }
    }
  }

  /** One document dispatches as that document does. */
  lemma ToDispatchOne(d: Json)
    ensures ToDispatch([d]) == DispatchDoc(FieldsOf(d))
  {
    assert [d][1..] == [];
    var first := DispatchDoc(FieldsOf(d));
    if first.Success? {
      assert first.value + [] == first.value;
    }
  }

  /** Several documents dispatch as the concatenation of their entries, in document order. */
  lemma {:induction false} ToDispatchAppend(a: seq<Json>, b: seq<Json>)
    requires ToDispatch(a).Success? && ToDispatch(b).Success?
    ensures ToDispatch(a + b) == Success(ToDispatch(a).value + ToDispatch(b).value)
    decreases |a|
  {
    if a == [] {
      assert a + b == b;
      assert [] + ToDispatch(b).value == ToDispatch(b).value;
    } else {
      var first := DispatchDoc(FieldsOf(a[0]));
      assert first.Success? && ToDispatch(a[1..]).Success?;
      assert ToDispatch(a).value == first.value + ToDispatch(a[1..]).value;
      HeadTailAppend(a, b);
      ToDispatchAppend(a[1..], b);
      var x, y, z := first.value, ToDispatch(a[1..]).value, ToDispatch(b).value;
      assert ToDispatch(a + b) == Success(x + (y + z));
      AppendAssoc(x, y, z);
    }
  }

  /** A value with nothing in it: an empty object or an empty array. */
  predicate Empty(v: Json) {
    v == Obj([]) || v == Arr([])
  }

  lemma {:induction false} LookupEmpty(doc: Fields, k: string)
    requires forall i :: 0 <= i < |doc| ==> Empty(doc[i].1)
    ensures Lookup(doc, k).None? || Empty(Lookup(doc, k).value)
  {
    if doc != [] && doc[0].0 != k {
      LookupEmpty(doc[1..], k);
    }
  }

  lemma {:induction false} ArbitraryEmpty(doc: Fields)
    requires forall i :: 0 <= i < |doc| ==> Empty(doc[i].1)
    ensures ArbitraryEntries(doc) == []
  {
    if doc != [] {
      assert Empty(doc[0].1);
      ArbitraryEmpty(doc[1..]);
    }
  }

  lemma EmptySection(doc: Fields, k: string)
    requires forall i :: 0 <= i < |doc| ==> Empty(doc[i].1)
    ensures Section(doc, k) == [] && (k == Paths.UsersKey ==> UsersOf(doc) == [])
  {
    LookupEmpty(doc, k);
  }

  /** A document whose every section is empty dispatches nothing. */
  lemma EmptyDocument(doc: Fields)
    requires forall i :: 0 <= i < |doc| ==> Empty(doc[i].1)
    ensures DispatchDoc(doc) == Success([])
  {
    EmptySection(doc, Paths.ComponentsKey);
    EmptySection(doc, Paths.LayoutsKey);
    EmptySection(doc, Paths.PagesKey);
    EmptySection(doc, Paths.UsersKey);
    ArbitraryEmpty(doc);
    var none: seq<Entry> := [];
    assert none + none + none + none + none == none;
  }

  /** The fixture with empty `_components`, `_layouts`, `_pages`, `_uris` and `_users` dispatches nothing. */
  lemma EmptyRootProperties(doc: Fields)
    requires |doc| == 5
    requires doc[0] == (Paths.ComponentsKey, Obj([])) && doc[1] == (Paths.LayoutsKey, Obj([]))
    requires doc[2] == (Paths.PagesKey, Obj([])) && doc[3] == ("_uris", Obj([])) && doc[4] == (Paths.UsersKey, Arr([]))
    ensures ToDispatch([Obj(doc)]) == Success([])
  {
    assert forall i :: 0 <= i < |doc| ==> Empty(doc[i].1);
    EmptyDocument(doc);
    ToDispatchOne(Obj(doc));
  }
}
