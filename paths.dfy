/**
 * The path codec: the location a dispatch entry writes to, and its path string.
 *
 *   /_components/<name>[/instances/<instance>][/meta]
 *   /_layouts/<name>[/instances/<instance>][/meta]
 *   /_pages/<name>[/meta]
 *   /_users/<id>
 *   /<top>/<sub>            (any other top-level key of a bootstrap document)
 */
module Paths {
  import opened Wrappers

  /** The two sections whose items have a default variant and instances. */
  datatype Section = Components | Layouts

  datatype Location =
    | Item(section: Section, name: string, instance: Option<string>, meta: bool)
    | Page(name: string, meta: bool)
    | User(id: string)
    | Other(top: string, sub: string)

  const ComponentsKey: string := "_components"
  const LayoutsKey: string := "_layouts"
  const PagesKey: string := "_pages"
  const UsersKey: string := "_users"

  function SectionKey(s: Section): (k: string)
    ensures k == ComponentsKey || k == LayoutsKey
  {
    match s
    case Components => ComponentsKey
    case Layouts => LayoutsKey
  }

  /** A top-level key that one of the four canonical sections owns. */
  predicate IsCanonicalKey(k: string) {
    k == ComponentsKey || k == LayoutsKey || k == PagesKey || k == UsersKey
  }

  /** Drops one leading slash, if there is one (`'/bar'` becomes `'bar'`). */
  function StripSlash(s: string): (r: string)
    ensures if |s| > 0 && s[0] == '/' then r == s[1..] else r == s
  {
    if |s| > 0 && s[0] == '/' then s[1..] else s
  }

  /** Splits at the first slash: the text before it, and the text after it if there is one. */
  function Break(s: string): (r: (string, Option<string>))
    ensures '/' !in r.0
    ensures r.1.None? ==> r.0 == s
    ensures r.1.Some? ==> s == r.0 + "/" + r.1.value
  {
    if s == [] then ([], None)
    else if s[0] == '/' then ([], Some(s[1..]))
    else
      var (head, tail) := Break(s[1..]);
      ([s[0]] + head, tail)
  }

  function MetaSuffix(meta: bool): string {
    if meta then "/meta" else ""
  }

  /** What follows `/_components/` or `/_layouts/` in the path of an item variant. */
  function ItemTail(name: string, instance: Option<string>, meta: bool): string {
    match instance
    case None => name + MetaSuffix(meta)
    case Some(i) => name + "/" + ("instances" + "/" + (i + MetaSuffix(meta)))
  }

  /** The path a dispatch entry for `loc` is written to. */
  function Encode(loc: Location): string {
    match loc
    case Item(sec, name, inst, meta) => "/" + (SectionKey(sec) + "/" + ItemTail(name, inst, meta))
    case Page(name, meta) => "/" + (PagesKey + "/" + (name + MetaSuffix(meta)))
    case User(id) => "/" + (UsersKey + "/" + id)
    case Other(top, sub) => "/" + (top + "/" + sub)
  }

  /** The item location of what follows `/_components/` or `/_layouts/`, if it has one of the item shapes. */
  function DecodeItem(sec: Section, rest: string): Option<Location> {
    var (name, r1) := Break(rest);
    if r1.None? then Some(Item(sec, name, None, false))
    else if r1.value == "meta" then Some(Item(sec, name, None, true))
    else
      var (word, r2) := Break(r1.value);
      if word != "instances" || r2.None? then None
      else DecodeInstance(sec, name, r2.value)
  }

  /** The instance location of what follows `<item>/instances/`. */
  function DecodeInstance(sec: Section, name: string, rest: string): Option<Location> {
    var (inst, r3) := Break(rest);
    if r3.None? then Some(Item(sec, name, Some(inst), false))
    else if r3.value == "meta" then Some(Item(sec, name, Some(inst), true))
    else None
  }

  /** The page location of what follows `/_pages/`, if it has one of the page shapes. */
  function DecodePage(rest: string): Option<Location> {
    var (name, r1) := Break(rest);
    if r1.None? then Some(Page(name, false))
    else if r1.value == "meta" then Some(Page(name, true))
    else None
  }

  /** Routes a path by its first segment `top`; `rest` is what follows `top/`. */
  function Route(top: string, rest: string): Location {
    if top == UsersKey then User(rest)
    else if top == ComponentsKey || top == LayoutsKey then
      var loc := DecodeItem(if top == ComponentsKey then Components else Layouts, rest);
      if loc.Some? then loc.value else Other(top, rest)
    else if top == PagesKey then
      var loc := DecodePage(rest);
      if loc.Some? then loc.value else Other(top, rest)
    else Other(top, rest)
  }

  /**
   * The location a path writes to. One leading slash is optional; a path that
   * fits none of the canonical shapes is an arbitrary `/<top>/<sub>` path.
   */
  function Decode(path: string): Location {
    var (top, rest) := Break(StripSlash(path));
    if rest.None? then Other(top, "") else Route(top, rest.value)
  }

  /** A single path segment: it holds no slash. */
  predicate IsSegment(s: string) {
    '/' !in s
  }

  /** Locations whose names are single segments, so that their paths can be read back. */
  predicate Readable(loc: Location) {
    match loc
    case Item(_, name, inst, _) => IsSegment(name) && (inst.Some? ==> IsSegment(inst.value))
    case Page(name, _) => IsSegment(name)
    case User(_) => true
    case Other(top, _) => IsSegment(top) && !IsCanonicalKey(top)
  }

  lemma {:induction false} BreakSegment(a: string)
    requires IsSegment(a)
    ensures Break(a) == (a, None)
  {
    if a != [] {
      BreakSegment(a[1..]);
      assert [a[0]] + a[1..] == a;
    }
  }

  lemma {:induction false} BreakJoined(a: string, b: string)
    requires IsSegment(a)
    ensures Break(a + "/" + b) == (a, Some(b))
  {
    if a == [] {
      assert a + "/" + b == "/" + b;
    } else {
      BreakJoined(a[1..], b);
      assert (a + "/" + b)[1..] == a[1..] + "/" + b;
      assert [a[0]] + a[1..] == a;
    }
  }

  /** The path after its leading slash decodes by its first segment. */
  lemma DecodeRooted(top: string, rest: string)
    requires IsSegment(top)
    ensures Break(StripSlash("/" + (top + "/" + rest))) == (top, Some(rest))
  {
    assert ("/" + (top + "/" + rest))[1..] == top + "/" + rest;
    BreakJoined(top, rest);
  }

  lemma DecodeDefaultPath(sec: Section, name: string, meta: bool)
    requires IsSegment(name)
    ensures Decode(Encode(Item(sec, name, None, meta))) == Item(sec, name, None, meta)
  {
    var key := SectionKey(sec);
    var tail := name + MetaSuffix(meta);
    assert Encode(Item(sec, name, None, meta)) == "/" + (key + "/" + tail);
    DecodeRooted(key, tail);
    if meta {
      assert tail == name + "/" + "meta";
      BreakJoined(name, "meta");
    } else {
      assert tail == name;
      BreakSegment(name);
    }
    assert DecodeItem(sec, tail) == Some(Item(sec, name, None, meta));
    assert Route(key, tail) == Item(sec, name, None, meta);
  }

  lemma DecodeInstanceTail(sec: Section, name: string, inst: string, meta: bool)
    requires IsSegment(inst)
    ensures DecodeInstance(sec, name, inst + MetaSuffix(meta)) == Some(Item(sec, name, Some(inst), meta))
  {
    if meta {
      assert inst + "/meta" == inst + "/" + "meta";
      BreakJoined(inst, "meta");
    } else {
      assert inst + "" == inst;
      BreakSegment(inst);
    }
  }

  lemma DecodeItemInstance(sec: Section, name: string, inst: string, meta: bool)
    requires IsSegment(name) && IsSegment(inst)
    ensures DecodeItem(sec, name + "/" + ("instances" + "/" + (inst + MetaSuffix(meta))))
         == Some(Item(sec, name, Some(inst), meta))
  {
    var r2 := inst + MetaSuffix(meta);
    var r1 := "instances" + "/" + r2;
    BreakJoined(name, r1);
    BreakJoined("instances", r2);
    assert r1[0] == 'i' && r1 != "meta";
    DecodeInstanceTail(sec, name, inst, meta);
  }

  lemma DecodeInstancePath(sec: Section, name: string, inst: string, meta: bool)
    requires IsSegment(name) && IsSegment(inst)
    ensures Decode(Encode(Item(sec, name, Some(inst), meta))) == Item(sec, name, Some(inst), meta)
  {
    var key := SectionKey(sec);
    var tail := name + "/" + ("instances" + "/" + (inst + MetaSuffix(meta)));
    DecodeRooted(key, tail);
    DecodeItemInstance(sec, name, inst, meta);
    assert Route(key, tail) == Item(sec, name, Some(inst), meta);
  }

  lemma DecodePagePath(name: string, meta: bool)
    requires IsSegment(name)
    ensures Decode(Encode(Page(name, meta))) == Page(name, meta)
  {
    var tail := name + MetaSuffix(meta);
    assert Encode(Page(name, meta)) == "/" + (PagesKey + "/" + tail);
    DecodeRooted(PagesKey, tail);
    if meta {
      assert tail == name + "/" + "meta";
      BreakJoined(name, "meta");
    } else {
      assert tail == name;
      BreakSegment(name);
    }
    assert DecodePage(tail) == Some(Page(name, meta));
    assert Route(PagesKey, tail) == Page(name, meta);
  }

  /** Every readable location is recovered from its path. */
  lemma DecodeEncode(loc: Location)
    requires Readable(loc)
    ensures Decode(Encode(loc)) == loc
  {
    match loc {
      case Item(sec, name, inst, meta) =>
        if inst.Some? { DecodeInstancePath(sec, name, inst.value, meta); }
        else { DecodeDefaultPath(sec, name, meta); }
      case Page(name, meta) => DecodePagePath(name, meta);
      case User(id) =>
        assert Encode(loc) == "/" + (UsersKey + "/" + id);
        DecodeRooted(UsersKey, id);
      case Other(top, sub) =>
        assert Encode(loc) == "/" + (top + "/" + sub);
        DecodeRooted(top, sub);
    }
  }
}
