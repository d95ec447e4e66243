/**
 * The alias resolution of the command-line configuration (`.clayconfig`).
 * An alias is a dotted path such as `keys.local` or `sites.prod`; its first
 * segment names a section. The loaded file is a tree of string values; the
 * file itself, the environment and the path resolver are parameters.
 */
module Config {
  import opened Wrappers

  /** A value of the loaded configuration: a string, or an object of further values. */
  datatype Node = Leaf(s: string) | Tree(children: map<string, Node>)

  const KeysSection: string := "keys"
  const SitesSection: string := "sites"
  const FilesSection: string := "files"

  /** The sections an alias may name. */
  const Sections: seq<string> := [KeysSection, SitesSection, FilesSection]

  // ---- Dotted paths ----

  /** The segments of an alias, split at every `.` (`a..b` has an empty middle segment). */
  function Split(s: string): (r: seq<string>)
    ensures |r| >= 1
    ensures forall i :: 0 <= i < |r| ==> '.' !in r[i]
    decreases |s|
  {
    if s == [] then [""]
    else
      var rest := Split(s[1..]);
      if s[0] == '.' then [""] + rest else [[s[0]] + rest[0]] + rest[1..]
  }

  /** The alias whose segments are `ps`. */
  function Join(ps: seq<string>): string
    requires |ps| >= 1
    decreases |ps|
  {
    if |ps| == 1 then ps[0] else ps[0] + "." + Join(ps[1..])
  }

  /** Splitting an alias and joining its segments gives the alias back. */
  lemma {:induction false} JoinSplit(s: string)
    ensures Join(Split(s)) == s
    decreases |s|
  {
    if s != [] {
      var rest := Split(s[1..]);
      JoinSplit(s[1..]);
      if s[0] == '.' {
        assert Split(s) == [""] + rest;
        assert Split(s)[1..] == rest;
        assert Join(Split(s)) == "" + "." + Join(rest);
        assert s == [s[0]] + s[1..];
      } else if |rest| == 1 {
        assert Join(Split(s)) == [s[0]] + rest[0];
        assert s == [s[0]] + s[1..];
      } else {
        var r := Split(s);
        assert r[0] == [s[0]] + rest[0] && r[1..] == rest[1..];
        assert Join(rest) == rest[0] + "." + Join(rest[1..]);
        assert Join(r) == ([s[0]] + rest[0]) + "." + Join(rest[1..]);
        assert s == [s[0]] + s[1..];
      }
    }
  }

  /** Joining segments without dots and splitting the result gives the segments back. */
  lemma {:induction false} SplitJoin(ps: seq<string>)
    requires |ps| >= 1 && forall i :: 0 <= i < |ps| ==> '.' !in ps[i]
    ensures Split(Join(ps)) == ps
    decreases |ps|
  {
    if |ps| == 1 {
      SplitNoDot(ps[0]);
    } else {
      SplitJoin(ps[1..]);
      SplitDotted(ps[0], Join(ps[1..]));
      assert ps == [ps[0]] + ps[1..];
    }
  }

  /** A string without dots is one segment. */
  lemma {:induction false} SplitNoDot(s: string)
    requires '.' !in s
    ensures Split(s) == [s]
    decreases |s|
  {
    if s != [] {
      SplitNoDot(s[1..]);
      assert s == [s[0]] + s[1..];
    }
  }

  /** `<t>.<k>` splits into `t` and the segments of `k`. */
  lemma {:induction false} SplitDotted(t: string, k: string)
    requires '.' !in t
    ensures Split(t + "." + k) == [t] + Split(k)
    decreases |t|
  {
    var s := t + "." + k;
    if t == [] {
      assert s == "." + k && s[1..] == k;
    } else {
      assert s[0] == t[0] && s[1..] == t[1..] + "." + k;
      SplitDotted(t[1..], k);
      assert t == [t[0]] + t[1..];
    }
  }

  /** The section an alias names: its first segment. */
  function SectionOf(alias: string): (t: string)
    ensures '.' !in t
  {
    Split(alias)[0]
  }

  /** An alias built as `<section>.<name>` names that section. */
  lemma SectionOfDotted(t: string, name: string)
    requires '.' !in t
    ensures SectionOf(t + "." + name) == t
    ensures Split(t + "." + name) == [t] + Split(name)
  {
    SplitDotted(t, name);
  }

  // ---- Getting and setting along a path ----

  /** The value at path `p` below `m`; a string met before the path ends has nothing below it. */
  function GetIn(m: map<string, Node>, p: seq<string>): Option<Node>
    requires p != []
    decreases |p|
  {
    if p[0] !in m then None
    else if |p| == 1 then Some(m[p[0]])
    else match m[p[0]]
      case Leaf(_) => None
      case Tree(c) => GetIn(c, p[1..])
  }

  /** `m` with `v` stored at path `p`; missing objects on the way, and strings in the way, become empty objects. */
  function SetIn(m: map<string, Node>, p: seq<string>, v: string): map<string, Node>
    requires p != []
    decreases |p|
  {
    if |p| == 1 then m[p[0] := Leaf(v)]
    else
      var child := if p[0] in m && m[p[0]].Tree? then m[p[0]].children else map[];
      m[p[0] := Tree(SetIn(child, p[1..], v))]
  }

  /** Nothing is stored below an empty object. */
  lemma GetInEmpty(p: seq<string>)
    requires p != []
    ensures GetIn(map[], p) == None
  {
  }

  /** After storing `v` at `p`, the value at `p` is `v`. */
  lemma {:induction false} GetSetSame(m: map<string, Node>, p: seq<string>, v: string)
    requires p != []
    ensures GetIn(SetIn(m, p, v), p) == Some(Leaf(v))
    decreases |p|
  {
    if |p| > 1 {
      var child := if p[0] in m && m[p[0]].Tree? then m[p[0]].children else map[];
      GetSetSame(child, p[1..], v);
    }
  }

  /** `p` is a prefix of `q` (or equal to it). */
  predicate IsPrefix(p: seq<string>, q: seq<string>) {
    |p| <= |q| && q[..|p|] == p
  }

  /** Paths with the same first segment are prefixes of each other as their tails are. */
  lemma PrefixCons(p: seq<string>, q: seq<string>)
    requires p != [] && q != [] && p[0] == q[0]
    ensures IsPrefix(p[1..], q[1..]) ==> IsPrefix(p, q)
  {
    if IsPrefix(p[1..], q[1..]) {
      assert q[..|p|] == [q[0]] + q[1..][..|p| - 1];
      assert p == [p[0]] + p[1..];
    }
  }

  /** Storing at `p` leaves every path that neither contains nor extends `p` as it was. */
  lemma {:induction false} GetSetOther(m: map<string, Node>, p: seq<string>, q: seq<string>, v: string)
    requires p != [] && q != []
    requires !IsPrefix(p, q) && !IsPrefix(q, p)
    ensures GetIn(SetIn(m, p, v), q) == GetIn(m, q)
    decreases |p|
  {
    if p[0] == q[0] {
      PrefixCons(p, q);
      PrefixCons(q, p);
      var child := if p[0] in m && m[p[0]].Tree? then m[p[0]].children else map[];
      GetSetOther(child, p[1..], q[1..], v);
      if !(p[0] in m && m[p[0]].Tree?) {
        GetInEmpty(q[1..]);
      }
    }
  }

  // ---- getConfig ----

  /** A configured value the source treats as absent: none at all, or the empty string. */
  predicate Falsy(v: Option<Node>) {
    v.None? || v.value == Leaf("")
  }

  function GetError(alias: string): string {
    "Cannot get " + alias + ": Unknown section \"" + SectionOf(alias) + "\""
  }

  /**
   * `getConfig`: the value at `alias`. A missing or empty value is null under a
   * known section and an error under an unknown one; a present value is
   * returned whatever its section.
   */
  function GetConfig(m: map<string, Node>, alias: string): (r: Result<Option<Node>, string>)
    ensures r.Failure? <==> Falsy(GetIn(m, Split(alias))) && SectionOf(alias) !in Sections
    ensures r.Failure? ==> r.error == GetError(alias)
    ensures r.Success? && r.value.Some? ==> r.value == GetIn(m, Split(alias)) && r.value.value != Leaf("")
    ensures r.Success? && r.value.None? ==> Falsy(GetIn(m, Split(alias)))
  {
    var value := GetIn(m, Split(alias));
    if Falsy(value) && SectionOf(alias) !in Sections then Failure(GetError(alias))
    else if Falsy(value) then Success(None)
    else Success(value)
  }

  /** An alias under a known section never fails to look up. */
  lemma GetConfigKnown(m: map<string, Node>, t: string, name: string)
    requires t in Sections
    ensures GetConfig(m, t + "." + name).Success?
  {
    SectionOfDotted(t, name);
  }

  // ---- setConfig ----

  function SaveError(alias: string): string {
    "Cannot save " + alias + ": Unknown section \"" + SectionOf(alias) + "\""
  }

  /** A file path that is already absolute or home-relative: it starts with `/` or `~`. */
  predicate Anchored(path: string) {
    path != [] && (path[0] == '/' || path[0] == '~')
  }

  /** The value `setConfig` stores: relative file paths go through the resolver, everything else is kept. */
  function Stored(alias: string, value: string, resolve: string -> string): (s: string)
    ensures SectionOf(alias) != FilesSection || Anchored(value) ==> s == value
    ensures SectionOf(alias) == FilesSection && !Anchored(value) ==> s == resolve(value)
  {
    if SectionOf(alias) == FilesSection && !Anchored(value) then resolve(value) else value
  }

  /** The loaded configuration file. */
  class ConfigFile {
    var root: map<string, Node>

    constructor (root0: map<string, Node>)
      ensures root == root0
    {
      root := root0;
    }

    /**
     * `setConfig`: store `value` at `alias` under a known section; an unknown
     * section fails and stores nothing.
     */
    method Set(alias: string, value: string, resolve: string -> string) returns (r: Result<(), string>)
      modifies this
      ensures r.Failure? <==> SectionOf(alias) !in Sections
      ensures r.Failure? ==> r.error == SaveError(alias) && root == old(root)
      ensures r.Success? ==> root == SetIn(old(root), Split(alias), Stored(alias, value, resolve))
      ensures r.Success? ==> GetIn(root, Split(alias)) == Some(Leaf(Stored(alias, value, resolve)))
      ensures forall q :: q != [] && !IsPrefix(Split(alias), q) && !IsPrefix(q, Split(alias)) ==> GetIn(root, q) == GetIn(old(root), q)
    {
      if SectionOf(alias) !in Sections {
        return Failure(SaveError(alias));
      }
      var stored := Stored(alias, value, resolve);
      forall q | q != [] && !IsPrefix(Split(alias), q) && !IsPrefix(q, Split(alias))
        ensures GetIn(SetIn(root, Split(alias), stored), q) == GetIn(root, q)
      {
        GetSetOther(root, Split(alias), q, stored);
      }
      GetSetSame(root, Split(alias), stored);
      root := SetIn(root, Split(alias), stored);
      r := Success(());
    }
  }

  /** What was set under a known section is what is got back; an empty string reads as null. */
  lemma GetAfterSet(m: map<string, Node>, alias: string, v: string)
    requires SectionOf(alias) in Sections
    ensures GetConfig(SetIn(m, Split(alias), v), alias) == Success(if v == "" then None else Some(Leaf(v)))
  {
    GetSetSame(m, Split(alias), v);
  }

  // ---- getKey ----

  /**
   * `getKey`: with a name, the configured `keys.<name>` or else the name
   * itself; without one, the default from the environment (empty: unset).
   */
  function GetKey(m: map<string, Node>, keyname: string, envDefault: string): (r: Option<Node>)
    ensures keyname != "" ==> r.Some? && r.value != Leaf("")
    ensures keyname == "" ==> (r.None? <==> envDefault == "")
    ensures keyname == "" && envDefault != "" ==> r == Some(Leaf(envDefault))
  {
    if keyname != "" then
      GetConfigKnown(m, KeysSection, keyname);
      var c := GetConfig(m, KeysSection + "." + keyname).value;
      if c.Some? then c else Some(Leaf(keyname))
    else if envDefault != "" then Some(Leaf(envDefault))
    else None
  }

  /** A key set for `name` is the key `getKey(name)` gives. */
  lemma GetKeyAfterSet(m: map<string, Node>, keyname: string, key: string, env: string)
    requires keyname != "" && key != ""
    ensures GetKey(SetIn(m, Split(KeysSection + "." + keyname), key), keyname, env) == Some(Leaf(key))
  {
    SectionOfDotted(KeysSection, keyname);
    GetAfterSet(m, KeysSection + "." + keyname, key);
  }

  /** With no key configured for `name`, `getKey(name)` is the name itself. */
  lemma GetKeyUnset(m: map<string, Node>, keyname: string, env: string)
    requires keyname != "" && Falsy(GetIn(m, Split(KeysSection + "." + keyname)))
    ensures GetKey(m, keyname, env) == Some(Leaf(keyname))
  {
    GetConfigKnown(m, KeysSection, keyname);
  }

  // ---- normalizeSite ----

  const Http: string := "http://"
  const Https: string := "https://"

  predicate StartsWith(s: string, t: string) {
    |t| <= |s| && s[..|t|] == t
  }

  /** `t` occurs somewhere in `s`. */
  predicate Contains(s: string, t: string)
    decreases |s|
  {
    StartsWith(s, t) || (s != [] && Contains(s[1..], t))
  }

  function Lower(c: char): char {
    if 'A' <= c <= 'Z' then (c as int + 32) as char else c
  }

  /** `s` starts with `t` ignoring the case of ASCII letters (`t` in lower case). */
  predicate StartsWithFolded(s: string, t: string) {
    |t| <= |s| && forall i :: 0 <= i < |t| ==> Lower(s[i]) == t[i]
  }

  /** The site without one leading `http://` (any case) or `//`. */
  function Host(url: string): (h: string)
    ensures StartsWithFolded(url, Http) ==> h == url[|Http|..]
    ensures !StartsWithFolded(url, Http) && StartsWith(url, "//") ==> h == url[2..]
    ensures !StartsWithFolded(url, Http) && !StartsWith(url, "//") ==> h == url
  {
    if StartsWithFolded(url, Http) then url[7..]
    else if StartsWith(url, "//") then url[2..]
    else url
  }

  predicate EndsWithSlash(s: string) {
    s != [] && s[|s| - 1] == '/'
  }

  /** `s` without one trailing slash. */
  function TrimSlash(s: string): (r: string)
    ensures s == r || s == r + "/"
    ensures EndsWithSlash(s) <==> s != r
  {
    if EndsWithSlash(s) then s[..|s| - 1] else s
  }

  /** `normalizeSite`: add `http://` unless the url is https, then drop one trailing slash. */
  function NormalizeSite(url: string): (r: string)
    ensures Contains(url, Https) ==> (EndsWithSlash(url) ==> url == r + "/") && (!EndsWithSlash(url) ==> r == url)
    ensures !Contains(url, Https) ==> var t := Http + Host(url);
      (EndsWithSlash(t) ==> t == r + "/") && (!EndsWithSlash(t) ==> r == t)
  {
    TrimSlash(if Contains(url, Https) then url else Http + Host(url))
  }

  /** An occurrence in a prefix is an occurrence. */
  lemma {:induction false} ContainsPrefix(s: string, u: string, t: string)
    requires Contains(s, t)
    ensures Contains(s + u, t)
    decreases |s|
  {
    if StartsWith(s, t) {
      assert (s + u)[..|t|] == s[..|t|];
    } else {
      ContainsPrefix(s[1..], u, t);
      assert (s + u)[1..] == s[1..] + u;
    }
  }

  /** An occurrence in a suffix is an occurrence. */
  lemma {:induction false} ContainsSuffix(s: string, k: nat, t: string)
    requires k <= |s| && Contains(s[k..], t)
    ensures Contains(s, t)
    decreases k
  {
    if k > 0 {
      assert s[1..][k - 1..] == s[k..];
      ContainsSuffix(s[1..], k - 1, t);
    }
  }

  /** `http://` cannot start an `https://` that runs into what follows it. */
  lemma HttpPrefixContains(h: string)
    ensures Contains(Http + h, Https) <==> Contains(h, Https)
  {
    var s := Http + h;
    ContainsStep(s, 0);
    ContainsStep(s, 1);
    ContainsStep(s, 2);
    ContainsStep(s, 3);
    ContainsStep(s, 4);
    ContainsStep(s, 5);
    ContainsStep(s, 6);
    assert s[7..] == h;
  }

  /** Past a character that is not `h` or an `s` inside `http`, an `https://` must start later. */
  lemma ContainsStep(s: string, i: nat)
    requires i < 7 && |s| >= 7 && s[..7] == Http
    ensures Contains(s[i..], Https) <==> Contains(s[i + 1..], Https)
  {
    assert s[i..][1..] == s[i + 1..];
    assert !StartsWith(s[i..], Https) by {
      if i == 0 { assert s[4] == ':'; }
      else { assert s[i] != 'h'; }
    }
  }

  /**
   * Without an `https://` and with something after the protocol, the site
   * starts with `http://`.
   */
  lemma NormalizeSitePlain(url: string)
    requires !Contains(url, Https) && Host(url) != ""
    ensures StartsWith(NormalizeSite(url), Http)
  {
    var r := NormalizeSite(url);
    var t := Http + Host(url);
    assert |r| >= 7;
    assert r[..7] == t[..7];
  }

  /** With nothing after the protocol, the trailing-slash step eats into `http://`. */
  lemma NormalizeSiteNoHost(url: string)
    requires !Contains(url, Https) && Host(url) == ""
    ensures NormalizeSite(url) == "http:/"
  {
  }

  /** A url with no protocol gets `http://` in front, and only loses a trailing slash. */
  lemma NormalizeSiteBare(url: string)
    requires !Contains(url, Https) && !StartsWithFolded(url, Http) && !StartsWith(url, "//")
    ensures NormalizeSite(url) == TrimSlash(Http + url)
  {
  }

  /** A normalised site that does not end in a slash is left alone by a second normalisation. */
  lemma NormalizeSiteIdempotent(url: string)
    requires !EndsWithSlash(NormalizeSite(url))
    ensures NormalizeSite(NormalizeSite(url)) == NormalizeSite(url)
  {
    var r := NormalizeSite(url);
    if Contains(url, Https) {
      if r != url {
        assert url == r + "/";
        // the occurrence of `https://` in `url` cannot reach its last character,
        // because then `r` would end in `/`
        HttpsInTrimmed(r);
      }
    } else {
      var h := Host(url);
      var t := Http + h;
      assert r == t || t == r + "/";
      ShortSiteEndsWithSlash(r, t);
      assert r[..7] == Http;
      var h' := r[7..];
      assert r == Http + h';
      assert !Contains(h', Https) by {
        if Contains(h', Https) {
          assert h' == h || h == h' + "/";
          if h != h' { ContainsPrefix(h', "/", Https); }
          HostContains(url);
        }
      }
      HttpPrefixContains(h');
      HostOfHttp(h');
    }
  }

  /** `http://<host>` starts with `http://` in any case, and its host is `<host>`. */
  lemma HostOfHttp(h: string)
    ensures StartsWithFolded(Http + h, Http) && Host(Http + h) == h
  {
    var s := Http + h;
    forall i | 0 <= i < |Http| ensures Lower(s[i]) == Http[i] {
      assert s[i] == Http[i];
    }
    assert s[7..] == h;
  }

  /** A trimmed `http://<host>` of at most seven characters is `http://` or `http:/`: it ends in a slash. */
  lemma ShortSiteEndsWithSlash(r: string, t: string)
    requires |t| >= 7 && t[..7] == Http && (r == t || t == r + "/")
    ensures |r| <= 7 ==> EndsWithSlash(r)
  {
    if |r| <= 7 {
      assert |r| >= 6;
      assert r[|r| - 1] == t[|r| - 1];
    }
  }

  /** `https://` in `r + "/"` with `r` not ending in `/` lies within `r`. */
  lemma {:induction false} HttpsInTrimmed(r: string)
    requires Contains(r + "/", Https) && !EndsWithSlash(r)
    ensures Contains(r, Https)
    decreases |r|
  {
    var s := r + "/";
    if StartsWith(s, Https) {
      assert s[6] == Https[6] == '/';
      assert r[6] == '/';
      assert |r| >= 8;
      assert r[..8] == s[..8];
    } else {
      assert s[1..] != [];
      assert s[1..] == r[1..] + "/";
      HttpsInTrimmed(r[1..]);
    }
  }

  /** Dropping the protocol keeps any `https://` out. */
  lemma HostContains(url: string)
    requires Contains(Host(url), Https)
    ensures Contains(url, Https)
  {
    if StartsWithFolded(url, Http) {
      ContainsSuffix(url, 7, Https);
    } else if StartsWith(url, "//") {
      ContainsSuffix(url, 2, Https);
    }
  }

  // ---- getSite ----

  /** The error a configured site that is an object raises: it has no string methods. */
  const NotAString: string := "url.replace is not a function"

  /** What the config holds for `sites.<sitename>`. */
  function SiteEntry(m: map<string, Node>, sitename: string): Option<Node> {
    GetIn(m, Split(SitesSection + "." + sitename))
  }

  /**
   * `getSite`: with a name, the normalised `sites.<name>` if it is set, else
   * the name itself normalised; without one, the normalised default from the
   * environment (empty: unset).
   */
  function GetSite(m: map<string, Node>, sitename: string, envDefault: string): (r: Result<Option<string>, string>)
    ensures sitename != "" && r.Success? ==> r.value.Some?
    ensures r.Failure? ==> r.error == NotAString
    ensures r.Failure? <==> sitename != "" && SiteEntry(m, sitename).Some? && SiteEntry(m, sitename).value.Tree?
    ensures sitename != "" && r.Success? ==>
      r.value.value == NormalizeSite(if Falsy(SiteEntry(m, sitename)) then sitename else SiteEntry(m, sitename).value.s)
    ensures sitename == "" ==> r == Success(if envDefault == "" then None else Some(NormalizeSite(envDefault)))
  {
    if sitename != "" then
      GetConfigKnown(m, SitesSection, sitename);
      var url := GetConfig(m, SitesSection + "." + sitename).value;
      if url.None? then Success(Some(NormalizeSite(sitename)))
      else match url.value
        case Leaf(s) => Success(Some(NormalizeSite(s)))
        case Tree(_) => Failure(NotAString)
    else if envDefault != "" then Success(Some(NormalizeSite(envDefault)))
    else Success(None)
  }

  /** A site set for `name` is the site `getSite(name)` gives, normalised. */
  lemma GetSiteAfterSet(m: map<string, Node>, sitename: string, url: string, env: string)
    requires sitename != "" && url != ""
    ensures GetSite(SetIn(m, Split(SitesSection + "." + sitename), url), sitename, env) == Success(Some(NormalizeSite(url)))
  {
    SectionOfDotted(SitesSection, sitename);
    GetAfterSet(m, SitesSection + "." + sitename, url);
  }

  /** With no site configured for `name`, `getSite(name)` normalises the name itself. */
  lemma GetSiteUnset(m: map<string, Node>, sitename: string, env: string)
    requires sitename != "" && Falsy(GetIn(m, Split(SitesSection + "." + sitename)))
    ensures GetSite(m, sitename, env) == Success(Some(NormalizeSite(sitename)))
  {
    GetConfigKnown(m, SitesSection, sitename);
  }
}
