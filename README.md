# clay-cli: bootstrap ⇄ dispatch conversion and configuration aliases

This project is a Dafny model of two parts of the clay command-line tool. It proves
properties of that model.

**The converter between the two data shapes.**
- A *bootstrap* document holds a site's content in sections: `_components`, `_layouts`,
  `_pages`, `_users`, and any other top-level key.
- A *dispatch* stream holds the same content as single-path writes: `{ "<path>": <value> }`.
- `toDispatch` turns bootstrap documents into dispatch entries.
- `toBootstrap` folds dispatch entries back into one bootstrap document.

The converter's code (`lib/formatting.js`) is not part of this model. Its behaviour is taken
from the fixtures and expectations in `lib/formatting.test.js`. Where the tests are silent, the
model chooses the simplest behaviour that agrees with them, and says so below.

**The configuration aliases (`lib/utils/config.js`).**
- An alias such as `keys.local` or `sites.prod` names a value in `.clayconfig`.
- `getConfig` and `setConfig` read and write such a value.
- `getKey` and `getSite` resolve a key or site name through the config, falling back to the
  name itself or to an environment default.
- `normalizeSite` puts a site prefix in canonical form.

The files:
- `json.dfy` holds JSON values, with objects as ordered field lists. Setting an existing key
  keeps its position; setting a new key appends it. This is the insertion order a JavaScript
  object keeps for keys that are not integer-like (see "## Left out").
- `base64.dfy` holds the base64 alphabet, encoder and decoder (section 4 of RFC 4648). The
  decoder is strict: it rejects non-zero pad bits, so every byte string has exactly one text.
- `utf8.dfy` holds the UTF-8 encoding of strings (RFC 3629).
- `paths.dfy` holds the dispatch path grammar:
  - `/_components/<name>[/instances/<instance>][/meta]`, and the same under `/_layouts`;
  - `/_pages/<name>[/meta]`;
  - `/_users/<id>`;
  - `/<key>/<sub>` for everything else.

  It has a decoder and a proof that decoding inverts encoding.
- `references.dfy` holds reference nodes (`{_ref: <path>}`):
  - resolution inlines the target variant's fields (dispatch form);
  - reduction strips them again (bootstrap form);
  - the stripped fields become *moves* that are handed back to the target.
- `dispatch.dfy` holds `toDispatch`:
  - sections are taken in a fixed order: components, layouts, pages, users, then the rest;
  - items come out in map order, each default variant before its instances;
  - a variant that a reference points at is not emitted on its own;
  - `meta` is split off into its own entry;
  - a page's legacy `url` becomes `customUrl`;
  - user ids are the base64 of the UTF-8 bytes of `username@provider`;
  - an invalid user fails the conversion.
- `bootstrap.dfy` holds `toBootstrap` as a loop over the entries that fills one accumulator
  document, and the hand-back of moves as a second loop. Both loops are proved equal to folds
  (`AssembleFrom`, `PutMoves`), and lemmas say where each entry and each move lands.
- `roundtrip.dfy` proves that dispatching and assembling gives back a pages section, a users
  section, arbitrary sections, and whole documents made of them, under the conditions listed
  below.
- `config.dfy` holds the alias paths, lodash-style get and set over a configuration tree, and
  `getConfig`, `setConfig` (a method on the loaded `ConfigFile`), `getKey`, `normalizeSite` and
  `getSite`.

Some environment details become parameters:
- The process environment's `CLAY_DEFAULT_KEY` and `CLAY_DEFAULT_SITE` become string
  parameters; the empty string stands for unset.
- `path.resolve` becomes a function parameter.
- The loaded `.clayconfig` becomes a map held by `ConfigFile`.

Behaviour taken from particular expectations:
- **Reference fields on the way back.** In the "mixed dispatches" expectation
  (`lib/formatting.test.js:337-376`), the entry for `/_components/a` holds
  `{_ref: '/_components/b', a: 'b'}`. The result keeps only `{_ref: '/_components/b'}` under `a`,
  and `b` receives `{a: 'b'}`. The model strips the extra fields off every reference node and
  merges them into the target variant, after the entry's own fields (`References.Moves`,
  `Bootstrap.PutMoves`). Where the tests are silent, the model chooses to hand the fields back
  one reference at a time, in document order.
- **Default variants.** An item whose only field is `instances` gets no default entry
  (`lib/formatting.test.js:58-64` and `lib/formatting.test.js:159-161`).
- **Consumed variants.** A variant that some reference points at is not emitted on its own
  (`lib/formatting.test.js:26-33` and `lib/formatting.test.js:119-139`).

When the round trip holds:
- Each section must be non-empty. An empty section such as `_uris: {}` dispatches nothing, so it
  vanishes (`Dispatch.EmptyRootProperties`).
- A key of an arbitrary section must be `/` or not start with `/`. The key `""` comes back as
  `/`, and `/a` comes back as `a` (`RoundTrip.Restorable`).
- The users array must be non-empty and every record valid.
- A page key must be a single path segment with no leading `/`. A page must have distinct keys
  and no `url` (it comes back as `customUrl`), and `meta`, if present, must be its last field
  (the `/meta` entry is applied after the page's own entry).
- The document holds pages, then users, then arbitrary sections, in the order the conversion
  emits them (`RoundTrip.PlainDoc`).
- A `_components` or `_layouts` section survives on its own (`RoundTrip.ItemsRoundTrip`) when it has
  no references and every item has distinct keys, `meta` last in each variant, and `instances`, if
  present, as its last field holding a non-empty object.

## Model

| member | source | states |
|---|---|---|
| Json.Set | lib/formatting.test.js:337-376 | setting a key keeps the position of an existing key or appends a new one, stores the value under it and leaves every other key's value alone |
| Json.Remove | lib/formatting.test.js:163-176 | removing a key leaves no such key, keeps every other key's value and invents no field |
| Json.Merge | lib/formatting.test.js:283-313 | a shallow merge keeps every key of the slot in its place, adds the keys of the entry, and leaves a key the entry does not name with its old value |
| Json.MergeLookup | lib/formatting.test.js:337-376 | after a merge of fields with distinct keys, a key of the entry holds the entry's value and any other key its old value |
| Json.MergeFresh | lib/formatting.test.js:337-376 | merging fields whose keys are new appends them in order |
| Json.SetLast | lib/formatting.test.js:315-329 | setting the last key again replaces its value in place |
| Base64.DigitsAreAlphabet | lib/formatting.test.js:177-189 | the digit function enumerates exactly the 64 characters of the RFC 4648 alphabet, in its order |
| Base64.Encode | lib/formatting.test.js:177-189 | the text has four characters for every started group of three bytes, and every character is a digit of the alphabet or `=` |
| Base64.EncodePadding | lib/formatting.test.js:177-189 | only the end of the text is padded: no `=` when the byte count is a multiple of three, otherwise `==` or `=` for one or two bytes left over, and every character before the padding is a digit |
| Base64.DecodeEncode | lib/formatting.test.js:177-189 | Base64.Decode of an encoding gives back exactly the bytes that were encoded |
| Base64.EncodeDecode | lib/formatting.test.js:177-189 | every text Base64.Decode accepts is the encoding of what it decodes to, so a text with non-zero pad bits is rejected |
| Base64.DecodeUnique | lib/formatting.test.js:177-189 | a byte string has exactly one base64 text that decodes to it |
| Base64.EncodeInjective | lib/formatting.test.js:177-189 | different byte strings never get the same base64 text |
| Utf8.CharBytes | lib/formatting.test.js:177-189 | each character takes one to four bytes, with a lead byte announcing the length and continuation bytes `10xxxxxx` |
| Utf8.CodePointOfCharBytes | lib/formatting.test.js:177-189 | the bytes of a character decode back to its code point |
| Utf8.EncodeAscii | lib/formatting.test.js:177-189 | an ASCII login is encoded byte for byte, as in the `foo@google` fixture |
| Utf8.EncodeInjective | lib/formatting.test.js:177-189 | different logins never give the same bytes, so they never share a user id |
| Paths.Break | lib/formatting.test.js:119-194 | a path splits at its first slash into a segment and the rest |
| Paths.DecodeEncode | lib/formatting.test.js:119-194 | Paths.Decode inverts Paths.Encode on every component, layout, page, user and arbitrary location whose names are single segments |
| Paths.DecodeInstancePath | lib/formatting.test.js:119-162 | `/<section>/<name>/instances/<instance>[/meta]` decodes to that instance and its meta flag |
| Paths.DecodePagePath | lib/formatting.test.js:163-176 | `/_pages/<name>[/meta]` decodes to that page |
| References.RefOf | lib/formatting.test.js:119-139 | a node is a reference exactly when it is an object with a string `_ref` |
| References.TargetFields | lib/formatting.test.js:119-139 | only a default or instance variant of an item (References.Variant) can lend fields, and a default variant lends none of its `instances` |
| References.ResolveFields | lib/formatting.test.js:119-139 | resolving references inside an item keeps its keys in order |
| References.ReduceResolve | lib/formatting.test.js:241-252 | References.Reduce undoes References.Resolve: stripping the inlined fields from a resolved value gives the original bootstrap value back |
| References.ReduceResolveFields | lib/formatting.test.js:241-252 | the same for all fields of an item variant |
| References.ReduceCanonical | lib/formatting.test.js:337-376 | a reduced value holds only bare references |
| References.CanonicalFixed | lib/formatting.test.js:337-376 | a value already in bootstrap form is unchanged by reduction and References.Moves takes nothing from it |
| References.ReduceIdempotent | lib/formatting.test.js:337-376 | reducing twice is reducing once |
| References.RefsResolve | lib/formatting.test.js:119-139 | resolution neither adds nor loses a reference |
| References.RefFree | lib/formatting.test.js:136-138 | a value without references is left alone by resolution and reduction |
| References.InlineNode | lib/formatting.test.js:119-139 | a bare reference resolves to `_ref` followed by the target's own fields |
| References.MovesResolve | lib/formatting.test.js:337-376 | every move References.Moves makes from a resolved value names one of its references and carries exactly the non-empty fields that were inlined from that target |
| References.TargetUnique | lib/formatting.test.js:119-139 | the fields lent by a target have unique keys |
| Dispatch.SplitMeta | lib/formatting.test.js:140-176 | the main entry at the variant's path carries everything but `meta`, and a `meta` field becomes a second entry right after it at `<path>/meta` |
| Dispatch.SplitMetaMain | lib/formatting.test.js:140-176 | of the one or two entries of a variant, exactly one is a main entry, and it writes that variant |
| Dispatch.VariantEntriesMain | lib/formatting.test.js:119-162 | a variant, its references resolved, writes exactly one main entry, at its own path |
| Dispatch.VariantEntriesOwners | lib/formatting.test.js:119-162 | every entry of a variant writes that variant or its `meta` |
| Dispatch.EmittedInstances | lib/formatting.test.js:119-139 | every emitted instance is an instance of the item, is one of its `instances` keys, and is not consumed by a reference |
| Dispatch.Emitted | lib/formatting.test.js:140-162 | an item emits its default variant first exactly when it has fields besides `instances` and no reference consumes it; an item with only `instances` emits only instances; nothing emitted is consumed |
| Dispatch.EmittedItems | lib/formatting.test.js:204-215 | every variant a section emits is an unconsumed main variant of that section |
| Dispatch.InstanceEntriesOrder | lib/formatting.test.js:119-139 | the instance entries of an item write its emitted instances, in map order, and nothing else |
| Dispatch.ItemEntriesOrder | lib/formatting.test.js:140-162 | the entries of an item write its emitted variants, default first, then instances in map order, and nothing else |
| Dispatch.ItemsEntriesOrder | lib/formatting.test.js:204-215 | the entries of a components or layouts section write the emitted variants of its items, in map order, and nothing else |
| Dispatch.ItemsEntriesUnconsumed | lib/formatting.test.js:119-139 | no entry of a section writes a variant that a reference consumes, nor its `meta` |
| Dispatch.NormalizeUrl | lib/formatting.test.js:163-176 | a page loses `url`, keeps an existing `customUrl` or takes `url` as `customUrl`, and keeps every other field |
| Dispatch.UserIdDecodes | lib/formatting.test.js:177-189 | a user's id decodes from base64 to the UTF-8 bytes of `username@provider` |
| Dispatch.UserIdUnique | lib/formatting.test.js:177-189 | no other base64 text decodes to those bytes, so the id is fixed |
| Dispatch.UserIdOfRecord | lib/formatting.test.js:91-101 | a record with a username, a provider and an auth level is valid, and its id is the text that decodes to `username@provider` |
| Dispatch.UserIdFoo | lib/formatting.test.js:177-182 | the user `foo` at `google` gets the id `Zm9vQGdvb2dsZQ==` |
| Dispatch.UserIdNobody | lib/formatting.test.js:183-189 | the user `nobody` at `google` gets the id `bm9ib2R5QGdvb2dsZQ==` |
| Dispatch.UsersEntries | lib/formatting.test.js:228-233 | a failed users conversion fails with the fixed message |
| Dispatch.UsersEntriesFails | lib/formatting.test.js:222-233 | users convert exactly when every record has a username, a provider and an auth level |
| Dispatch.UsersEntriesAt | lib/formatting.test.js:222-227 | converted users give one entry per record, at `/_users/<id>` and holding the record, in array order |
| Dispatch.SubEntries | lib/formatting.test.js:190-194 | every key of an arbitrary section becomes one entry at `/<top>/<key>` with one leading slash of the key dropped, in order |
| Dispatch.ToDispatchFails | lib/formatting.test.js:228-233 | converting several documents fails exactly when one of them holds an invalid user |
| Dispatch.ToDispatchOne | lib/formatting.test.js:197-239 | one document converts as Dispatch.DispatchDoc converts it |
| Dispatch.ToDispatchAppend | lib/formatting.test.js:197-239 | several documents convert to the concatenation of their entries, in document order |
| Dispatch.EmptyDocument | lib/formatting.test.js:198-202 | a document whose every section is an empty object or array converts to no entries |
| Dispatch.EmptyRootProperties | lib/formatting.test.js:198-202 | the fixture with empty `_components`, `_layouts`, `_pages`, `_uris` and `_users` converts to no entries |
| Bootstrap.ApplyEdit | lib/formatting.test.js:283-313 | a field entry merges its fields into the slot, each taking the entry's value; a meta entry merges under `meta` (or replaces a non-object `meta`) and touches no other field |
| Bootstrap.EditDefault | lib/formatting.test.js:241-252 | writing an item's default variant keeps its `instances` and acts on every other field as the edit acts on the default variant |
| Bootstrap.EditInstance | lib/formatting.test.js:337-376 | writing an instance edits only that instance, under `instances` |
| Bootstrap.PutItem | lib/formatting.test.js:241-252 | writing a component or layout variant applies the edit to that variant's slot and touches no other item and no other top-level key |
| Bootstrap.PutItemOtherVariant | lib/formatting.test.js:337-376 | writing one item variant leaves every other item variant as it was |
| Bootstrap.PutPage | lib/formatting.test.js:254-313 | writing a page applies the edit to that page's slot, with `url` turned into `customUrl` unless one exists, and touches no other page and no other top-level key |
| Bootstrap.AppendUser | lib/formatting.test.js:315-329 | a user entry appends its record to `_users` and touches nothing else |
| Bootstrap.PutOther | lib/formatting.test.js:331-335 | an arbitrary entry stores its value under its sub-key of its top-level key, and touches no other top-level key |
| Bootstrap.SubKey | lib/formatting.test.js:190-194 | an empty sub-path is stored under `/`, and any other sub-path under itself |
| Bootstrap.PutMove | lib/formatting.test.js:337-376 | a move to an item variant lands its fields in that variant's slot; a move to anything else changes nothing; nothing outside `_components` and `_layouts` changes |
| Bootstrap.PutMoves | lib/formatting.test.js:337-376 | handing back a run of moves changes nothing outside `_components` and `_layouts` |
| Bootstrap.PutMoveOther | lib/formatting.test.js:337-376 | a move to another variant leaves a variant as it was |
| Bootstrap.PutMovesOther | lib/formatting.test.js:337-376 | a run of moves none of which targets a variant leaves that variant as it was |
| Bootstrap.PutMovesAppend | lib/formatting.test.js:337-376 | handing back two runs of moves is handing back their concatenation |
| Bootstrap.PutMovesLand | lib/formatting.test.js:337-376 | after a run of moves, a field of a move holds that move's value in its target unless a later move targets the same variant |
| Bootstrap.ApplyItemLand | lib/formatting.test.js:337-376 | after an item entry, each of its fields (references reduced to `_ref`) holds its value in the entry's variant, unless one of the entry's own references points back at that variant |
| Bootstrap.AssembleAppend | lib/formatting.test.js:337-376 | folding two runs of entries one after the other is folding their concatenation |
| Bootstrap.HandBack | lib/formatting.test.js:337-376 | the loop that hands back moves computes Bootstrap.PutMoves |
| Bootstrap.ToBootstrap | lib/formatting.test.js:241-376 | the document the loop fills is the fold of every entry, in order, over the empty document |
| RoundTrip.AssembleUsers | lib/formatting.test.js:315-329 | user entries append their records to `_users` in arrival order and change no other key |
| RoundTrip.UsersEntriesShape | lib/formatting.test.js:315-329 | valid users always dispatch, into one user entry per record carrying that record, in order |
| RoundTrip.AssembleUsersFresh | lib/formatting.test.js:315-329 | a run of user entries on a document without `_users` adds `_users` holding their records, in order, after every existing key |
| RoundTrip.SubEntriesAfter | lib/formatting.test.js:331-335 | entries of an arbitrary section with fresh sub-keys are appended to that section in arrival order |
| RoundTrip.UsersRoundTrip | lib/formatting.test.js:315-329 | dispatching a non-empty valid users array and assembling the entries gives the array back, unchanged and in order |
| RoundTrip.RestorableSubKey | lib/formatting.test.js:111-118 | a sub-key that is `/` or does not start with a slash survives the trip through a path |
| RoundTrip.SubEntriesRoundTrip | lib/formatting.test.js:331-335 | one non-empty arbitrary section with such sub-keys survives dispatch and assembly unchanged |
| RoundTrip.ArbitraryRoundTrip | lib/formatting.test.js:331-335 | any run of such arbitrary sections survives dispatch and assembly unchanged, keys and order included |
| RoundTrip.PageEntriesPlain | lib/formatting.test.js:163-176 | a page without `meta` and `url` dispatches to one entry at its path holding the page |
| RoundTrip.PageEntriesMeta | lib/formatting.test.js:163-176 | a page whose last field is `meta` dispatches to the page without it, then `meta` at `<path>/meta` |
| RoundTrip.PutPageMain | lib/formatting.test.js:283-313 | a new page's own entry appends the page to `_pages` |
| RoundTrip.PutPageMetaLast | lib/formatting.test.js:283-313 | the page's `/meta` entry, right after it, appends `meta` as the page's last field |
| RoundTrip.PageStep | lib/formatting.test.js:283-313 | the entries of one surviving page append it, unchanged, to `_pages` |
| RoundTrip.PagesAfter | lib/formatting.test.js:283-313 | the entries of a run of pages with fresh keys append them to `_pages`, in order |
| RoundTrip.PutPageOpen | lib/formatting.test.js:283-313 | a page entry on a document without `_pages` acts as on an empty `_pages` added last |
| RoundTrip.PagesRoundTrip | lib/formatting.test.js:283-313 | a non-empty pages section whose pages survive the trip is rebuilt unchanged, keys and order included, after the keys already there |
| RoundTrip.VariantEntriesPlain | lib/formatting.test.js:204-215 | a variant without references and without `meta` dispatches to one entry at its path holding the variant |
| RoundTrip.VariantEntriesMeta | lib/formatting.test.js:204-215 | a variant without references whose last field is `meta` dispatches to the variant without it, then `meta` at `<path>/meta` |
| RoundTrip.ItemEntriesSplit | lib/formatting.test.js:204-215 | an item that survives the trip dispatches to its default variant, unless it has none, then its instances |
| RoundTrip.PutItemLast | lib/formatting.test.js:242-253 | an edit of the last item of the last section edits that item in place and changes nothing else |
| RoundTrip.PutItemOpen | lib/formatting.test.js:242-253 | an item edit on a section without that item acts as on an empty item added last |
| RoundTrip.PutItemSectionOpen | lib/formatting.test.js:242-253 | an item edit on a document without the section acts as on an empty section added last |
| RoundTrip.EditInstanceOpen | lib/formatting.test.js:242-253 | an instance edit on an item without `instances` acts as on an empty `instances` added last |
| RoundTrip.DefaultStep | lib/formatting.test.js:242-253 | the entries of a default variant give a new item exactly that variant |
| RoundTrip.InstanceStep | lib/formatting.test.js:242-253 | the entries of an instance append it, unchanged, to the item's `instances` |
| RoundTrip.InstancesAfter | lib/formatting.test.js:242-253 | the entries of a run of instances with fresh names append them to `instances`, in order |
| RoundTrip.ItemStep | lib/formatting.test.js:242-253 | the entries of one surviving item append it, unchanged, to its section |
| RoundTrip.ItemsAfter | lib/formatting.test.js:242-253 | the entries of a run of items with fresh names append them to the section, in order |
| RoundTrip.ItemsRoundTrip | lib/formatting.test.js:204-253 | a non-empty `_components` or `_layouts` section without references, whose items survive the trip and none of whose variants is consumed, is rebuilt unchanged, item and instance order included, after the keys already there |
| RoundTrip.DispatchPlainDoc | lib/formatting.test.js:197-239 | a document of pages, valid users and arbitrary sections dispatches to the pages' entries, then the users', then the arbitrary data's |
| RoundTrip.AssemblePlainDoc | lib/formatting.test.js:241-335 | assembling those entries from nothing rebuilds that document |
| RoundTrip.PlainDocRoundTrip | lib/formatting.test.js:197-335 | converting such a document to dispatch and back gives it back, with every section, key and order |
| Config.Split | lib/utils/config.js:22 | an alias splits at every dot into at least one segment, none of which holds a dot |
| Config.JoinSplit | lib/utils/config.js:22 | joining an alias's segments with dots gives the alias back |
| Config.SplitJoin | lib/utils/config.js:40 | splitting dot-free segments joined with dots gives the segments back |
| Config.SectionOfDotted | lib/utils/config.js:65 | an alias built as `<section>.<name>` names that section |
| Config.GetSetSame | lib/utils/config.js:53 | after a value is stored at a path, the path holds that value |
| Config.GetSetOther | lib/utils/config.js:53 | storing at a path leaves every path that neither contains nor extends it unchanged |
| Config.GetConfig | lib/utils/config.js:19-31 | a missing or empty value under an unknown section fails with `Cannot get <alias>: Unknown section "<type>"`; otherwise a missing or empty value is null and a present value is returned, whatever its section |
| Config.GetConfigKnown | lib/utils/config.js:24-30 | looking up an alias under `keys`, `sites` or `files` never fails |
| Config.Stored | lib/utils/config.js:47-51 | a `files` value that does not start with `/` or `~` goes through the resolver, and every other value is stored as given |
| Config.ConfigFile.Set | lib/utils/config.js:39-55 | an unknown section fails with `Cannot save <alias>: Unknown section "<type>"` and stores nothing; otherwise the stored value is at the alias and every unrelated path is unchanged |
| Config.GetAfterSet | lib/utils/config.js:19-55 | what is set under a known section is what is got back, with an empty string reading as null |
| Config.GetKey | lib/utils/config.js:63-69 | with a name the result is never null or empty; without one it is the environment default, or null when that is unset |
| Config.GetKeyAfterSet | lib/utils/config.js:65 | a key configured for a name is the key returned for it |
| Config.GetKeyUnset | lib/utils/config.js:65 | with no key configured for a name, the name itself is returned |
| Config.Host | lib/utils/config.js:81 | at most one leading `http://` (in any case) or `//` is removed |
| Config.TrimSlash | lib/utils/config.js:85 | exactly one trailing slash is removed when there is one |
| Config.NormalizeSite | lib/utils/config.js:78-88 | an https url only loses a trailing slash; any other url becomes `http://` plus its host, with at most one trailing slash removed |
| Config.NormalizeSitePlain | lib/utils/config.js:80-82 | without `https://` and with a host left after the protocol, the site starts with `http://` |
| Config.NormalizeSiteNoHost | lib/utils/config.js:80-86 | with nothing after the protocol, the result is `http:/` |
| Config.NormalizeSiteBare | lib/utils/config.js:80-82 | a url without a protocol gets `http://` in front, and at most loses a trailing slash |
| Config.NormalizeSiteIdempotent | lib/utils/config.js:78-88 | normalising a site that does not end in a slash a second time changes nothing |
| Config.HttpPrefixContains | lib/utils/config.js:80-81 | putting `http://` in front neither creates nor hides an `https://` |
| Config.HostOfHttp | lib/utils/config.js:81 | `http://<host>` is recognised as starting with `http://`, and its host is `<host>` |
| Config.GetSite | lib/utils/config.js:96-104 | with a name the result is a site unless the configured value is an object; without one it is the normalised environment default, or null when that is unset |
| Config.GetSiteAfterSet | lib/utils/config.js:98-100 | a site configured for a name is returned normalised |
| Config.GetSiteUnset | lib/utils/config.js:100 | with no site configured for a name, the name itself is returned normalised |

## Left out

- Streams: highland's laziness and back-pressure are not modelled. Entries and documents are sequences.
- A failing `toDispatch` is modelled as a failure of the whole conversion. The entries a stream would already have emitted before the failing document are not modelled.
- `lib/formatting.js` is not part of this model. Its behaviour is taken from `lib/formatting.test.js`.
- Ids are built from the UTF-8 bytes of `username@provider`. The fixtures use only ASCII, where every byte-oriented choice agrees.
- Users whose `username` or `provider` is not a string, and a `_users` value that is not an array, are modelled as invalid and as no users respectively.
- Numbers are integers. Floating point values do not occur in the fixtures.
- Json.Set: JavaScript lists integer-like keys (`"0"`, `"10"`) before all other keys, in ascending numeric order. The model keeps every key in insertion order, because no fixture has such a key.
- RoundTrip.PlainDocRoundTrip: documents with components or layouts are not covered as a whole. Reference-free `_components` and `_layouts` sections are covered one section at a time by RoundTrip.ItemsRoundTrip. A document with references is not covered: a reference inlines its target when dispatching, and a variant that a reference consumes is not emitted, so which entries come out depends on the whole document. For such documents the model proves the emitted variants and their order (Dispatch.ItemsEntriesOrder, Dispatch.ItemsEntriesUnconsumed), where an item entry's fields land (Bootstrap.ApplyItemLand), where the handed-back fields land (Bootstrap.PutMovesLand), and that reduction undoes resolution (References.ReduceResolve).
- RoundTrip.ItemsRoundTrip: items whose `instances` is not their last field or is not a non-empty object, variants with repeated keys or with `meta` before another field, items with neither fields nor instances (they emit nothing), and item or instance names that are not single path segments come back changed, and are excluded.
- Dispatch.ArbitraryEntries: an arbitrary section whose value is an array or a scalar emits no entries, so it does not survive the trip (RoundTrip.ArbitraryRoundTrip requires object sections).
- RoundTrip.PagesRoundTrip: pages with a legacy `url`, with `meta` before another field, or with a key that is not a single path segment come back changed, and are excluded.
- Reading and writing `.clayconfig` (home-config's `load` and `save`) are file I/O. The loaded file is the map `ConfigFile.root`, and saving is not modelled.
- `process.env` is passed in as parameters.
- `path.resolve` is a function parameter. `getFile` and `normalizeFilepath` (`expandHomeDir`, `path.normalize`) are foreign path calls and are not modelled.
- Config.GetConfig: lodash's path syntax is reduced to dots. Bracket segments (`a[0]`), quoted keys, and a top-level key that itself contains a dot are not modelled.
- Config.GetConfig: string properties such as `length` read through a string value are not modelled; such reads come out as absent.
- Config.ConfigFile.Set: a numeric segment creates an object, not an array. Reading back is the same either way.
- Config values other than strings and objects (numbers and booleans that an INI parser may produce) are not modelled.
- Config.GetSite: the error raised for a configured site that is an object is modelled as the fixed message `url.replace is not a function`. That text comes from the JavaScript runtime's TypeError.
- `lib/cmd/config.js` only logs what `getConfig` and `setConfig` return, and `cli/pack/options.js` is static option data. Neither is modelled.
