# Import maps: parsing and resolution

A Dafny model of the import-map engine of `takker99/importmap`. The engine implements the
import-map algorithms of the WHATWG HTML Standard and the WICG Import Maps draft:

- **Parsing** (`resolveImportMap`). Every specifier map is sorted and normalised against a
  base URL: keys become canonical, bad addresses become `null`, empty keys are dropped, and
  longer keys come first. Every scope prefix is parsed against the base URL as well.
- **Resolution** (`resolveModuleSpecifier`). A module specifier is resolved against a parsed
  map. The scopes that apply to the base URL are tried first, then the top-level imports,
  then the specifier's own URL. A bare specifier that nothing remaps throws.

The project has four files:

- `wrappers.dfy`: `Option` (JavaScript `null`/`undefined`), `Result` (a return value or a
  thrown `TypeError`), and `Outcome` (a call that returns nothing or throws).
- `utils.dfy`: the record helpers of `utils.ts`.
  - A JavaScript object is modelled as the sequence of its entries in iteration order.
  - `sortObject` is a stable sort, longest key first.
  - `mapObject` is a filter-map followed by `Object.fromEntries`: a later entry with the
    same key replaces the value but keeps the first position.
  - Also here: `panic`, `err`, `isNotNull` and `isEndsSlash`.
- `url.dfy`: the URL Standard's parser, as a parameter.
  - `parse(input, base)` is `new URL(input, base)`; `None` means it throws.
  - A URL is its serialisation `href` and its `protocol`.
  - `CanParse` is `URL.canParse`.
  - The one property of the parser that the proofs use is `SerializationsParse`: the `href`
    of a parsed URL parses again without a base. This is an assumption about the URL
    library, and only lemmas require it.
- `resolve.dfy`: `resolve.ts`.
  - The normalisers are functions.
  - `resolveImportsMatch` and `resolveModuleSpecifier` are methods with the source's loops.
    Each method is proved equal to a specification function: `ImportsMatch`, which recurses
    over the entries, and `Resolution`, which combines `ScopesMatch` (recursing over the
    scopes), `ImportsMatch` and the fallback. The lemmas state the resolution rules about
    those functions.

## Model

| member | source | states |
|---|---|---|
| Utils.InsertByKeyLengthSorted | utils.ts:5 | One step of the stable sort under `(a, b) => b.length - a.length`: inserting into a record sorted longest key first keeps it sorted. |
| Utils.InsertByKeyLength | utils.ts:5 | One step of the stable sort under `(a, b) => b.length - a.length`. The entry goes before the first entry whose key is no longer than its own, so it lands after every longer key and before the keys of its own length. `InsertByKeyLengthSorted`, `InsertByKeyLengthPermutes` and `InsertByKeyLengthStable` state its properties. |
| Utils.SortObject | utils.ts:1-8 | `sortObject` returns its entries sorted by non-increasing key length, and as a permutation of the input (same multiset of entries). |
| Utils.InsertByKeyLengthPermutes | utils.ts:5 | One insertion adds exactly the inserted entry to the multiset of entries. |
| Utils.InsertByKeyLengthStable | utils.ts:5 | One insertion keeps the relative order of the entries whose keys share a length. |
| Utils.SortObjectStable | utils.ts:5 | Stability: for every key length, the entries whose keys have that length appear in the same order before and after `sortObject`, as `Array.prototype.sort` is stable. |
| Utils.SortObjectEntries | utils.ts:4-7 | Every key keeps its own value, and the set of keys is unchanged. |
| Utils.SortObjectUniqueKeys | utils.ts:4-7 | An object with distinct keys still has distinct keys after sorting. |
| Utils.SortObjectOfSorted | utils.ts:1-8 | A record that is already sorted longest key first is returned unchanged. This is why the second `sortObject` in `sortAndNormalizeScopes` is harmless. |
| Utils.SortObjectIdempotent | utils.ts:1-8 | Sorting twice gives the same result as sorting once. |
| Utils.PutAt | utils.ts:14 | One `Object.fromEntries` step on a key already present overwrites the value at the key's first position. |
| Utils.PutNew | utils.ts:14 | One `Object.fromEntries` step on a new key appends the entry. |
| Utils.PutFacts | utils.ts:14 | One `Object.fromEntries` step keeps keys distinct and adds the key. The new pair is present, the other keys keep their values, and positions are preserved. |
| Utils.Put | utils.ts:14 | One step of `Object.fromEntries`. A key already present keeps its position and takes the new value; a new key goes last. `PutAt`, `PutNew` and `PutFacts` state it. |
| Utils.FromEntries | utils.ts:14 | `Object.fromEntries` yields distinct keys, exactly the keys of its input. |
| Utils.FromEntriesLastWins | utils.ts:14 | `(k, v)` is in the result exactly when it is an input entry that no later entry with key `k` follows: the later value wins. |
| Utils.FromEntriesFirstPositions | utils.ts:14 | Keys appear in the order of their first occurrence in the input. |
| Utils.FromEntriesOfUnique | utils.ts:14 | Entries with distinct keys pass through unchanged. |
| Utils.Collect | utils.ts:15-18 | The `flatMap` over `Object.entries`, in entry order. An entry for which `fn` returns a pair contributes that one pair; an entry for which it returns `undefined` contributes nothing. `CollectAppend` states that it distributes over concatenation. |
| Utils.MapObject | utils.ts:10-19 | `mapObject` yields an object with distinct keys. |
| Utils.CollectAppend | utils.ts:15-18 | The `flatMap` step distributes over concatenation, so the pairs are kept in input order. |
| Utils.MapObjectDropsEntry | utils.ts:16-17 | An entry for which `fn` returns `undefined` contributes nothing to the result. |
| Utils.MapObjectOfDistinct | utils.ts:10-19 | When the pairs `fn` returns have distinct keys, the result is exactly those pairs, in input order. |
| Utils.MapObjectSnoc | utils.ts:10-19 | Appending an entry either leaves the result unchanged (when `fn` returns `undefined`) or puts `fn`'s pair into it. |
| Utils.MapObjectMember | utils.ts:10-19 | `(k, v)` is in the result exactly when some entry maps to it and no later entry maps to key `k`. Both directions are proved. |
| Utils.MapObjectKeys | utils.ts:10-19 | The keys of the result are exactly the keys `fn` produces. |
| Utils.Err | utils.ts:30-32 | `err` always throws, with the given error. |
| Utils.Panic | utils.ts:34-37 | `panic(x, pred, e)` returns normally exactly when `pred(x)` holds; otherwise it throws `e`. |
| Utils.EndsSlashIff | utils.ts:39-40 | `isEndsSlash(s)` holds exactly when `s` is some string followed by `/`. That means `s` is non-empty and its last character is `/`. |
| Utils.IsNotNull | utils.ts:38 | `isNotNull`: true exactly for a present value; `null` and `undefined` are both `None`. |
| Utils.IsEndsSlash | utils.ts:39-40 | `isEndsSlash`: the string is non-empty and its last character is `/`; `EndsSlashIff` restates it as "some string followed by `/`". |
| Resolve.StartsWith | resolve.ts:108-109 | `startsWith(str, searches)`: some element of `searches` is a prefix of `str`. `StartsWithRelativeMarker` spells it out for the relative markers. |
| Resolve.IsSpecial | resolve.ts:111-120 | `isSpecial`: the URL's protocol is one of `ftp:`, `file:`, `http:`, `https:`, `ws:`, `wss:`. |
| Resolve.PrefixApplies | resolve.ts:138-142 | The prefix-match test: the key ends in `/`, the specifier starts with it, and the specifier is bare or its URL has a special scheme. |
| Resolve.Applies | resolve.ts:133-142 | The entry stops the loop: its key equals the specifier, or it passes the prefix-match test. |
| Resolve.ScopeApplies | resolve.ts:228-231 | The scope test: the prefix equals the base URL's `href`, or it ends in `/` and the `href` starts with it. |
| Resolve.StartsWithRelativeMarker | resolve.ts:108-109 | `startsWith(s, ["/", "./", "../"])` holds exactly when `s` begins with `/`, `./` or `../`. |
| Resolve.ResolveUrlLikeModuleSpecifier | resolve.ts:94-106 | A specifier starting with `/`, `./` or `../` is parsed against the base URL. Any other specifier is parsed with no base. A parse failure is `null`, not an exception. |
| Resolve.UrlLikeIgnoresBaseUnlessRelative | resolve.ts:94-106 | If two base URLs give different results, the specifier starts with `/`, `./` or `../`. |
| Resolve.NormalizeSpecifierKey | resolve.ts:79-92 | The result is `null` exactly for the empty key. A URL-like key becomes its URL's `href`; any other key is kept verbatim. |
| Resolve.NormalizeSpecifierEntry | resolve.ts:19-45 | The callback yields no entry exactly for an empty key, and its key is the normalised key. The address is non-null exactly when it is a string that resolves and meets the trailing-slash rule; it is then the resolved `href`, ending in `/` when the key does. |
| Resolve.SortAndNormalizeSpecifierMap | resolve.ts:13-46 | The normalised map is sorted longest key first, with distinct keys. |
| Resolve.SpecifierMapMember | resolve.ts:13-46 | `(k, a)` is in the normalised map exactly when some entry normalises to `(k, a)` and no later entry's key normalises to `k`. |
| Resolve.EmptyKeyDropped | resolve.ts:24 | An entry with an empty key is dropped: the map normalises as if it were absent. |
| Resolve.BlockedEntryKept | resolve.ts:26-43 | A non-empty key whose address is `null`, does not resolve, or breaks the trailing-slash rule stays in the map, mapped to `null` (unless a later entry overrides it). |
| Resolve.NormalizedAddressOrigin | resolve.ts:31-44 | Every non-null address in a normalised map is the `href` of a resolved original address under a key that normalises to the entry's key. It ends in `/` when that key does. |
| Resolve.NormalizedAddressesParse | resolve.ts:31-44 | With a parser whose `href`s parse again, every non-null normalised address passes `URL.canParse`. |
| Resolve.NormalizeScopeEntry | resolve.ts:60-74 | A scope is dropped exactly when its prefix fails to parse against the base URL. Otherwise its key is the prefix's `href` and its value is the normalised specifier map; the second sort changes nothing. |
| Resolve.SortAndNormalizeScopes | resolve.ts:55-76 | The normalised scopes are sorted longest prefix first, with distinct prefixes. |
| Resolve.ScopesMember | resolve.ts:55-76 | `(p, m)` is in the normalised scopes exactly when some scope's prefix parses to a URL with `href` `p`, `m` is that scope's normalised map, and no later prefix serialises to `p`. |
| Resolve.UnparseableScopeDropped | resolve.ts:61-66 | A scope whose prefix does not parse leaves no trace. |
| Resolve.KeyGainingSlashKeepsAddress | resolve.ts:36-44 | A concrete parser under which the key `https://x` normalises to `https://x/` and keeps the address `https://example.com/a`, because the slash rule tests the original key. Resolving `https://x/foo` under that map throws "must end with /" (resolve.ts:149-153). |
| Resolve.SecondPassBlocksKey | resolve.ts:36-44 | Under the same parser, normalising that map again turns the address into `null`, so normalisation is not idempotent. |
| Resolve.ResolveImportMap | resolve.ts:184-204 | A present `imports` becomes the sorted and normalised specifier map, and present `scopes` become the sorted and normalised scopes. A missing member becomes `{}`. Both members of the result are sorted with distinct keys, including every scope's map. |
| Resolve.ExactMatchResult | resolve.ts:133-137 | An exact match returns the address exactly when it is non-null and passes `URL.canParse`. A `null` throws "must not be null"; a non-URL throws "must be an URL". |
| Resolve.Slice | resolve.ts:156 | `slice(start)` is the suffix after the first `start` characters, and empty past the end. |
| Resolve.AfterPrefixResult | resolve.ts:155-168 | The remainder is parsed against the address. The block succeeds exactly when the remainder parses to a URL whose `href` starts with the address, and the result is then that `href`. It fails with "not parseable" exactly when the remainder does not parse, and with "backtracking" exactly when the parsed `href` does not start with the address. |
| Resolve.AfterPrefixResultAsWritten | resolve.ts:155-168 | As written, every failure of the `try` block is reported as an unparseable remainder. |
| Resolve.AsWrittenMisreportsBacktracking | resolve.ts:158-167 | The as-written block differs from the intended one exactly when the result backtracks above the prefix, and then it reports the wrong error. |
| Resolve.BacktrackingExample | resolve.ts:155-168 | A concrete input (`pkg/../x` under `pkg/`, mapped to `https://example.com/pkg/`) on which the two versions part. |
| Resolve.PrefixMatchResult | resolve.ts:143-168 | A prefix match throws for a `null` address, for a non-URL address, and for an address not ending in `/`, in that order. Otherwise its result is the `try` block's. |
| Resolve.ImportsMatch | resolve.ts:125-172 | A failing match never reports an unremapped bare specifier. |
| Resolve.PrefixMatchResolves | resolve.ts:138-163 | When the first applicable entry is a prefix key mapped to a URL ending in `/`, and the remainder parses against it to a URL that stays under it, the match is that URL's `href`. |
| Resolve.EntryMatch | resolve.ts:133-168 | What the loop returns at an applicable entry. A success comes from a non-null address that passes `URL.canParse`, and it starts with that address. For a prefix key, that address ends in `/`. A `null` address always throws. |
| Resolve.ImportsMatchAt | resolve.ts:130-170 | The first entry that exact-matches or prefix-matches decides the result. |
| Resolve.ImportsMatchNone | resolve.ts:130-171 | The result is `null` (no match, not an error) exactly when no entry exact-matches or prefix-matches. |
| Resolve.NonSpecialMatchesOnlyExactly | resolve.ts:138-141 | For a URL with a non-special scheme, no prefix key matches; without an exact key the result is `null`. |
| Resolve.SlashlessKeysMatchOnlyExactly | resolve.ts:138-141 | Only a key ending in `/` can prefix-match: in a map with no such key, the specifier matches exactly when it is one of the keys. |
| Resolve.ExactKeyDecides | resolve.ts:133-136 | In a normalised map, an entry for the specifier itself decides, before any prefix. A `null` there throws instead of falling through. |
| Resolve.LongestPrefixDecides | resolve.ts:138-168 | In a normalised map with no exact key, the longest applicable prefix key decides. |
| Resolve.ImportsMatchExtendsAddress | resolve.ts:133-168 | No backtracking: every match starts with the address of an entry that applies. It equals that address for an exact match; the address ends in `/` for a prefix match. |
| Resolve.ImportsMatchParses | resolve.ts:135-163 | With a parser whose `href`s parse again, every match passes `URL.canParse`. |
| Resolve.ResolveImportsMatch | resolve.ts:125-172 | The loop returns what `ImportsMatch` specifies: a value, `null` or the error. |
| Resolve.ScopesMatch | resolve.ts:227-241 | A failing scope match never reports an unremapped bare specifier. |
| Resolve.ScopesMatchAt | resolve.ts:227-241 | The first scope that applies to the base URL and matches the specifier decides. |
| Resolve.ScopesMatchNone | resolve.ts:227-241 | The scopes give no match exactly when no entry of any applicable scope exact-matches or prefix-matches. |
| Resolve.ScopesMatchParses | resolve.ts:227-241 | With a parser whose `href`s parse again, every scope match passes `URL.canParse`. |
| Resolve.NormalizedSpecifier | resolve.ts:224-225 | The specifier as the maps are keyed: its URL's `href` when it is URL-like, and the specifier itself otherwise. |
| Resolve.Resolution | resolve.ts:218-259 | The whole resolution: the applicable scopes, then the top-level imports, then the specifier's own URL. "Not remapped" is thrown only for a specifier that is not URL-like. |
| Resolve.TopLevelResolution | resolve.ts:243-258 | After the scopes: "not remapped" is thrown exactly when the specifier is not URL-like and the top-level imports give no match. A URL-like specifier that the imports do not match resolves to its own `href`. |
| Resolve.ScopeMatchDecides | resolve.ts:227-241 | Scopes before top-level imports: the first matching scope decides the resolution, whatever the top-level imports hold. |
| Resolve.TopLevelMatchDecides | resolve.ts:243-251 | When no entry of an applicable scope applies, a top-level match decides the resolution. |
| Resolve.UnmappedFallsBack | resolve.ts:253-258 | When no entry that takes part applies, a URL-like specifier resolves to its own `href` and a bare one throws "not remapped". |
| Resolve.BareNotRemappedOnlyForBare | resolve.ts:253-258 | "Not remapped" is thrown only for a bare specifier that no entry applies to. |
| Resolve.PoisonedTopLevelKeyBlocks | resolve.ts:133-134 | In a parsed map, a top-level key equal to the specifier and mapped to `null` makes resolution throw, unless an applicable scope matches first. |
| Resolve.ResolutionParses | resolve.ts:218-259 | With a parser whose `href`s parse again, every resolution result passes `URL.canParse`. |
| Resolve.ResolveModuleSpecifier | resolve.ts:218-259 | The scope loop, the top-level lookup and the fallback return what `Resolution` specifies. |

## Left out

- URL parsing and serialisation (`new URL`, `.href`, `.protocol`, `URL.canParse`) belong to the URL Standard's library. The model takes the parser as a parameter. The one fact the proofs assume, that an `href` parses again, is a precondition of the lemmas that need it.
- A URL object passed as a base is passed by its `href`, which is how JavaScript stringifies it.
- The `console.warn` diagnostics are left out (resolve.ts:28, 33, 39, 65, 84). They only log.
- import_map.ts is not part of this model. Its structural type guards come from an external library; the model takes their output shape as the type of its inputs.
- The `integrity` map is left out, because resolution never reads it.
- mod.test.ts is not part of this model. It is a test harness over fixture files.
- JavaScript orders integer-like keys first. Records here are explicit sequences in insertion order, without that quirk.
- Utils.SortObject: key length counts Unicode scalar values. JavaScript's `.length` counts UTF-16 code units, so the order can differ for keys outside the Basic Multilingual Plane.
- Utils.IsNotNull: `null` and `undefined` are both `None`, so the model cannot tell them apart.
- `isURLString` (utils.ts:42-43) is `CanParse` on a string. The code applies it only to strings.
- Resolve.ResolveImportMap: normalisation is not idempotent. `SecondPassBlocksKey` shows a map that a second pass changes, so the model proves no fixed point. It gives the result's contents and shape after one pass.
- Resolve.NormalizedAddressOrigin: the trailing-slash rule tests the original key (resolve.ts:37), not the normalised one. A key that gains its `/` only through normalisation keeps an address without one. Resolving a specifier under that key then throws `ResultWithoutTrailingSlash` (resolve.ts:149-153), as `KeyGainingSlashKeepsAddress` shows. So the parsed map does not guarantee that every key ending in `/` has an address ending in `/`. The model proves the rule only for keys that end in `/` before normalisation.
- Resolve.ImportsMatch: `resolveImportsMatch` (the rest of the model) reports backtracking as its own error. The code as written reports it as an unparseable remainder; see Findings.
- Resolve.ResolveImportsMatch: the loop returns the backtracking error where the code as written reports an unparseable remainder. This is the same finding; all other paths match the source.

## Findings

| source | as written | input that shows it | evidently intended | confidence | as-written member | corrected member |
|---|---|---|---|---|---|---|
| resolve.ts:155-168 | The backtracking `err(...)` is thrown inside the `try`, so the `catch` replaces it with the "afterPrefix portion could not be URL-parsed" error. | Key `pkg/` mapped to `https://example.com/pkg/`, specifier `pkg/../x`. The remainder parses to `https://example.com/x`, which backtracks above the prefix, but the error says it did not parse. | The "blocked due to it backtracking above its prefix" error, as the Import Maps algorithm throws it. | not executed; high | Resolve.AfterPrefixResultAsWritten, Resolve.BacktrackingExample | Resolve.AfterPrefixResult, Resolve.AsWrittenMisreportsBacktracking |
