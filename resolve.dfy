/** resolve.ts: parsing an import map (sorting and normalising its specifier maps and scopes
    against a base URL) and resolving a module specifier with the result. */
module Resolve {
  import opened Wrappers
  import opened Utils
  import opened WhatwgUrl

  /** import_map.ts: a specifier map sends keys to addresses; a `null` address blocks the key. */
  type ModuleSpecifierMap = Record<Option<string>>

  /** import_map.ts: scope prefixes, each with its own specifier map. */
  type Scopes = Record<ModuleSpecifierMap>

  /** import_map.ts: an import map; both members are optional. */
  datatype ImportMap = ImportMap(imports: Option<ModuleSpecifierMap>, scopes: Option<Scopes>)

  // ---------------------------------------------------------------------------
  // Shared primitives
  // ---------------------------------------------------------------------------

  /** `startsWith(str, searches)`: `str` begins with at least one of `searches`. */
  predicate StartsWith(str: string, searches: seq<string>)
  {
    exists i | 0 <= i < |searches| :: searches[i] <= str
  }

  const RelativeMarkers: seq<string> := ["/", "./", "../"]

  lemma StartsWithRelativeMarker(s: string)
    ensures StartsWith(s, RelativeMarkers)
        <==> (|s| >= 1 && s[0] == '/') || (|s| >= 2 && s[..2] == "./") || (|s| >= 3 && s[..3] == "../")
  {
    assert RelativeMarkers[0] == "/" && RelativeMarkers[1] == "./" && RelativeMarkers[2] == "../";
    if |s| >= 2 && s[..2] == "./" {
      assert "./" <= s;
    }
    if |s| >= 3 && s[..3] == "../" {
      assert "../" <= s;
    }
  }

  /** Resolving a URL-like module specifier: only a specifier that starts with `/`, `./` or
      `../` is parsed against the base URL; anything else must be an absolute URL. A parse
      failure is `None`, never an exception. */
  function ResolveUrlLikeModuleSpecifier(parse: UrlParser, specifier: string, baseURL: Url): (r: Option<Url>)
    ensures StartsWith(specifier, RelativeMarkers) ==> r == parse(specifier, Some(baseURL.href))
    ensures !StartsWith(specifier, RelativeMarkers) ==> r == parse(specifier, None)
  {
    parse(specifier, if StartsWith(specifier, RelativeMarkers) then Some(baseURL.href) else None)
  }

  /** A specifier that is not relative resolves the same whatever the base URL. */
  lemma UrlLikeIgnoresBaseUnlessRelative(parse: UrlParser, specifier: string, base1: Url, base2: Url)
    requires ResolveUrlLikeModuleSpecifier(parse, specifier, base1) != ResolveUrlLikeModuleSpecifier(parse, specifier, base2)
    ensures (|specifier| >= 1 && specifier[0] == '/') || (|specifier| >= 2 && specifier[..2] == "./")
         || (|specifier| >= 3 && specifier[..3] == "../")
  {
    StartsWithRelativeMarker(specifier);
  }

  // ---------------------------------------------------------------------------
  // Normalising a specifier map
  // ---------------------------------------------------------------------------

  /** Normalising a specifier key: the empty key is rejected; a URL-like key becomes the
      serialisation of its URL; any other key is kept as a bare specifier. */
  function NormalizeSpecifierKey(parse: UrlParser, specifierKey: string, baseURL: Url): (r: Option<string>)
    ensures r.None? <==> specifierKey == ""
    ensures r.Some? && ResolveUrlLikeModuleSpecifier(parse, specifierKey, baseURL).Some?
        ==> r.value == ResolveUrlLikeModuleSpecifier(parse, specifierKey, baseURL).value.href
    ensures r.Some? && ResolveUrlLikeModuleSpecifier(parse, specifierKey, baseURL).None?
        ==> r.value == specifierKey
  {
    if |specifierKey| == 0 then None
    else
      match ResolveUrlLikeModuleSpecifier(parse, specifierKey, baseURL)
      case Some(url) => Some(url.href)
      case None => Some(specifierKey)
  }

  /** When a specifier map entry keeps a real address: the address is a string, it resolves
      as a URL-like specifier, and a key ending in `/` gets an address ending in `/`. */
  ghost predicate AddressAccepted(parse: UrlParser, baseURL: Url, value: Option<string>, specifierKey: string)
  {
    && value.Some?
    && ResolveUrlLikeModuleSpecifier(parse, value.value, baseURL).Some?
    && (IsEndsSlash(specifierKey) ==> IsEndsSlash(ResolveUrlLikeModuleSpecifier(parse, value.value, baseURL).value.href))
  }

  /** The callback `sortAndNormalizeSpecifierMap` hands to `mapObject`: the normalised entry,
      with `null` for an address that is not a string, does not parse, or breaks the
      trailing-slash rule; no entry at all for an empty key. */
  function NormalizeSpecifierEntry(parse: UrlParser, baseURL: Url, value: Option<string>, specifierKey: string)
    : (r: Option<(string, Option<string>)>)
    ensures r.None? <==> specifierKey == ""
    ensures r.Some? ==> Some(r.value.0) == NormalizeSpecifierKey(parse, specifierKey, baseURL)
    ensures r.Some? ==> (r.value.1.Some? <==> AddressAccepted(parse, baseURL, value, specifierKey))
    ensures r.Some? && r.value.1.Some?
        ==> r.value.1.value == ResolveUrlLikeModuleSpecifier(parse, value.value, baseURL).value.href
    ensures r.Some? && r.value.1.Some? && IsEndsSlash(specifierKey) ==> IsEndsSlash(r.value.1.value)
  {
    var normalizedSpecifierKey :- NormalizeSpecifierKey(parse, specifierKey, baseURL);
    var nullPair := (normalizedSpecifierKey, None);
    if !IsNotNull(value) then Some(nullPair)
    else
      match ResolveUrlLikeModuleSpecifier(parse, value.value, baseURL)
      case None => Some(nullPair)
      case Some(addressURL) =>
        if IsEndsSlash(specifierKey) && !IsEndsSlash(addressURL.href) then Some(nullPair)
        else Some((normalizedSpecifierKey, Some(addressURL.href)))
  }

  function EntryNormalizer(parse: UrlParser, baseURL: Url): (Option<string>, string) -> Option<(string, Option<string>)>
  {
    (value, specifierKey) => NormalizeSpecifierEntry(parse, baseURL, value, specifierKey)
  }

  /** Sorting and normalising a module specifier map: every entry normalised, the rejected
      ones dropped, longer keys first. */
  function SortAndNormalizeSpecifierMap(parse: UrlParser, originalMap: ModuleSpecifierMap, baseURL: Url)
    : (r: ModuleSpecifierMap)
    ensures SortedByKeyLength(r) && UniqueKeys(r)
  {
    var m := MapObject(originalMap, EntryNormalizer(parse, baseURL));
    SortObjectUniqueKeys(m);
    SortObject(m)
  }

  lemma ProducesNormalizedKey(parse: UrlParser, baseURL: Url, e: (string, Option<string>), k: string)
    ensures Produces(EntryNormalizer(parse, baseURL), e, k) <==> NormalizeSpecifierKey(parse, e.0, baseURL) == Some(k)
  {
  }

  /** The normalised map in full: `(k, a)` is in it exactly when some entry normalises to
      `(k, a)` and no later entry has a key that normalises to `k` as well. */
  lemma SpecifierMapMember(parse: UrlParser, originalMap: ModuleSpecifierMap, baseURL: Url, k: string, a: Option<string>)
    ensures (k, a) in SortAndNormalizeSpecifierMap(parse, originalMap, baseURL)
        <==> exists i :: 0 <= i < |originalMap| &&
               NormalizeSpecifierEntry(parse, baseURL, originalMap[i].1, originalMap[i].0) == Some((k, a)) &&
               forall j :: i < j < |originalMap| ==> NormalizeSpecifierKey(parse, originalMap[j].0, baseURL) != Some(k)
  {
    var fn := EntryNormalizer(parse, baseURL);
    SortObjectEntries(MapObject(originalMap, fn));
    MapObjectMember(originalMap, fn, k, a);
    forall j | 0 <= j < |originalMap|
      ensures Produces(fn, originalMap[j], k) <==> NormalizeSpecifierKey(parse, originalMap[j].0, baseURL) == Some(k)
    {
      ProducesNormalizedKey(parse, baseURL, originalMap[j], k);
    }
  }

  /** An empty specifier key is dropped: the map normalises as if the entry were not there. */
  lemma EmptyKeyDropped(parse: UrlParser, before: ModuleSpecifierMap, after: ModuleSpecifierMap, value: Option<string>, baseURL: Url)
    ensures SortAndNormalizeSpecifierMap(parse, before + [("", value)] + after, baseURL)
         == SortAndNormalizeSpecifierMap(parse, before + after, baseURL)
  {
    var fn := EntryNormalizer(parse, baseURL);
    assert fn(value, "") == None;
    MapObjectDropsEntry(before, ("", value), after, fn);
    assert MapObject(before + [("", value)] + after, fn) == MapObject(before + after, fn);
  }

  /** A blocked entry stays in the map, mapped to `null`: the address is `null`, or it is not
      a URL, or the key ends in `/` and the address does not (unless a later entry
      normalises to the same key and overrides it). */
  lemma BlockedEntryKept(parse: UrlParser, originalMap: ModuleSpecifierMap, baseURL: Url, i: nat)
    requires i < |originalMap| && originalMap[i].0 != ""
    requires !AddressAccepted(parse, baseURL, originalMap[i].1, originalMap[i].0)
    requires forall j :: i < j < |originalMap| ==>
      NormalizeSpecifierKey(parse, originalMap[j].0, baseURL) != NormalizeSpecifierKey(parse, originalMap[i].0, baseURL)
    ensures (NormalizeSpecifierKey(parse, originalMap[i].0, baseURL).value, None)
         in SortAndNormalizeSpecifierMap(parse, originalMap, baseURL)
  {
    SpecifierMapMember(parse, originalMap, baseURL, NormalizeSpecifierKey(parse, originalMap[i].0, baseURL).value, None);
  }

  /** Every real address in a normalised map is the serialisation of the URL that an original
      address resolved to, under a key that normalises to the entry's key, and it ends in `/`
      when that original key does. */
  lemma NormalizedAddressOrigin(parse: UrlParser, originalMap: ModuleSpecifierMap, baseURL: Url, k: string, a: string)
    requires (k, Some(a)) in SortAndNormalizeSpecifierMap(parse, originalMap, baseURL)
    ensures exists i :: (
      && 0 <= i < |originalMap| && originalMap[i].1.Some?
      && NormalizeSpecifierKey(parse, originalMap[i].0, baseURL) == Some(k)
      && ResolveUrlLikeModuleSpecifier(parse, originalMap[i].1.value, baseURL).Some?
      && ResolveUrlLikeModuleSpecifier(parse, originalMap[i].1.value, baseURL).value.href == a
      && (IsEndsSlash(originalMap[i].0) ==> IsEndsSlash(a)))
  {
    SpecifierMapMember(parse, originalMap, baseURL, k, Some(a));
    var i :| 0 <= i < |originalMap| &&
      NormalizeSpecifierEntry(parse, baseURL, originalMap[i].1, originalMap[i].0) == Some((k, Some(a))) &&
      forall j :: i < j < |originalMap| ==> NormalizeSpecifierKey(parse, originalMap[j].0, baseURL) != Some(k);
  }

  /** With a URL parser whose serialisations parse again, every real address in a
      normalised map passes the `URL.canParse` check the resolver makes. */
  lemma NormalizedAddressesParse(parse: UrlParser, originalMap: ModuleSpecifierMap, baseURL: Url, k: string, a: string)
    requires SerializationsParse(parse)
    requires (k, Some(a)) in SortAndNormalizeSpecifierMap(parse, originalMap, baseURL)
    ensures CanParse(parse, a)
  {
    NormalizedAddressOrigin(parse, originalMap, baseURL, k, a);
    var i :| 0 <= i < |originalMap| && originalMap[i].1.Some? &&
      ResolveUrlLikeModuleSpecifier(parse, originalMap[i].1.value, baseURL).Some? &&
      ResolveUrlLikeModuleSpecifier(parse, originalMap[i].1.value, baseURL).value.href == a;
    var v := originalMap[i].1.value;
    var u := ResolveUrlLikeModuleSpecifier(parse, v, baseURL);
    if StartsWith(v, RelativeMarkers) {
      assert u == parse(v, Some(baseURL.href));
      assert parse(v, Some(baseURL.href)).value.href == a;
    } else {
      assert u == parse(v, None);
      assert parse(v, None).value.href == a;
    }
  }

  // ---------------------------------------------------------------------------
  // Normalising scopes
  // ---------------------------------------------------------------------------

  /** The callback `sortAndNormalizeScopes` hands to `mapObject`: a scope prefix is parsed
      against the base URL and replaced by its serialisation, and its specifier map is
      normalised; an unparseable prefix drops the whole scope. */
  function NormalizeScopeEntry(parse: UrlParser, baseURL: Url, potentialSpecifierMap: ModuleSpecifierMap, scopePrefix: string)
    : (r: Option<(string, ModuleSpecifierMap)>)
    ensures r.None? <==> parse(scopePrefix, Some(baseURL.href)).None?
    ensures r.Some? ==> r.value.0 == parse(scopePrefix, Some(baseURL.href)).value.href
    ensures r.Some? ==> r.value.1 == SortAndNormalizeSpecifierMap(parse, potentialSpecifierMap, baseURL)
  {
    match parse(scopePrefix, Some(baseURL.href))
    case None => None
    case Some(scopePrefixURL) =>
      var normalized := SortAndNormalizeSpecifierMap(parse, potentialSpecifierMap, baseURL);
      SortObjectOfSorted(normalized);
      Some((scopePrefixURL.href, SortObject(normalized)))
  }

  function ScopeNormalizer(parse: UrlParser, baseURL: Url): (ModuleSpecifierMap, string) -> Option<(string, ModuleSpecifierMap)>
  {
    (potentialSpecifierMap, scopePrefix) => NormalizeScopeEntry(parse, baseURL, potentialSpecifierMap, scopePrefix)
  }

  /** Sorting and normalising scopes: the parseable prefixes, serialised, longest first,
      each with its normalised specifier map. */
  function SortAndNormalizeScopes(parse: UrlParser, originalMap: Scopes, baseURL: Url): (r: Scopes)
    ensures SortedByKeyLength(r) && UniqueKeys(r)
  {
    var m := MapObject(originalMap, ScopeNormalizer(parse, baseURL));
    SortObjectUniqueKeys(m);
    SortObject(m)
  }

  /** The normalised scopes in full: `(prefix, map)` is in them exactly when some scope's
      prefix parses to a URL serialised as `prefix`, `map` is that scope's normalised
      specifier map, and no later scope's prefix serialises to `prefix` as well. */
  lemma ScopesMember(parse: UrlParser, originalMap: Scopes, baseURL: Url, prefix: string, m: ModuleSpecifierMap)
    ensures (prefix, m) in SortAndNormalizeScopes(parse, originalMap, baseURL)
        <==> exists i :: 0 <= i < |originalMap| &&
               parse(originalMap[i].0, Some(baseURL.href)).Some? &&
               parse(originalMap[i].0, Some(baseURL.href)).value.href == prefix &&
               m == SortAndNormalizeSpecifierMap(parse, originalMap[i].1, baseURL) &&
               forall j :: i < j < |originalMap| ==>
                 !(parse(originalMap[j].0, Some(baseURL.href)).Some? &&
                   parse(originalMap[j].0, Some(baseURL.href)).value.href == prefix)
  {
    var fn := ScopeNormalizer(parse, baseURL);
    SortObjectEntries(MapObject(originalMap, fn));
    MapObjectMember(originalMap, fn, prefix, m);
  }

  /** A scope whose prefix does not parse is dropped. */
  lemma UnparseableScopeDropped(parse: UrlParser, before: Scopes, after: Scopes, scopePrefix: string,
                                potentialSpecifierMap: ModuleSpecifierMap, baseURL: Url)
    requires parse(scopePrefix, Some(baseURL.href)).None?
    ensures SortAndNormalizeScopes(parse, before + [(scopePrefix, potentialSpecifierMap)] + after, baseURL)
         == SortAndNormalizeScopes(parse, before + after, baseURL)
  {
    var fn := ScopeNormalizer(parse, baseURL);
    assert fn(potentialSpecifierMap, scopePrefix) == None;
    MapObjectDropsEntry(before, (scopePrefix, potentialSpecifierMap), after, fn);
    assert MapObject(before + [(scopePrefix, potentialSpecifierMap)] + after, fn) == MapObject(before + after, fn);
  }

  // ---------------------------------------------------------------------------
  // resolveImportMap
  // ---------------------------------------------------------------------------

  /** The shape every parsed import map has, on which resolution relies: all maps sorted
      longest key first, with distinct keys. */
  ghost predicate NormalizedShape(importMap: ImportMap)
  {
    && importMap.imports.Some? && importMap.scopes.Some?
    && SortedByKeyLength(importMap.imports.value) && UniqueKeys(importMap.imports.value)
    && SortedByKeyLength(importMap.scopes.value) && UniqueKeys(importMap.scopes.value)
    && forall e | e in importMap.scopes.value :: SortedByKeyLength(e.1) && UniqueKeys(e.1)
  }

  /** `resolveImportMap`: both members present, normalised; a missing member becomes `{}`. */
  function ResolveImportMap(parse: UrlParser, importMap: ImportMap, baseURL: Url): (r: ImportMap)
    ensures NormalizedShape(r)
    ensures importMap.imports.None? ==> r.imports == Some([])
    ensures importMap.scopes.None? ==> r.scopes == Some([])
    ensures importMap.imports.Some? ==> r.imports == Some(SortAndNormalizeSpecifierMap(parse, importMap.imports.value, baseURL))
    ensures importMap.scopes.Some? ==> r.scopes == Some(SortAndNormalizeScopes(parse, importMap.scopes.value, baseURL))
  {
    var scopes := if importMap.scopes.Some? then SortAndNormalizeScopes(parse, importMap.scopes.value, baseURL) else [];
    assert forall e | e in scopes :: SortedByKeyLength(e.1) && UniqueKeys(e.1) by {
      forall e | e in scopes ensures SortedByKeyLength(e.1) && UniqueKeys(e.1) {
        ScopesMember(parse, importMap.scopes.value, baseURL, e.0, e.1);
      }
    }
    ImportMap(
      Some(if importMap.imports.Some? then SortAndNormalizeSpecifierMap(parse, importMap.imports.value, baseURL) else []),
      Some(scopes))
  }

  // ---------------------------------------------------------------------------
  // resolveImportsMatch
  // ---------------------------------------------------------------------------

  /** The `TypeError`s resolution throws, one per message in resolve.ts. */
  datatype ResolutionError =
    | ExactMatchNull            // "resolutionResult must not be null."
    | ResultNotUrl              // "resolutionResult must be an URL."
    | PrefixBlockedByNull       // "resolution of specifierKey was blocked by a null entry."
    | ResultWithoutTrailingSlash // "resolutionResult must end with "/"."
    | BacktracksAbovePrefix     // "... blocked due to it backtracking above its prefix specifierKey."
    | AfterPrefixNotParseable   // "... the afterPrefix portion could not be URL-parsed ..."
    | BareSpecifierNotRemapped  // "specifier was a bare specifier, but was not remapped ..."

  /** The schemes the URL Standard calls special (section 4.1 of the URL Standard). */
  const SpecialProtocols: seq<string> := ["ftp:", "file:", "http:", "https:", "ws:", "wss:"]

  /** `isSpecial`. */
  predicate IsSpecial(asURL: Url)
  {
    asURL.protocol in SpecialProtocols
  }

  /** A key that ends in `/` matches every specifier it is a prefix of, unless the specifier
      is a URL with a scheme that is not special. */
  predicate PrefixApplies(normalizedSpecifier: string, asURL: Option<Url>, specifierKey: string)
  {
    IsEndsSlash(specifierKey) && specifierKey <= normalizedSpecifier && (!IsNotNull(asURL) || IsSpecial(asURL.value))
  }

  /** Whether the loop of `resolveImportsMatch` stops at an entry with this key. */
  predicate Applies(normalizedSpecifier: string, asURL: Option<Url>, specifierKey: string)
  {
    specifierKey == normalizedSpecifier || PrefixApplies(normalizedSpecifier, asURL, specifierKey)
  }

  /** An exact match: the address, which must be neither `null` nor something `URL.canParse`
      rejects. */
  function ExactMatchResult(parse: UrlParser, resolutionResult: Option<string>): (r: Result<string, ResolutionError>)
    ensures r.Success? <==> resolutionResult.Some? && CanParse(parse, resolutionResult.value)
    ensures r.Success? ==> r.value == resolutionResult.value
    ensures resolutionResult.None? ==> r == Failure(ExactMatchNull)
    ensures resolutionResult.Some? && !CanParse(parse, resolutionResult.value) ==> r == Failure(ResultNotUrl)
  {
    var notNull := Panic(resolutionResult, (x: Option<string>) => IsNotNull(x), ExactMatchNull);
    :- notNull;
    :- Panic(resolutionResult.value, (x: string) => CanParse(parse, x), ResultNotUrl);
    Success(resolutionResult.value)
  }

  /** `String.prototype.slice(start)` for a start that is not negative. */
  function Slice(s: string, start: nat): (t: string)
    ensures start <= |s| ==> s[..start] + t == s
    ensures start >= |s| ==> t == ""
  {
    if start <= |s| then s[start..] else ""
  }

  /** The `try` block of a prefix match, with each failure reported as what it is: the rest
      of the specifier parsed against the address, which the result must not climb above. */
  function AfterPrefixResult(parse: UrlParser, normalizedSpecifier: string, specifierKey: string, address: string)
    : (r: Result<string, ResolutionError>)
    ensures r.Success? ==> address <= r.value
    ensures r.Success? ==> (
      && parse(Slice(normalizedSpecifier, |specifierKey|), Some(address)).Some?
      && r.value == parse(Slice(normalizedSpecifier, |specifierKey|), Some(address)).value.href)
    ensures r.Success? <==> (
      && parse(Slice(normalizedSpecifier, |specifierKey|), Some(address)).Some?
      && address <= parse(Slice(normalizedSpecifier, |specifierKey|), Some(address)).value.href)
    ensures r == Failure(AfterPrefixNotParseable) <==> parse(Slice(normalizedSpecifier, |specifierKey|), Some(address)).None?
    ensures r == Failure(BacktracksAbovePrefix) <==> (
      && parse(Slice(normalizedSpecifier, |specifierKey|), Some(address)).Some?
      && !(address <= parse(Slice(normalizedSpecifier, |specifierKey|), Some(address)).value.href))
    ensures r.Failure? ==> r.error in {AfterPrefixNotParseable, BacktracksAbovePrefix}
  {
    var afterPrefix := Slice(normalizedSpecifier, |specifierKey|);
    match parse(afterPrefix, Some(address))
    case None => Failure(AfterPrefixNotParseable)
    case Some(url) =>
      if !(address <= url.href) then Failure(BacktracksAbovePrefix)
      else Success(url.href)
  }

  /** The same block as resolve.ts:155-168 writes it: the `catch` also catches the
      backtracking error thrown inside the `try`, and replaces it with its own. */
  function AfterPrefixResultAsWritten(parse: UrlParser, normalizedSpecifier: string, specifierKey: string, address: string)
    : (r: Result<string, ResolutionError>)
    ensures r.Failure? ==> r.error == AfterPrefixNotParseable
    ensures r.Success? <==> AfterPrefixResult(parse, normalizedSpecifier, specifierKey, address).Success?
  {
    match AfterPrefixResult(parse, normalizedSpecifier, specifierKey, address)
    case Success(href) => Success(href)
    case Failure(_) => Failure(AfterPrefixNotParseable)
  }

  /** The places where the two versions part: every backtracking result, which the code as
      written misreports as a remainder that does not parse. */
  lemma AsWrittenMisreportsBacktracking(parse: UrlParser, normalizedSpecifier: string, specifierKey: string, address: string)
    ensures AfterPrefixResultAsWritten(parse, normalizedSpecifier, specifierKey, address)
         != AfterPrefixResult(parse, normalizedSpecifier, specifierKey, address)
        <==> AfterPrefixResult(parse, normalizedSpecifier, specifierKey, address) == Failure(BacktracksAbovePrefix)
    ensures AfterPrefixResult(parse, normalizedSpecifier, specifierKey, address) == Failure(BacktracksAbovePrefix)
        ==> AfterPrefixResultAsWritten(parse, normalizedSpecifier, specifierKey, address) == Failure(AfterPrefixNotParseable)
  {
  }

  /** A parser under which the remainder `../x` of `pkg/../x` resolves against
      `https://example.com/pkg/` to `https://example.com/x`, above the address. */
  function BacktrackingParser(): UrlParser
  {
    (input: string, base: Option<string>) =>
      if input == "../x" && base == Some("https://example.com/pkg/") then Some(Url("https://example.com/x", "https:"))
      else None
  }

  /** The specifier `pkg/../x` under the key `pkg/` mapped to `https://example.com/pkg/`. */
  lemma BacktrackingExample()
    ensures AfterPrefixResult(BacktrackingParser(), "pkg/../x", "pkg/", "https://example.com/pkg/")
         == Failure(BacktracksAbovePrefix)
    ensures AfterPrefixResultAsWritten(BacktrackingParser(), "pkg/../x", "pkg/", "https://example.com/pkg/")
         == Failure(AfterPrefixNotParseable)
  {
    assert Slice("pkg/../x", |"pkg/"|) == "../x";
    assert !("https://example.com/pkg/" <= "https://example.com/x") by {
      assert "https://example.com/x"[20] != "https://example.com/pkg/"[20];
    }
  }

  /** A prefix match: the address must be a URL ending in `/`, and the rest of the
      specifier is resolved against it. */
  function PrefixMatchResult(parse: UrlParser, normalizedSpecifier: string, specifierKey: string, resolutionResult: Option<string>)
    : (r: Result<string, ResolutionError>)
    ensures resolutionResult.None? ==> r == Failure(PrefixBlockedByNull)
    ensures resolutionResult.Some? && !CanParse(parse, resolutionResult.value) ==> r == Failure(ResultNotUrl)
    ensures resolutionResult.Some? && CanParse(parse, resolutionResult.value) && !IsEndsSlash(resolutionResult.value)
        ==> r == Failure(ResultWithoutTrailingSlash)
    ensures resolutionResult.Some? && CanParse(parse, resolutionResult.value) && IsEndsSlash(resolutionResult.value)
        ==> r == AfterPrefixResult(parse, normalizedSpecifier, specifierKey, resolutionResult.value)
  {
    var notNull := Panic(resolutionResult, (x: Option<string>) => IsNotNull(x), PrefixBlockedByNull);
    :- notNull;
    :- Panic(resolutionResult.value, (x: string) => CanParse(parse, x), ResultNotUrl);
    :- Panic(resolutionResult.value, (x: string) => IsEndsSlash(x), ResultWithoutTrailingSlash);
    AfterPrefixResult(parse, normalizedSpecifier, specifierKey, resolutionResult.value)
  }

  /** What the loop returns at the first entry that applies. */
  function EntryMatch(parse: UrlParser, normalizedSpecifier: string, entry: (string, Option<string>)): (r: Result<string, ResolutionError>)
    ensures r.Success? ==> entry.1.Some? && CanParse(parse, entry.1.value) && entry.1.value <= r.value
    ensures r.Success? && entry.0 != normalizedSpecifier ==> IsEndsSlash(entry.1.value)
    ensures entry.1.None? ==> r.Failure? && r.error in {ExactMatchNull, PrefixBlockedByNull}
  {
    if entry.0 == normalizedSpecifier then ExactMatchResult(parse, entry.1)
    else PrefixMatchResult(parse, normalizedSpecifier, entry.0, entry.1)
  }

  /** A resolution result as the result of a search that may find nothing. */
  function AsMatch(r: Result<string, ResolutionError>): Result<Option<string>, ResolutionError>
  {
    match r
    case Success(a) => Success(Some(a))
    case Failure(e) => Failure(e)
  }

  /** `resolveImportsMatch`, entry by entry: the first entry whose key is the specifier or a
      prefix of it that applies decides; no such entry is `null`. */
  function ImportsMatch(parse: UrlParser, normalizedSpecifier: string, asURL: Option<Url>, specifierMap: ModuleSpecifierMap)
    : (r: Result<Option<string>, ResolutionError>)
    ensures r.Failure? ==> r.error != BareSpecifierNotRemapped
  {
    if specifierMap == [] then Success(None)
    else if Applies(normalizedSpecifier, asURL, specifierMap[0].0) then
      AsMatch(EntryMatch(parse, normalizedSpecifier, specifierMap[0]))
    else ImportsMatch(parse, normalizedSpecifier, asURL, specifierMap[1..])
  }

  /** The first entry that applies decides the result. */
  lemma {:induction false} ImportsMatchAt(parse: UrlParser, normalizedSpecifier: string, asURL: Option<Url>,
                                          specifierMap: ModuleSpecifierMap, i: nat)
    requires i < |specifierMap| && Applies(normalizedSpecifier, asURL, specifierMap[i].0)
    requires forall j :: 0 <= j < i ==> !Applies(normalizedSpecifier, asURL, specifierMap[j].0)
    ensures ImportsMatch(parse, normalizedSpecifier, asURL, specifierMap)
         == AsMatch(EntryMatch(parse, normalizedSpecifier, specifierMap[i]))
  {
    if i > 0 {
      ImportsMatchAt(parse, normalizedSpecifier, asURL, specifierMap[1..], i - 1);
    }
  }

  /** `null` (no match, as opposed to an error) exactly when no entry applies. */
  lemma {:induction false} ImportsMatchNone(parse: UrlParser, normalizedSpecifier: string, asURL: Option<Url>,
                                            specifierMap: ModuleSpecifierMap)
    ensures ImportsMatch(parse, normalizedSpecifier, asURL, specifierMap) == Success(None)
        <==> forall i :: 0 <= i < |specifierMap| ==> !Applies(normalizedSpecifier, asURL, specifierMap[i].0)
  {
    if specifierMap != [] {
      ImportsMatchNone(parse, normalizedSpecifier, asURL, specifierMap[1..]);
      if !Applies(normalizedSpecifier, asURL, specifierMap[0].0) {
        forall i | 1 <= i < |specifierMap|
          ensures Applies(normalizedSpecifier, asURL, specifierMap[i].0) == Applies(normalizedSpecifier, asURL, specifierMap[1..][i - 1].0)
        {
        }
      }
    }
  }

  /** A URL with a scheme that is not special matches only a key equal to it. */
  lemma NonSpecialMatchesOnlyExactly(parse: UrlParser, normalizedSpecifier: string, asURL: Option<Url>,
                                     specifierMap: ModuleSpecifierMap)
    requires asURL.Some? && !IsSpecial(asURL.value)
    requires normalizedSpecifier !in Keys(specifierMap)
    ensures ImportsMatch(parse, normalizedSpecifier, asURL, specifierMap) == Success(None)
  {
    forall i | 0 <= i < |specifierMap| ensures specifierMap[i].0 != normalizedSpecifier {
      assert specifierMap[i] in specifierMap;
    }
    ImportsMatchNone(parse, normalizedSpecifier, asURL, specifierMap);
  }

  /** Only a key ending in `/` can prefix-match: in a map with no such key, a specifier
      matches exactly when it is a key itself. */
  lemma {:induction false} SlashlessKeysMatchOnlyExactly(parse: UrlParser, normalizedSpecifier: string, asURL: Option<Url>,
                                                        specifierMap: ModuleSpecifierMap)
    requires forall i :: 0 <= i < |specifierMap| ==> !IsEndsSlash(specifierMap[i].0)
    ensures ImportsMatch(parse, normalizedSpecifier, asURL, specifierMap) == Success(None)
        <==> normalizedSpecifier !in Keys(specifierMap)
  {
    ImportsMatchNone(parse, normalizedSpecifier, asURL, specifierMap);
    if normalizedSpecifier in Keys(specifierMap) {
      var e :| e in specifierMap && e.0 == normalizedSpecifier;
      var i :| 0 <= i < |specifierMap| && specifierMap[i] == e;
      assert Applies(normalizedSpecifier, asURL, specifierMap[i].0);
    } else {
      forall i | 0 <= i < |specifierMap| ensures !Applies(normalizedSpecifier, asURL, specifierMap[i].0) {
        assert specifierMap[i] in specifierMap;
      }
    }
  }

  /** Exact match before prefix match: in a normalised map (longest key first, keys distinct)
      an entry for the specifier itself decides, and a `null` there throws rather than
      falling through to a shorter prefix. */
  lemma ExactKeyDecides(parse: UrlParser, normalizedSpecifier: string, asURL: Option<Url>,
                        specifierMap: ModuleSpecifierMap, resolutionResult: Option<string>)
    requires SortedByKeyLength(specifierMap) && UniqueKeys(specifierMap)
    requires (normalizedSpecifier, resolutionResult) in specifierMap
    ensures ImportsMatch(parse, normalizedSpecifier, asURL, specifierMap) == AsMatch(ExactMatchResult(parse, resolutionResult))
    ensures resolutionResult.None? ==> ImportsMatch(parse, normalizedSpecifier, asURL, specifierMap) == Failure(ExactMatchNull)
  {
    var i :| 0 <= i < |specifierMap| && specifierMap[i] == (normalizedSpecifier, resolutionResult);
    forall j | 0 <= j < i ensures !Applies(normalizedSpecifier, asURL, specifierMap[j].0) {
      assert specifierMap[j].0 != normalizedSpecifier;
      assert |specifierMap[j].0| >= |normalizedSpecifier|;
    }
    ImportsMatchAt(parse, normalizedSpecifier, asURL, specifierMap, i);
  }

  /** Longest prefix wins: with no entry for the specifier itself, the applicable prefix key
      of greatest length decides. */
  lemma LongestPrefixDecides(parse: UrlParser, normalizedSpecifier: string, asURL: Option<Url>,
                             specifierMap: ModuleSpecifierMap, specifierKey: string, resolutionResult: Option<string>)
    requires SortedByKeyLength(specifierMap) && UniqueKeys(specifierMap)
    requires normalizedSpecifier !in Keys(specifierMap)
    requires (specifierKey, resolutionResult) in specifierMap && PrefixApplies(normalizedSpecifier, asURL, specifierKey)
    requires forall e | e in specifierMap && PrefixApplies(normalizedSpecifier, asURL, e.0) :: |e.0| <= |specifierKey|
    ensures ImportsMatch(parse, normalizedSpecifier, asURL, specifierMap)
         == AsMatch(PrefixMatchResult(parse, normalizedSpecifier, specifierKey, resolutionResult))
  {
    var i :| 0 <= i < |specifierMap| && specifierMap[i] == (specifierKey, resolutionResult);
    assert specifierKey != normalizedSpecifier;
    forall j | 0 <= j < i ensures !Applies(normalizedSpecifier, asURL, specifierMap[j].0) {
      assert specifierMap[j] in specifierMap;
      assert specifierMap[j].0 != specifierKey;
      assert |specifierMap[j].0| >= |specifierKey|;
    }
    ImportsMatchAt(parse, normalizedSpecifier, asURL, specifierMap, i);
  }

  /** A prefix match resolves: when the first entry that applies is a prefix key mapped to a
      URL ending in `/`, and the rest of the specifier parses against it to a URL that stays
      under it, the match is that URL's serialisation. */
  lemma PrefixMatchResolves(parse: UrlParser, normalizedSpecifier: string, asURL: Option<Url>,
                            specifierMap: ModuleSpecifierMap, i: nat, url: Url)
    requires i < |specifierMap| && PrefixApplies(normalizedSpecifier, asURL, specifierMap[i].0)
    requires specifierMap[i].0 != normalizedSpecifier
    requires forall j :: 0 <= j < i ==> !Applies(normalizedSpecifier, asURL, specifierMap[j].0)
    requires specifierMap[i].1.Some? && CanParse(parse, specifierMap[i].1.value) && IsEndsSlash(specifierMap[i].1.value)
    requires parse(Slice(normalizedSpecifier, |specifierMap[i].0|), Some(specifierMap[i].1.value)) == Some(url)
    requires specifierMap[i].1.value <= url.href
    ensures ImportsMatch(parse, normalizedSpecifier, asURL, specifierMap) == Success(Some(url.href))
  {
    ImportsMatchAt(parse, normalizedSpecifier, asURL, specifierMap, i);
  }

  /** No backtracking: a match is the address of an entry that applies, or, for a prefix
      match, an extension of that address, which ends in `/`. */
  lemma {:induction false} ImportsMatchExtendsAddress(parse: UrlParser, normalizedSpecifier: string, asURL: Option<Url>,
                                                      specifierMap: ModuleSpecifierMap, u: string)
    requires ImportsMatch(parse, normalizedSpecifier, asURL, specifierMap) == Success(Some(u))
    ensures exists i :: (
      && 0 <= i < |specifierMap| && Applies(normalizedSpecifier, asURL, specifierMap[i].0)
      && specifierMap[i].1.Some? && specifierMap[i].1.value <= u
      && (specifierMap[i].0 == normalizedSpecifier ==> u == specifierMap[i].1.value)
      && (specifierMap[i].0 != normalizedSpecifier ==> IsEndsSlash(specifierMap[i].1.value)))
  {
    if Applies(normalizedSpecifier, asURL, specifierMap[0].0) {
      assert specifierMap[0].1.value <= u;
    } else {
      ImportsMatchExtendsAddress(parse, normalizedSpecifier, asURL, specifierMap[1..], u);
      var i :| (
        && 0 <= i < |specifierMap[1..]| && Applies(normalizedSpecifier, asURL, specifierMap[1..][i].0)
        && specifierMap[1..][i].1.Some? && specifierMap[1..][i].1.value <= u
        && (specifierMap[1..][i].0 == normalizedSpecifier ==> u == specifierMap[1..][i].1.value)
        && (specifierMap[1..][i].0 != normalizedSpecifier ==> IsEndsSlash(specifierMap[1..][i].1.value)));
      assert specifierMap[i + 1] == specifierMap[1..][i];
    }
  }

  /** With a URL parser whose serialisations parse again, every match passes `URL.canParse`. */
  lemma {:induction false} ImportsMatchParses(parse: UrlParser, normalizedSpecifier: string, asURL: Option<Url>,
                                              specifierMap: ModuleSpecifierMap, u: string)
    requires SerializationsParse(parse)
    requires ImportsMatch(parse, normalizedSpecifier, asURL, specifierMap) == Success(Some(u))
    ensures CanParse(parse, u)
  {
    if Applies(normalizedSpecifier, asURL, specifierMap[0].0) {
      var e := specifierMap[0];
      if e.0 != normalizedSpecifier {
        var afterPrefix := Slice(normalizedSpecifier, |e.0|);
        assert parse(afterPrefix, Some(e.1.value)).value.href == u;
      }
    } else {
      ImportsMatchParses(parse, normalizedSpecifier, asURL, specifierMap[1..], u);
    }
  }

  /** `resolveImportsMatch` (resolve.ts:125-172): the loop over the entries. */
  method ResolveImportsMatch(parse: UrlParser, normalizedSpecifier: string, asURL: Option<Url>, specifierMap: ModuleSpecifierMap)
    returns (r: Result<Option<string>, ResolutionError>)
    ensures r == ImportsMatch(parse, normalizedSpecifier, asURL, specifierMap)
  {
    var i := 0;
    while i < |specifierMap|
      invariant i <= |specifierMap|
      invariant ImportsMatch(parse, normalizedSpecifier, asURL, specifierMap)
             == ImportsMatch(parse, normalizedSpecifier, asURL, specifierMap[i..])
    {
      var (specifierKey, resolutionResult) := specifierMap[i];
      assert specifierMap[i..][0] == (specifierKey, resolutionResult);
      if specifierKey == normalizedSpecifier {
        :- Panic(resolutionResult, (x: Option<string>) => IsNotNull(x), ExactMatchNull);
        :- Panic(resolutionResult.value, (x: string) => CanParse(parse, x), ResultNotUrl);
        return Success(resolutionResult);
      }
      if IsEndsSlash(specifierKey) && specifierKey <= normalizedSpecifier && (!IsNotNull(asURL) || IsSpecial(asURL.value)) {
        :- Panic(resolutionResult, (x: Option<string>) => IsNotNull(x), PrefixBlockedByNull);
        var address := resolutionResult.value;
        :- Panic(address, (x: string) => CanParse(parse, x), ResultNotUrl);
        :- Panic(address, (x: string) => IsEndsSlash(x), ResultWithoutTrailingSlash);
        var afterPrefix := Slice(normalizedSpecifier, |specifierKey|);
        var url := parse(afterPrefix, Some(address));
        if url.None? {
          return Failure(AfterPrefixNotParseable);
        }
        if !(address <= url.value.href) {
          return Failure(BacktracksAbovePrefix);
        }
        return Success(Some(url.value.href));
      }
      assert specifierMap[i..][1..] == specifierMap[i + 1..];
      i := i + 1;
    }
    return Success(None);
  }

  // ---------------------------------------------------------------------------
  // resolveModuleSpecifier
  // ---------------------------------------------------------------------------

  /** A scope applies to a base URL that is its prefix exactly, or that starts with a prefix
      ending in `/`. */
  predicate ScopeApplies(scopePrefix: string, baseURLString: string)
  {
    scopePrefix == baseURLString || (IsEndsSlash(scopePrefix) && scopePrefix <= baseURLString)
  }

  /** The scope loop of `resolveModuleSpecifier`: the first applicable scope whose imports
      match (or throw) decides; a scope that matches nothing passes on to the next. */
  function ScopesMatch(parse: UrlParser, normalizedSpecifier: string, asURL: Option<Url>, baseURLString: string, scopes: Scopes)
    : (r: Result<Option<string>, ResolutionError>)
    ensures r.Failure? ==> r.error != BareSpecifierNotRemapped
  {
    if scopes == [] then Success(None)
    else if ScopeApplies(scopes[0].0, baseURLString) && ImportsMatch(parse, normalizedSpecifier, asURL, scopes[0].1) != Success(None) then
      ImportsMatch(parse, normalizedSpecifier, asURL, scopes[0].1)
    else ScopesMatch(parse, normalizedSpecifier, asURL, baseURLString, scopes[1..])
  }

  /** Whether a scope takes part in resolving the specifier: it applies to the base URL and
      one of its entries applies to the specifier. */
  predicate ScopeMatches(parse: UrlParser, normalizedSpecifier: string, asURL: Option<Url>, baseURLString: string,
                         scope: (string, ModuleSpecifierMap))
  {
    ScopeApplies(scope.0, baseURLString) && ImportsMatch(parse, normalizedSpecifier, asURL, scope.1) != Success(None)
  }

  /** The first scope that matches decides. */
  lemma {:induction false} ScopesMatchAt(parse: UrlParser, normalizedSpecifier: string, asURL: Option<Url>, baseURLString: string,
                                         scopes: Scopes, i: nat)
    requires i < |scopes| && ScopeMatches(parse, normalizedSpecifier, asURL, baseURLString, scopes[i])
    requires forall j :: 0 <= j < i ==> !ScopeMatches(parse, normalizedSpecifier, asURL, baseURLString, scopes[j])
    ensures ScopesMatch(parse, normalizedSpecifier, asURL, baseURLString, scopes)
         == ImportsMatch(parse, normalizedSpecifier, asURL, scopes[i].1)
  {
    if i > 0 {
      ScopesMatchAt(parse, normalizedSpecifier, asURL, baseURLString, scopes[1..], i - 1);
    }
  }

  /** The scopes yield no match exactly when no entry of any applicable scope applies to the
      specifier. */
  lemma {:induction false} ScopesMatchNone(parse: UrlParser, normalizedSpecifier: string, asURL: Option<Url>, baseURLString: string,
                                           scopes: Scopes)
    ensures ScopesMatch(parse, normalizedSpecifier, asURL, baseURLString, scopes) == Success(None)
        <==> forall i, j :: 0 <= i < |scopes| && ScopeApplies(scopes[i].0, baseURLString) && 0 <= j < |scopes[i].1|
               ==> !Applies(normalizedSpecifier, asURL, scopes[i].1[j].0)
  {
    if scopes != [] {
      ScopesMatchNone(parse, normalizedSpecifier, asURL, baseURLString, scopes[1..]);
      ImportsMatchNone(parse, normalizedSpecifier, asURL, scopes[0].1);
      assert forall i | 1 <= i < |scopes| :: scopes[i] == scopes[1..][i - 1];
    }
  }

  /** With a URL parser whose serialisations parse again, every scope match passes
      `URL.canParse`. */
  lemma {:induction false} ScopesMatchParses(parse: UrlParser, normalizedSpecifier: string, asURL: Option<Url>, baseURLString: string,
                                             scopes: Scopes, u: string)
    requires SerializationsParse(parse)
    requires ScopesMatch(parse, normalizedSpecifier, asURL, baseURLString, scopes) == Success(Some(u))
    ensures CanParse(parse, u)
  {
    if ScopeMatches(parse, normalizedSpecifier, asURL, baseURLString, scopes[0]) {
      ImportsMatchParses(parse, normalizedSpecifier, asURL, scopes[0].1, u);
    } else {
      ScopesMatchParses(parse, normalizedSpecifier, asURL, baseURLString, scopes[1..], u);
    }
  }

  /** The specifier as the maps are keyed: the serialisation of its URL when it is URL-like,
      and the specifier itself when it is bare. */
  function NormalizedSpecifier(parse: UrlParser, specifier: string, baseURL: Url): (r: string)
    ensures ResolveUrlLikeModuleSpecifier(parse, specifier, baseURL).Some?
        ==> r == ResolveUrlLikeModuleSpecifier(parse, specifier, baseURL).value.href
    ensures ResolveUrlLikeModuleSpecifier(parse, specifier, baseURL).None? ==> r == specifier
  {
    match ResolveUrlLikeModuleSpecifier(parse, specifier, baseURL)
    case Some(asURL) => asURL.href
    case None => specifier
  }

  /** `resolveModuleSpecifier`: the applicable scopes first, then the top-level imports, then
      the specifier's own URL; a bare specifier that nothing remaps throws. A missing
      `imports` or `scopes` counts as `{}`. */
  function Resolution(parse: UrlParser, specifier: string, importMap: ImportMap, baseURL: Url)
    : (r: Result<string, ResolutionError>)
    ensures r == Failure(BareSpecifierNotRemapped) ==> ResolveUrlLikeModuleSpecifier(parse, specifier, baseURL).None?
  {
    var imports := if importMap.imports.Some? then importMap.imports.value else [];
    var scopes := if importMap.scopes.Some? then importMap.scopes.value else [];
    var asURL := ResolveUrlLikeModuleSpecifier(parse, specifier, baseURL);
    var normalizedSpecifier := NormalizedSpecifier(parse, specifier, baseURL);
    var scopeImportsMatch :- ScopesMatch(parse, normalizedSpecifier, asURL, baseURL.href, scopes);
    if scopeImportsMatch.Some? then Success(scopeImportsMatch.value)
    else TopLevelResolution(parse, normalizedSpecifier, asURL, imports)
  }

  /** What `resolveModuleSpecifier` does once no scope has matched: the top-level imports,
      then the specifier's own URL, then the error for a bare specifier. */
  function TopLevelResolution(parse: UrlParser, normalizedSpecifier: string, asURL: Option<Url>, imports: ModuleSpecifierMap)
    : (r: Result<string, ResolutionError>)
    ensures r == Failure(BareSpecifierNotRemapped)
        <==> asURL.None? && ImportsMatch(parse, normalizedSpecifier, asURL, imports) == Success(None)
    ensures asURL.Some? && ImportsMatch(parse, normalizedSpecifier, asURL, imports) == Success(None)
        ==> r == Success(asURL.value.href)
  {
    var topLevelImportsMatch :- ImportsMatch(parse, normalizedSpecifier, asURL, imports);
    if topLevelImportsMatch.Some? then Success(topLevelImportsMatch.value)
    else if asURL.Some? then Success(asURL.value.href)
    else Failure(BareSpecifierNotRemapped)
  }

  /** The entries of an import map that take part in resolving a specifier: those of the
      top-level imports and of the scopes that apply to the base URL. */
  ghost predicate NoEntryApplies(parse: UrlParser, specifier: string, importMap: ImportMap, baseURL: Url)
  {
    var asURL := ResolveUrlLikeModuleSpecifier(parse, specifier, baseURL);
    var normalizedSpecifier := NormalizedSpecifier(parse, specifier, baseURL);
    && (importMap.imports.Some? ==>
          forall j :: 0 <= j < |importMap.imports.value| ==> !Applies(normalizedSpecifier, asURL, importMap.imports.value[j].0))
    && (importMap.scopes.Some? ==>
          forall i, j :: 0 <= i < |importMap.scopes.value| && ScopeApplies(importMap.scopes.value[i].0, baseURL.href)
                         && 0 <= j < |importMap.scopes.value[i].1|
            ==> !Applies(normalizedSpecifier, asURL, importMap.scopes.value[i].1[j].0))
  }

  /** Scopes before top-level imports: the first scope that applies to the base URL and
      matches the specifier decides, whatever the top-level imports say. */
  lemma ScopeMatchDecides(parse: UrlParser, specifier: string, importMap: ImportMap, baseURL: Url, i: nat)
    requires importMap.scopes.Some? && i < |importMap.scopes.value|
    requires ScopeMatches(parse, NormalizedSpecifier(parse, specifier, baseURL), ResolveUrlLikeModuleSpecifier(parse, specifier, baseURL),
                          baseURL.href, importMap.scopes.value[i])
    requires forall j :: 0 <= j < i ==>
      !ScopeMatches(parse, NormalizedSpecifier(parse, specifier, baseURL), ResolveUrlLikeModuleSpecifier(parse, specifier, baseURL),
                    baseURL.href, importMap.scopes.value[j])
    ensures Resolution(parse, specifier, importMap, baseURL)
         == match ImportsMatch(parse, NormalizedSpecifier(parse, specifier, baseURL),
                               ResolveUrlLikeModuleSpecifier(parse, specifier, baseURL), importMap.scopes.value[i].1)
            case Success(m) => Success(m.value)
            case Failure(e) => Failure(e)
  {
    ScopesMatchAt(parse, NormalizedSpecifier(parse, specifier, baseURL), ResolveUrlLikeModuleSpecifier(parse, specifier, baseURL),
                  baseURL.href, importMap.scopes.value, i);
  }

  /** Top-level imports after scopes: when no entry of an applicable scope applies to the
      specifier, the top-level imports are consulted, and their match decides. */
  lemma TopLevelMatchDecides(parse: UrlParser, specifier: string, importMap: ImportMap, baseURL: Url)
    requires importMap.scopes.Some? ==>
      forall i, j :: 0 <= i < |importMap.scopes.value| && ScopeApplies(importMap.scopes.value[i].0, baseURL.href)
                     && 0 <= j < |importMap.scopes.value[i].1|
        ==> !Applies(NormalizedSpecifier(parse, specifier, baseURL), ResolveUrlLikeModuleSpecifier(parse, specifier, baseURL),
                     importMap.scopes.value[i].1[j].0)
    requires importMap.imports.Some?
    requires ImportsMatch(parse, NormalizedSpecifier(parse, specifier, baseURL), ResolveUrlLikeModuleSpecifier(parse, specifier, baseURL),
                          importMap.imports.value) != Success(None)
    ensures Resolution(parse, specifier, importMap, baseURL)
         == match ImportsMatch(parse, NormalizedSpecifier(parse, specifier, baseURL),
                               ResolveUrlLikeModuleSpecifier(parse, specifier, baseURL), importMap.imports.value)
            case Success(m) => Success(m.value)
            case Failure(e) => Failure(e)
  {
    var scopes := if importMap.scopes.Some? then importMap.scopes.value else [];
    ScopesMatchNone(parse, NormalizedSpecifier(parse, specifier, baseURL), ResolveUrlLikeModuleSpecifier(parse, specifier, baseURL),
                    baseURL.href, scopes);
  }

  /** The fallback: when no entry that takes part applies, a URL-like specifier resolves to
      its own URL and a bare one throws. */
  lemma UnmappedFallsBack(parse: UrlParser, specifier: string, importMap: ImportMap, baseURL: Url)
    requires NoEntryApplies(parse, specifier, importMap, baseURL)
    ensures ResolveUrlLikeModuleSpecifier(parse, specifier, baseURL).Some?
        ==> Resolution(parse, specifier, importMap, baseURL) == Success(ResolveUrlLikeModuleSpecifier(parse, specifier, baseURL).value.href)
    ensures ResolveUrlLikeModuleSpecifier(parse, specifier, baseURL).None?
        ==> Resolution(parse, specifier, importMap, baseURL) == Failure(BareSpecifierNotRemapped)
  {
    var imports := if importMap.imports.Some? then importMap.imports.value else [];
    var scopes := if importMap.scopes.Some? then importMap.scopes.value else [];
    var asURL := ResolveUrlLikeModuleSpecifier(parse, specifier, baseURL);
    var normalizedSpecifier := NormalizedSpecifier(parse, specifier, baseURL);
    ScopesMatchNone(parse, normalizedSpecifier, asURL, baseURL.href, scopes);
    ImportsMatchNone(parse, normalizedSpecifier, asURL, imports);
  }

  /** A resolution never throws for a URL-like specifier that no entry remaps; it throws
      `BareSpecifierNotRemapped` only for a bare specifier. */
  lemma {:induction false} BareNotRemappedOnlyForBare(parse: UrlParser, specifier: string, importMap: ImportMap, baseURL: Url)
    requires Resolution(parse, specifier, importMap, baseURL) == Failure(BareSpecifierNotRemapped)
    ensures ResolveUrlLikeModuleSpecifier(parse, specifier, baseURL).None?
    ensures NoEntryApplies(parse, specifier, importMap, baseURL)
  {
    var imports := if importMap.imports.Some? then importMap.imports.value else [];
    var scopes := if importMap.scopes.Some? then importMap.scopes.value else [];
    var asURL := ResolveUrlLikeModuleSpecifier(parse, specifier, baseURL);
    var normalizedSpecifier := NormalizedSpecifier(parse, specifier, baseURL);
    ScopesMatchNone(parse, normalizedSpecifier, asURL, baseURL.href, scopes);
    ImportsMatchNone(parse, normalizedSpecifier, asURL, imports);
  }

  /** The null poison: in a normalised map, a top-level key equal to the specifier and mapped
      to `null` makes resolution throw, unless an applicable scope matches first. */
  lemma PoisonedTopLevelKeyBlocks(parse: UrlParser, specifier: string, importMap: ImportMap, baseURL: Url)
    requires NormalizedShape(importMap)
    requires (NormalizedSpecifier(parse, specifier, baseURL), None) in importMap.imports.value
    requires forall i, j :: 0 <= i < |importMap.scopes.value| && ScopeApplies(importMap.scopes.value[i].0, baseURL.href)
                            && 0 <= j < |importMap.scopes.value[i].1|
                            ==> !Applies(NormalizedSpecifier(parse, specifier, baseURL), ResolveUrlLikeModuleSpecifier(parse, specifier, baseURL),
                   importMap.scopes.value[i].1[j].0)
    ensures Resolution(parse, specifier, importMap, baseURL) == Failure(ExactMatchNull)
  {
    var asURL := ResolveUrlLikeModuleSpecifier(parse, specifier, baseURL);
    var normalizedSpecifier := NormalizedSpecifier(parse, specifier, baseURL);
    ScopesMatchNone(parse, normalizedSpecifier, asURL, baseURL.href, importMap.scopes.value);
    ExactKeyDecides(parse, normalizedSpecifier, asURL, importMap.imports.value, None);
  }

  /** With a URL parser whose serialisations parse again, whatever a resolution returns
      passes `URL.canParse`. */
  lemma ResolutionParses(parse: UrlParser, specifier: string, importMap: ImportMap, baseURL: Url, u: string)
    requires SerializationsParse(parse)
    requires Resolution(parse, specifier, importMap, baseURL) == Success(u)
    ensures CanParse(parse, u)
  {
    var imports := if importMap.imports.Some? then importMap.imports.value else [];
    var scopes := if importMap.scopes.Some? then importMap.scopes.value else [];
    var asURL := ResolveUrlLikeModuleSpecifier(parse, specifier, baseURL);
    var normalizedSpecifier := NormalizedSpecifier(parse, specifier, baseURL);
    var s := ScopesMatch(parse, normalizedSpecifier, asURL, baseURL.href, scopes);
    if s.Success? && s.value.Some? {
      ScopesMatchParses(parse, normalizedSpecifier, asURL, baseURL.href, scopes, u);
    } else {
      var t := ImportsMatch(parse, normalizedSpecifier, asURL, imports);
      if t.Success? && t.value.Some? {
        ImportsMatchParses(parse, normalizedSpecifier, asURL, imports, u);
      } else if StartsWith(specifier, RelativeMarkers) {
        assert parse(specifier, Some(baseURL.href)).value.href == u;
      } else {
        assert parse(specifier, None).value.href == u;
      }
    }
  }

  /** `resolveModuleSpecifier` (resolve.ts:218-259): the loop over the scopes, then the
      top-level imports, then the fallback. */
  method ResolveModuleSpecifier(parse: UrlParser, specifier: string, importMap: ImportMap, baseURL: Url)
    returns (r: Result<string, ResolutionError>)
    ensures r == Resolution(parse, specifier, importMap, baseURL)
  {
    var imports := if importMap.imports.Some? then importMap.imports.value else [];
    var scopes := if importMap.scopes.Some? then importMap.scopes.value else [];
    var baseURLString := baseURL.href;
    var asURL := ResolveUrlLikeModuleSpecifier(parse, specifier, baseURL);
    var normalizedSpecifier := if asURL.Some? then asURL.value.href else specifier;
    var i := 0;
    while i < |scopes|
      invariant i <= |scopes|
      invariant ScopesMatch(parse, normalizedSpecifier, asURL, baseURLString, scopes)
             == ScopesMatch(parse, normalizedSpecifier, asURL, baseURLString, scopes[i..])
    {
      var (scopePrefix, scopeImports) := scopes[i];
      assert scopes[i..][0] == (scopePrefix, scopeImports);
      if scopePrefix == baseURLString || (IsEndsSlash(scopePrefix) && scopePrefix <= baseURLString) {
        var scopeImportsMatch :- ResolveImportsMatch(parse, normalizedSpecifier, asURL, scopeImports);
        if IsNotNull(scopeImportsMatch) {
          return Success(scopeImportsMatch.value);
        }
      }
      assert scopes[i..][1..] == scopes[i + 1..];
      i := i + 1;
    }
    assert ScopesMatch(parse, normalizedSpecifier, asURL, baseURLString, scopes) == Success(None);
    var topLevelImportsMatch :- ResolveImportsMatch(parse, normalizedSpecifier, asURL, imports);
    if IsNotNull(topLevelImportsMatch) {
      return Success(topLevelImportsMatch.value);
    }
    if IsNotNull(asURL) {
      return Success(asURL.value.href);
    }
    return Failure(BareSpecifierNotRemapped);
  }

  // ---------------------------------------------------------------------------
  // The trailing-slash rule after normalisation
  // ---------------------------------------------------------------------------

  const ExampleBase: Url := Url("https://example.com/", "https:")

  /** A parser under which the key `https://x` serialises to `https://x/`, and `/a` resolves
      against `https://example.com/` to `https://example.com/a`. */
  function SlashGainingParser(): UrlParser
  {
    (input: string, base: Option<string>) =>
      if input == "https://x" && base.None? then Some(Url("https://x/", "https:"))
      else if input == "/a" && base == Some("https://example.com/") then Some(Url("https://example.com/a", "https:"))
      else if base.None? && input in ["https://x/", "https://x/foo", "https://example.com/a"] then Some(Url(input, "https:"))
      else None
  }

  /** A specifier that starts with neither `/` nor `.` is not relative. */
  lemma NotRelative(s: string)
    requires |s| > 0 && s[0] != '/' && s[0] != '.'
    ensures !StartsWith(s, RelativeMarkers)
  {
  }

  /** The trailing-slash rule tests the original key, so a key that gains its `/` only through
      normalisation keeps an address without one, and resolving under it then throws
      `ResultWithoutTrailingSlash`. */
  lemma KeyGainingSlashKeepsAddress()
    ensures SortAndNormalizeSpecifierMap(SlashGainingParser(), [("https://x", Some("/a"))], ExampleBase)
         == [("https://x/", Some("https://example.com/a"))]
    ensures Resolution(SlashGainingParser(), "https://x/foo",
                       ImportMap(Some([("https://x/", Some("https://example.com/a"))]), None), ExampleBase)
         == Failure(ResultWithoutTrailingSlash)
  {
    var parse := SlashGainingParser();
    var original: ModuleSpecifierMap := [("https://x", Some("/a"))];
    var normalized: ModuleSpecifierMap := [("https://x/", Some("https://example.com/a"))];
    NotRelative("https://x");
    assert StartsWith("/a", RelativeMarkers) by { StartsWithRelativeMarker("/a"); }
    assert !IsEndsSlash("https://x");
    assert NormalizeSpecifierEntry(parse, ExampleBase, Some("/a"), "https://x") == Some(normalized[0]);
    assert Collect(original[1..], EntryNormalizer(parse, ExampleBase)) == [];
    assert Collect(original, EntryNormalizer(parse, ExampleBase)) == normalized;
    MapObjectOfDistinct(original, EntryNormalizer(parse, ExampleBase));
    SortObjectOfSorted(normalized);

    NotRelative("https://x/foo");
    var asURL := ResolveUrlLikeModuleSpecifier(parse, "https://x/foo", ExampleBase);
    assert asURL == Some(Url("https://x/foo", "https:"));
    assert "https://x/" <= "https://x/foo";
    assert IsSpecial(asURL.value) by { assert SpecialProtocols[3] == "https:"; }
    assert !IsEndsSlash("https://example.com/a");
    assert EntryMatch(parse, "https://x/foo", normalized[0]) == Failure(ResultWithoutTrailingSlash);
  }

  /** Normalisation is not idempotent: a second pass over that map applies the trailing-slash
      rule to the key `https://x/` and blocks it. */
  lemma SecondPassBlocksKey()
    ensures SortAndNormalizeSpecifierMap(SlashGainingParser(), [("https://x/", Some("https://example.com/a"))], ExampleBase)
         == [("https://x/", None)]
  {
  }
}
