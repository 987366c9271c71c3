# System node index — a Dafny model

This project models the core of the Neos/Flow package `Nezaniel.SystemNodes`,
the service `SystemNodeService`. Each "system node" of the content tree gets
zero or more composite keys, derived from its node type configuration. The
service keeps an index from those keys to node identifiers. At a cold start
it loads the index persisted in one cache slot, or rebuilds it from a scan of
the tree and persists it when the slot is empty. When a node changes it refreshes the index for that node alone. Lookups
format their input, then return an identifier, a whole subtree of
identifiers, or null.

Layout:

- `Wrappers.dfy`: `Option`, standing for PHP's `null`.
- `Arrays.dfy`: the nested PHP array (`Tree = Leaf(id) | Branch(map)`) and
  the three path operations the service takes from Flow's `Arrays` utility:
  `getValueByPath`, `setValueByPath` and `unsetValueByPath`. It also holds
  the subtree helpers that describe where the removal walk stands.
- `Keys.dfy`: the key-segment formatter, PHP string truthiness, the abstract
  node (type name, override, identifier paths, properties, closest ancestor)
  and the key one identifier path yields.
- `SystemNodeService.dfy`: the index-level specification (indexing one node,
  rebuild, removal by value) and the class `SystemNodeService`. The class has
  the fields `index` (`$systemNodeIdentifiers`) and `persisted` (the cache
  slot `systemNodeIdentifiers`). Its methods are proved against that
  specification.

Modelling choices:

- The removal walk (`RemoveLeavesEqualTo`) is a recursive method. Like the
  closure in the source, it iterates a snapshot of one level and unsets
  matching leaves on the live index. The source pushes and pops a
  `$currentPath` stack; the model passes `currentPath + [key]` down instead.
  It picks keys in any order, and the proof shows the result is the same for
  every order.
- In PHP an empty key path reads as the single key `""`. `Arrays.Norm` models
  this, and lookups apply it to the formatted path. The service never passes
  an empty path to set or unset.
- A missing property (`getProperty` returns null) formats to `""`, which is
  falsy. An inactive property gives null, also falsy. Either one aborts the
  path.

## Behaviour worth knowing

- A node type with no identifier paths is stored under its raw, unformatted
  type name (`SystemNodeService.php:106`). Lookups format their input
  (`:174-176`). So when the type name contains `.`, `:`, `\` or `|`, as every
  `Vendor.Package:Type` name does, a lookup by that name never finds this
  node's entry: it reads only what another node stored at the formatted name
  (`Service.RawNameReadsFormattedSlot`), and misses in an index built from
  that node alone (`Service.SingletonLookupMisses`).
- An inactive property aborts the whole identifier path, like a falsy
  value (`:123-127`).
- Removal by value does not prune levels it empties (`:219`;
  `Service.RemoveValueSpec`, last clause).
- A refresh re-derives and re-inserts the node's keys even when the node
  has been removed from the tree (`:227`).
- For a type that redirects to an ancestor, the index stores the ancestor's
  identifier (`:143-146`). A refresh removes only leaves equal to the node's
  own identifier (`:218`), so a key the node no longer derives keeps
  pointing at the ancestor (`Service.RedirectedKeySurvivesRefresh`).
- Removal is by value (`:218`). Refreshing a node of the SystemNode type
  therefore also removes every key of a redirecting descendant that stores
  that node's identifier. Those keys come back only when each descendant is
  refreshed or the index is rebuilt (`Service.RemoveValueSpec`).
- There is no cache of resolved node objects and no key variant built from
  a single identifier property.

## Model

| member | source | states |
|---|---|---|
| `Keys.StrReplaceEach` | Classes/Service/SystemNodeService.php:271 | one `str_replace` pass keeps the length and replaces exactly the occurrences of the search character |
| `Keys.FormatCacheEntryIdentifier` | Classes/Service/SystemNodeService.php:269-272 | the four sequential replacements map every character independently: `.`, `:`, `\` to `-`, `|` to `_`, every other character unchanged; the length is kept |
| `Keys.FormatIsSafe` | Classes/Service/SystemNodeService.php:269-272 | a formatted segment contains none of the four characters, and formatting twice equals formatting once |
| `Keys.FormatFixesExactlySafe` | Classes/Service/SystemNodeService.php:269-272 | formatting leaves a string unchanged if and only if it contains none of the four characters |
| `Keys.FormatPathIdempotent` | Classes/Service/SystemNodeService.php:174-176 | formatting every segment of an already formatted path changes nothing |
| `Keys.FormatKeepsTruthiness` | Classes/Service/SystemNodeService.php:123-124 | a formatted value is falsy (`""` or `"0"`) exactly when the raw value is |
| `Keys.PropertySegmentsSpec` | Classes/Service/SystemNodeService.php:122-129 | the property loop fails exactly when some property is inactive or formats to a falsy value; otherwise it gives one formatted segment per property, in order |
| `Keys.KeyOfSpec` | Classes/Service/SystemNodeService.php:116-132 | the derived key is null exactly when some listed property is inactive or falsy; otherwise it has length 2 + number of properties, starts with the formatted override-or-type name, then the formatted path name, then the formatted property values in path order |
| `Keys.KeyOfIsFormatted` | Classes/Service/SystemNodeService.php:118-128 | every segment of a derived key is already formatted |
| `Service.SystemNodeService.ResolveIdentifierValues` | Classes/Service/SystemNodeService.php:116-132 | the loop with its early null return yields exactly the key `KeyOf` specifies |
| `Arrays.SetThenGet` | Classes/Service/SystemNodeService.php:146 | after setValueByPath, the value at the path is the value set |
| `Arrays.SetKeepsUnrelated` | Classes/Service/SystemNodeService.php:146 | setValueByPath leaves every path that neither extends nor is extended by the set path unchanged |
| `Arrays.UnsetThenGet` | Classes/Service/SystemNodeService.php:219 | after unsetValueByPath nothing is found at the path |
| `Arrays.UnsetKeepsUnrelated` | Classes/Service/SystemNodeService.php:219 | unsetValueByPath leaves every unrelated path unchanged |
| `Arrays.GetOneDeeper` | Classes/Service/SystemNodeService.php:194-198 | looking one segment deeper finds the child of an inner level, and null below a leaf or a missing key |
| `Arrays.MissExtends` | Classes/Service/SystemNodeService.php:178 | a lookup that misses or ends at a leaf misses for every longer path |
| `Service.CacheEntryOutcomes` | Classes/Service/SystemNodeService.php:139-148 | with an ancestor type configured and no closest ancestor the index is unchanged; otherwise the key holds the (possibly redirected) identifier and every path unrelated to the key is unchanged |
| `Service.SystemNodeService.CacheSystemNode` | Classes/Service/SystemNodeService.php:139-148 | the new index is the cache entry of the old one; the cache slot is untouched |
| `Service.IndexNodeFrame` | Classes/Service/SystemNodeService.php:93-107 | indexing a node changes nothing at paths unrelated to every key the node derives |
| `Service.IndexNodeStoresEachKey` | Classes/Service/SystemNodeService.php:95-104 | each path that resolves is found under its key after indexing, whatever other paths failed to resolve (given distinct formatted path names) |
| `Service.SystemNodeService.InitializeSystemNode` | Classes/Service/SystemNodeService.php:93-107 | the paths are processed in order and an unresolvable one is skipped (`continue`); with no paths the raw type name is the key; the cache slot is untouched |
| `Service.SystemNodeService.InitializeSystemNodes` | Classes/Service/SystemNodeService.php:77-88 | the index is reset and then built from the scanned nodes in order, so it depends on the scan alone; the slot then holds the same index |
| `Service.SystemNodeService.InitializeObject` | Classes/Service/SystemNodeService.php:64-71 | a truthy (non-empty) slot is loaded verbatim; a missing or empty slot triggers a rebuild and is then written |
| `Service.SystemNodeService.constructor` | Classes/Service/SystemNodeService.php:44-58 | a new service starts with an empty index over the given cache slot |
| `Service.GetSystemNodeSpec` | Classes/Service/SystemNodeService.php:156-166 | getSystemNode finds the same node for a path and for its formatted version; for a derived key of an indexed node (given distinct formatted path names) it yields the dereference of the stored identifier |
| `Service.SystemNodeService.GetSystemNodes` | Classes/Service/SystemNodeService.php:186-202 | the result has exactly one entry per key one level below the formatted path (the empty path read as PHP reads it), each the dereferenced value found there; so it is empty unless the path leads to an inner level |
| `Service.LookupIgnoresFormatting` | Classes/Service/SystemNodeService.php:172-178 | looking up a path and its segment-wise formatted version give the same result |
| `Service.JustCachedKeyIsFound` | Classes/Service/SystemNodeService.php:141-147 | right after cacheSystemNode stores a node under a key derived by resolveIdentifierValues, the lookup of that key finds the stored identifier |
| `Service.InsertedKeyIsFound` | Classes/Service/SystemNodeService.php:172-178 | a key derived by resolveIdentifierValues for an indexed node looks up to the identifier cacheSystemNode stored (given distinct formatted path names) |
| `Service.SingletonLookupMisses` | Classes/Service/SystemNodeService.php:105-106 | a node type without paths is stored under its raw name, so when formatting changes that name the lookup by it returns null (in an index built from that node alone) |
| `Service.RawNameReadsFormattedSlot` | Classes/Service/SystemNodeService.php:105-106 | in any index, a node type without paths is stored under its raw name, and when formatting changes that name the lookup by the raw name reads only what other nodes stored at the formatted name, never this node's entry |
| `Service.RemoveValueSpec` | Classes/Service/SystemNodeService.php:213-225 | after removal no path holds a leaf equal to the identifier; the path of a removed leaf misses, and so does every path that missed before; a leaf with another value is found at a path exactly when it was there before; inner levels are kept, not pruned |
| `Service.SystemNodeService.RemoveLeavesEqualTo` | Classes/Service/SystemNodeService.php:213-225 | walking a snapshot and unsetting matching leaves on the live index replaces the walked level by its removal-by-value, and nothing outside it changes |
| `Service.SystemNodeService.RefreshCacheIfNecessary` | Classes/Service/SystemNodeService.php:208-230 | a node not of the SystemNode type changes neither the index nor the slot; otherwise every leaf equal to its identifier is removed, its current keys are re-inserted, and the slot equals the new index |
| `Service.RefreshOutcome` | Classes/Service/SystemNodeService.php:208-228 | after a refresh, a path unrelated to the node's current keys holds no leaf equal to the node's identifier: one that held it, or held nothing, misses; a leaf holding another value is kept |
| `Service.RefreshStoresEachKey` | Classes/Service/SystemNodeService.php:225-227 | after a refresh every current key of a resolvable path holds the stored identifier (given distinct formatted path names) |
| `Service.RedirectedKeySurvivesRefresh` | Classes/Service/SystemNodeService.php:141-146 | for a type that redirects to an ancestor, a key pointing at the ancestor that the node no longer derives survives a refresh, since only leaves equal to the node's own identifier are removed |
| `Service.RestartAfterRebuild` | Classes/Service/SystemNodeService.php:64-88 | a rebuilt index, persisted and loaded at the next start, is the same index unless it was empty (then the next start rebuilds) |

Members without a row of their own are covered by these rows:

- `Arrays.GetValueByPath`, `Arrays.SetValueByPath` and `Arrays.UnsetValueByPath` (Flow's path operations): `Arrays.SetThenGet`, `Arrays.SetKeepsUnrelated`, `Arrays.UnsetThenGet`, `Arrays.UnsetKeepsUnrelated`, `Arrays.GetOneDeeper`, `Arrays.MissExtends`.
- `Service.SystemNodeService.GetSystemNodeIdentifier` (`:172-179`): `Service.LookupIgnoresFormatting`, `Service.JustCachedKeyIsFound`, `Service.InsertedKeyIsFound`, `Service.SingletonLookupMisses`, `Service.RawNameReadsFormattedSlot`.
- `Service.SystemNodeService.GetSystemNode` (`:156-166`): `Service.GetSystemNodeSpec`.
- `Keys.KeyOf`: `Keys.KeyOfSpec`, `Keys.KeyOfIsFormatted`. `Service.CacheEntry`: `Service.CacheEntryOutcomes`. `Service.IndexNode`: `Service.IndexNodeFrame`, `Service.IndexNodeStoresEachKey`. `Service.Rebuild`: `Service.SystemNodeService.InitializeSystemNodes`, `Service.RestartAfterRebuild`. `Service.RemoveValue`: `Service.RemoveValueSpec`, `Service.SystemNodeService.RemoveLeavesEqualTo`.

## Left out

- The content context (`ContentContextContainer`, `getContentContext` and its `force` branch) is framework state. The tree scan (`FlowQuery find`) is the parameter `scan` of the rebuild. The closest-ancestor query is the node's `closestAncestor` field. `getNodeByIdentifier` is the function parameter `deref`.
- `Package.php`, the signal-slot wiring of nodeAdded/nodeUpdated/nodeRemoved, is not modelled. Callers call `RefreshCacheIfNecessary` directly. `SystemNodeHelper.php` (an Eel delegation wrapper) and `ContentContextRetrievalAspect.php` (AOP plumbing) are not part of this model.
- The cache frontend's serialisation is not modelled. The slot is a field holding the index, or `None` when the cache has no entry. `setCache` becomes the constructor's parameter.
- Dafny maps have no order, unlike PHP arrays. The order of scanned nodes and of configured paths is kept, because those are sequences. The key order inside the index and inside the `getSystemNodes` result is not kept.
- Property values and configuration values are strings. PHP's integer coercion of numeric array keys is not modelled. It is one-to-one on strings and changes no result.
- `Arrays.SetValueByPath` and `Arrays.UnsetValueByPath` take non-empty paths. The service always passes one; lookups apply `Norm` for PHP's reading of an empty path.
- `Service.IndexNodeStoresEachKey` requires the formatted path names to differ. When two names format alike, the later path may overwrite the earlier key, as the code does, when the later key equals, extends or is a prefix of the earlier one.
- `Service.RefreshStoresEachKey` requires the formatted path names to differ, for the same reason.
- `Service.InsertedKeyIsFound` requires the formatted path names to differ, for the same reason. `Service.JustCachedKeyIsFound` states the lookup without that condition, for the key just stored.
- `Service.GetSystemNodeSpec` states its second clause only when the formatted path names differ, for the same reason.
- Concurrency between a rebuild and a lookup is not modelled. The service is single-threaded.
