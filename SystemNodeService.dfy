/**
 * The system node service: an index from derived composite keys to node
 * identifiers, rebuilt from a scan of the content tree, kept up to date
 * node by node, persisted to one cache slot, and consulted by lookups.
 *
 * The functions before the class are the index-level specification: what
 * indexing one node, rebuilding and removing by value do to an index. The
 * class holds the state (`index`, and the cache slot `persisted`) and its
 * methods are proved against those functions.
 */
module Service {
  import opened Wrappers
  import opened Arrays
  import opened Keys

  // ------------------------------------------------------- insertion (cacheSystemNode)

  /** An ancestor type to resolve is configured when systemNode.ancestorToBeResolved is truthy. */
  predicate RedirectsToAncestor(node: Node)
  {
    node.nodeType.ancestorToResolve.Some? && Truthy(node.nodeType.ancestorToResolve.value)
  }

  /** The identifier cacheSystemNode stores for the node, None when the closest ancestor is missing. */
  function CachedIdentifier(node: Node): Option<string>
  {
    if RedirectsToAncestor(node) then node.closestAncestor else Some(node.identifier)
  }

  function CacheEntry(ix: Index, node: Node, key: seq<string>): Index
  {
    match CachedIdentifier(node)
    case None => ix
    case Some(id) => SetValueByPath(ix, Norm(key), Leaf(id))
  }

  /**
   * cacheSystemNode: when an ancestor is configured but none is found, the
   * index is unchanged; otherwise the key holds the stored identifier and
   * every path that neither extends nor is extended by the key is unchanged.
   */
  lemma CacheEntryOutcomes(ix: Index, node: Node, key: seq<string>)
    ensures RedirectsToAncestor(node) && node.closestAncestor.None? ==> CacheEntry(ix, node, key) == ix
    ensures CachedIdentifier(node).Some? ==>
      GetValueByPath(CacheEntry(ix, node, key), Norm(key)) == Some(Leaf(CachedIdentifier(node).value))
    ensures forall q :: |q| > 0 && Unrelated(Norm(key), q) ==>
      GetValueByPath(CacheEntry(ix, node, key), q) == GetValueByPath(ix, q)
  {
    if CachedIdentifier(node).Some? {
      var v := Leaf(CachedIdentifier(node).value);
      SetThenGet(ix, Norm(key), v);
      forall q | |q| > 0 && Unrelated(Norm(key), q)
        ensures GetValueByPath(CacheEntry(ix, node, key), q) == GetValueByPath(ix, q)
      {
        SetKeepsUnrelated(ix, Norm(key), q, v);
      }
    }
  }

  // ------------------------------------------------- one node (initializeSystemNode)

  /** The configured paths in order, each resolvable one inserted under its key. */
  function IndexPaths(ix: Index, node: Node, paths: seq<IdentifierPath>): Index
    decreases |paths|
  {
    if paths == [] then ix
    else
      var before := IndexPaths(ix, node, paths[..|paths| - 1]);
      match KeyOf(node, paths[|paths| - 1])
      case None => before
      case Some(key) => CacheEntry(before, node, key)
  }

  /** The keys those paths yield, in order. */
  function PathKeys(node: Node, paths: seq<IdentifierPath>): seq<seq<string>>
    decreases |paths|
  {
    if paths == [] then []
    else
      PathKeys(node, paths[..|paths| - 1]) +
      match KeyOf(node, paths[|paths| - 1])
      case None => []
      case Some(key) => [key]
  }

  /** With no paths configured the single key is the raw, unformatted type name. */
  function NodeKeys(node: Node): seq<seq<string>>
  {
    if node.nodeType.paths != [] then PathKeys(node, node.nodeType.paths) else [[node.nodeType.name]]
  }

  function IndexNode(ix: Index, node: Node): Index
  {
    if node.nodeType.paths != [] then IndexPaths(ix, node, node.nodeType.paths)
    else CacheEntry(ix, node, [node.nodeType.name])
  }

  /** Formatted path names differ pairwise (so the paths' keys part ways at their second segment). */
  predicate DistinctPathNames(paths: seq<IdentifierPath>)
  {
    forall a, b :: 0 <= a < b < |paths| ==>
      FormatCacheEntryIdentifier(paths[a].name) != FormatCacheEntryIdentifier(paths[b].name)
  }

  lemma {:induction false} IndexPathsFrame(ix: Index, node: Node, paths: seq<IdentifierPath>, q: seq<string>)
    requires |q| > 0
    requires forall k :: k in PathKeys(node, paths) ==> Unrelated(k, q)
    ensures GetValueByPath(IndexPaths(ix, node, paths), q) == GetValueByPath(ix, q)
    decreases |paths|
  {
    if paths != [] {
      var init := paths[..|paths| - 1];
      assert forall k :: k in PathKeys(node, init) ==> k in PathKeys(node, paths);
      IndexPathsFrame(ix, node, init, q);
      match KeyOf(node, paths[|paths| - 1])
      case None =>
      case Some(key) =>
        assert key in PathKeys(node, paths);
        KeyOfSpec(node, paths[|paths| - 1]);
        CacheEntryOutcomes(IndexPaths(ix, node, init), node, key);
    }
  }

  /**
   * initializeSystemNode touches only its own keys: a path unrelated to
   * every key the node derives reads the same before and after.
   */
  lemma IndexNodeFrame(ix: Index, node: Node, q: seq<string>)
    requires |q| > 0
    requires forall k :: k in NodeKeys(node) ==> Unrelated(k, q)
    ensures GetValueByPath(IndexNode(ix, node), q) == GetValueByPath(ix, q)
  {
    if node.nodeType.paths != [] {
      IndexPathsFrame(ix, node, node.nodeType.paths, q);
    } else {
      assert [node.nodeType.name] in NodeKeys(node);
      CacheEntryOutcomes(ix, node, [node.nodeType.name]);
    }
  }

  lemma {:induction false} IndexPathsStores(ix: Index, node: Node, paths: seq<IdentifierPath>, j: nat)
    requires j < |paths| && DistinctPathNames(paths)
    requires KeyOf(node, paths[j]).Some? && CachedIdentifier(node).Some?
    ensures GetValueByPath(IndexPaths(ix, node, paths), KeyOf(node, paths[j]).value) ==
      Some(Leaf(CachedIdentifier(node).value))
    decreases |paths|
  {
    var init := paths[..|paths| - 1];
    var last := paths[|paths| - 1];
    var key := KeyOf(node, paths[j]).value;
    KeyOfSpec(node, paths[j]);
    if j == |paths| - 1 {
      CacheEntryOutcomes(IndexPaths(ix, node, init), node, key);
    } else {
      assert init[j] == paths[j];
      IndexPathsStores(ix, node, init, j);
      match KeyOf(node, last)
      case None =>
      case Some(other) =>
        KeyOfSpec(node, last);
        assert other[1] != key[1];
        assert Unrelated(other, key);
        CacheEntryOutcomes(IndexPaths(ix, node, init), node, other);
    }
  }

  /**
   * Each configured path is handled on its own: every path that resolves is
   * found under its key afterwards (a path that does not resolve is skipped
   * and does not stop the others), provided the formatted path names differ.
   */
  lemma IndexNodeStoresEachKey(ix: Index, node: Node, j: nat)
    requires j < |node.nodeType.paths| && DistinctPathNames(node.nodeType.paths)
    requires KeyOf(node, node.nodeType.paths[j]).Some? && CachedIdentifier(node).Some?
    ensures GetValueByPath(IndexNode(ix, node), KeyOf(node, node.nodeType.paths[j]).value) ==
      Some(Leaf(CachedIdentifier(node).value))
  {
    IndexPathsStores(ix, node, node.nodeType.paths, j);
  }

  // ---------------------------------------------------- rebuild (initializeSystemNodes)

  /** The index a rebuild produces from the scanned nodes, starting from an empty index. */
  function Rebuild(scan: seq<Node>): Index
    decreases |scan|
  {
    if scan == [] then map[] else IndexNode(Rebuild(scan[..|scan| - 1]), scan[|scan| - 1])
  }

  // ------------------------------------------ removal by value (refreshCacheIfNecessary)

  /** The tree with every leaf equal to `id` dropped; emptied levels stay. */
  function Purge(t: Tree, id: string): Tree
    decreases t, 1
  {
    match t
    case Leaf(_) => t
    case Branch(c) => Branch(RemoveValue(c, id))
  }

  function RemoveValue(m: Index, id: string): Index
    decreases Branch(m), 0
  {
    map k | k in m && m[k] != Leaf(id) :: Purge(m[k], id)
  }

  /** Where the walk over one level stands: the keys in `done` are purged, the others untouched. */
  function Partial(items: Index, done: set<string>, id: string): Index
  {
    map k | k in items && !(k in done && items[k] == Leaf(id)) ::
      if k in done then Purge(items[k], id) else items[k]
  }

  /** One step of the walk: handling `key` changes the level only at `key`. */
  lemma PartialStep(items: Index, done: set<string>, key: string, id: string)
    requires key in items && key !in done
    ensures items[key].Branch? ==>
      Partial(items, done, id)[key := Purge(items[key], id)] == Partial(items, done + {key}, id)
    ensures items[key] == Leaf(id) ==>
      Partial(items, done, id) - {key} == Partial(items, done + {key}, id)
    ensures items[key].Leaf? && items[key] != Leaf(id) ==>
      Partial(items, done, id) == Partial(items, done + {key}, id)
  {
  }

  /** The walk starts from the level itself and ends at its purged form. */
  lemma PartialEnds(items: Index, id: string)
    ensures Partial(items, {}, id) == items
    ensures Partial(items, items.Keys, id) == RemoveValue(items, id)
  {
  }

  /**
   * After removal no path holds a leaf equal to `id`: the path of a removed
   * leaf misses, as does every path that missed before; a leaf holding any
   * other value is found at the same path exactly when it was there before;
   * and an inner level stays an inner level (nothing is pruned).
   */
  lemma {:induction false} RemoveValueSpec(m: Index, id: string, p: seq<string>)
    requires |p| > 0
    ensures GetValueByPath(RemoveValue(m, id), p) != Some(Leaf(id))
    ensures GetValueByPath(m, p) == None || GetValueByPath(m, p) == Some(Leaf(id)) ==>
      GetValueByPath(RemoveValue(m, id), p) == None
    ensures forall v :: v != id ==>
      (GetValueByPath(RemoveValue(m, id), p) == Some(Leaf(v)) <==> GetValueByPath(m, p) == Some(Leaf(v)))
    ensures forall c :: GetValueByPath(m, p) == Some(Branch(c)) ==>
      GetValueByPath(RemoveValue(m, id), p) == Some(Branch(RemoveValue(c, id)))
    decreases |p|
  {
    if |p| > 1 && p[0] in m && m[p[0]].Branch? {
      RemoveValueSpec(m[p[0]].children, id, p[1..]);
    }
  }

  // ------------------------------------------------------- composite properties

  /**
   * A refresh (removal of the node's identifier, then re-indexing the node)
   * leaves every path unrelated to the node's current keys without a leaf
   * equal to the node's identifier: such a path that held one, or held
   * nothing, now misses; and a leaf holding another value stays there.
   */
  lemma RefreshOutcome(ix: Index, node: Node, q: seq<string>, v: string)
    requires |q| > 0
    requires forall k :: k in NodeKeys(node) ==> Unrelated(k, q)
    ensures GetValueByPath(IndexNode(RemoveValue(ix, node.identifier), node), q) != Some(Leaf(node.identifier))
    ensures GetValueByPath(ix, q) == None || GetValueByPath(ix, q) == Some(Leaf(node.identifier)) ==>
      GetValueByPath(IndexNode(RemoveValue(ix, node.identifier), node), q) == None
    ensures v != node.identifier && GetValueByPath(ix, q) == Some(Leaf(v)) ==>
      GetValueByPath(IndexNode(RemoveValue(ix, node.identifier), node), q) == Some(Leaf(v))
  {
    IndexNodeFrame(RemoveValue(ix, node.identifier), node, q);
    RemoveValueSpec(ix, node.identifier, q);
  }

  /** After a refresh every current key of a resolvable path holds the stored identifier. */
  lemma RefreshStoresEachKey(ix: Index, node: Node, j: nat)
    requires j < |node.nodeType.paths| && DistinctPathNames(node.nodeType.paths)
    requires KeyOf(node, node.nodeType.paths[j]).Some? && CachedIdentifier(node).Some?
    ensures GetValueByPath(IndexNode(RemoveValue(ix, node.identifier), node),
      KeyOf(node, node.nodeType.paths[j]).value) == Some(Leaf(CachedIdentifier(node).value))
  {
    IndexNodeStoresEachKey(RemoveValue(ix, node.identifier), node, j);
  }

  /**
   * For a node whose type redirects to an ancestor, the index holds the
   * ancestor's identifier, but a refresh removes only leaves equal to the
   * node's own identifier: a key the node no longer derives keeps pointing
   * at the ancestor.
   */
  lemma RedirectedKeySurvivesRefresh(ix: Index, node: Node, q: seq<string>)
    requires RedirectsToAncestor(node) && node.closestAncestor.Some?
    requires node.closestAncestor.value != node.identifier
    requires |q| > 0 && GetValueByPath(ix, q) == Some(Leaf(node.closestAncestor.value))
    requires forall k :: k in NodeKeys(node) ==> Unrelated(k, q)
    ensures GetValueByPath(IndexNode(RemoveValue(ix, node.identifier), node), q) ==
      Some(Leaf(node.closestAncestor.value))
  {
    RefreshOutcome(ix, node, q, node.closestAncestor.value);
  }

  // ------------------------------------------------------------------ the class

  class SystemNodeService {
    /** $systemNodeIdentifiers */
    var index: Index
    /** The cache slot 'systemNodeIdentifiers'; None when the cache has no entry. */
    var persisted: Option<Index>

    /** A fresh service (empty index) whose cache slot holds `slot` (setCache). */
    constructor (slot: Option<Index>)
      ensures index == map[] && persisted == slot
    {
      index := map[];
      persisted := slot;
    }

    /** The slot is read as truthy when it holds a non-empty array. */
    predicate SlotIsTruthy()
      reads this
    {
      persisted.Some? && persisted.value != map[]
    }

    /** initializeObject: load a truthy slot verbatim, otherwise rebuild from the scan. */
    method InitializeObject(scan: seq<Node>)
      modifies this
      ensures old(SlotIsTruthy()) ==> index == old(persisted).value && persisted == old(persisted)
      ensures !old(SlotIsTruthy()) ==> index == Rebuild(scan) && persisted == Some(index)
    {
      if !SlotIsTruthy() {
        InitializeSystemNodes(scan);
      } else {
        index := persisted.value;
      }
    }

    /**
     * initializeSystemNodes: reset the index, index every scanned node in
     * order, persist. The result depends on the scan alone, so two rebuilds
     * over the same scan agree whatever the index held before.
     */
    method InitializeSystemNodes(scan: seq<Node>)
      modifies this
      ensures index == Rebuild(scan) && persisted == Some(Rebuild(scan))
    {
      index := map[];
      for i := 0 to |scan|
        invariant index == Rebuild(scan[..i])
      {
        assert scan[..i + 1][..i] == scan[..i];
        InitializeSystemNode(scan[i]);
      }
      assert scan[..|scan|] == scan;
      persisted := Some(index);
    }

    /** initializeSystemNode: each configured path on its own, or the raw type name alone. */
    method InitializeSystemNode(node: Node)
      modifies this
      ensures index == IndexNode(old(index), node) && persisted == old(persisted)
    {
      var paths := node.nodeType.paths;
      if paths != [] {
        for i := 0 to |paths|
          invariant index == IndexPaths(old(index), node, paths[..i]) && persisted == old(persisted)
        {
          assert paths[..i + 1][..i] == paths[..i];
          var identifierValues := ResolveIdentifierValues(node, paths[i]);
          if identifierValues.None? {
            continue;
          }
          CacheSystemNode(node, identifierValues.value);
        }
        assert paths[..|paths|] == paths;
      } else {
        CacheSystemNode(node, [node.nodeType.name]);
      }
    }

    /** resolveIdentifierValues: the key for one path, built segment by segment with an early null. */
    method ResolveIdentifierValues(node: Node, path: IdentifierPath) returns (r: Option<seq<string>>)
      ensures r == KeyOf(node, path)
    {
      var props := path.properties;
      ghost var head := [TypeSegment(node), FormatCacheEntryIdentifier(path.name)];
      var identifierValues := [TypeSegment(node), FormatCacheEntryIdentifier(path.name)];
      var i := 0;
      assert props[..0] == [];
      while i < |props|
        invariant 0 <= i <= |props|
        invariant PropertySegments(node, props[..i]).Some?
        invariant identifierValues == head + PropertySegments(node, props[..i]).value
      {
        var p := props[i];
        var identifierValue: Option<string> :=
          if p.active then Some(FormatCacheEntryIdentifier(PropertyValue(node, p.name))) else None;
        if identifierValue.None? || !Truthy(identifierValue.value) {
          UnresolvedPropertyStopsKey(node, path, i);
          return None;
        }
        PropertySegmentsExtend(node, props, i);
        identifierValues := identifierValues + [identifierValue.value];
        i := i + 1;
      }
      assert props[..i] == props;
      r := Some(identifierValues);
    }

    /** cacheSystemNode: store the (possibly redirected) identifier under the key. */
    method CacheSystemNode(node: Node, identifierValues: seq<string>)
      modifies this
      ensures index == CacheEntry(old(index), node, identifierValues) && persisted == old(persisted)
    {
      var target: Option<string> := Some(node.identifier);
      if RedirectsToAncestor(node) {
        target := node.closestAncestor;
      }
      if target.Some? {
        index := SetValueByPath(index, Norm(identifierValues), Leaf(target.value));
      }
    }

    /** getSystemNodeIdentifier: the lookup of the formatted path. */
    function GetSystemNodeIdentifier(identifier: seq<string>): Option<Tree>
      reads this
    {
      GetValueByPath(index, Norm(FormatPath(identifier)))
    }

    /**
     * getSystemNode: the node `deref` (the content context's
     * getNodeByIdentifier) yields for what the lookup finds; null on a miss.
     */
    function GetSystemNode<N>(identifier: seq<string>, deref: Tree -> Option<N>): Option<N>
      reads this
    {
      var found := GetSystemNodeIdentifier(identifier);
      if found.Some? then deref(found.value) else None
    }

    /**
     * getSystemNodes: one entry per key one level below the formatted path,
     * each holding what `deref` yields for the value there; empty unless the
     * path leads to an inner level.
     */
    function GetSystemNodes<N>(identifier: seq<string>, deref: Tree -> Option<N>): (r: map<string, Option<N>>)
      reads this
      ensures forall k ::
        k in r <==> GetValueByPath(index, Norm(FormatPath(identifier)) + [k]).Some?
      ensures forall k :: k in r ==>
        r[k] == deref(GetValueByPath(index, Norm(FormatPath(identifier)) + [k]).value)
    {
      var found := GetSystemNodeIdentifier(identifier);
      var r := if found.Some? && found.value.Branch? then
        map k | k in found.value.children :: deref(found.value.children[k])
      else map[];
      ChildrenOf(index, Norm(FormatPath(identifier)));
      r
    }

    /**
     * refreshCacheIfNecessary: for a node of the SystemNode type, remove every
     * leaf equal to its identifier, re-derive and insert its keys (also for a
     * node that has been removed from the tree), and persist; otherwise nothing.
     */
    method RefreshCacheIfNecessary(node: Node)
      modifies this
      ensures !node.nodeType.isSystemNode ==> index == old(index) && persisted == old(persisted)
      ensures node.nodeType.isSystemNode ==>
        index == IndexNode(RemoveValue(old(index), node.identifier), node) && persisted == Some(index)
    {
      if node.nodeType.isSystemNode {
        RemoveLeavesEqualTo(index, [], node.identifier);
        InitializeSystemNode(node);
        persisted := Some(index);
      }
    }

    /**
     * The recursive iterator of refreshCacheIfNecessary: walks a snapshot of
     * the level at `currentPath`, descends into inner levels, and unsets on
     * the live index every leaf equal to `id`.
     */
    method RemoveLeavesEqualTo(items: Index, currentPath: seq<string>, id: string)
      requires SubtreeAt(index, currentPath) == Some(items)
      modifies this
      ensures index == ReplaceAt(old(index), currentPath, RemoveValue(items, id))
      ensures persisted == old(persisted)
      decreases Branch(items)
    {
      var pending := items.Keys;
      ghost var done: set<string> := {};
      PartialEnds(items, id);
      ReplaceWithItself(old(index), currentPath);
      while pending != {}
        invariant pending !! done && pending + done == items.Keys
        invariant index == ReplaceAt(old(index), currentPath, Partial(items, done, id))
        invariant persisted == old(persisted)
        decreases pending
      {
        var key :| key in pending;
        ReplaceThenSubtree(old(index), currentPath, Partial(items, done, id), Partial(items, done + {key}, id));
        PartialStep(items, done, key, id);
        match items[key] {
        case Branch(c) =>
          DescendIntoBranch(index, currentPath, key, RemoveValue(c, id));
          RemoveLeavesEqualTo(c, currentPath + [key], id);
        case Leaf(v) =>
          if v == id {
            UnsetBelow(index, currentPath, key);
            index := UnsetValueByPath(index, currentPath + [key]);
          }
        }
        pending := pending - {key};
        done := done + {key};
      }
    }
  }

  // ------------------------------------------------------ lookups on the service

  /** Looking up a path and looking up its formatted version give the same result. */
  lemma LookupIgnoresFormatting(s: SystemNodeService, identifier: seq<string>)
    ensures s.GetSystemNodeIdentifier(FormatPath(identifier)) == s.GetSystemNodeIdentifier(identifier)
  {
    FormatPathIdempotent(identifier);
  }

  /**
   * Right after cacheSystemNode has stored a node under a key derived by
   * resolveIdentifierValues, looking that key up finds the stored identifier.
   */
  lemma JustCachedKeyIsFound(s: SystemNodeService, ix: Index, node: Node, path: IdentifierPath)
    requires KeyOf(node, path).Some? && CachedIdentifier(node).Some?
    requires s.index == CacheEntry(ix, node, KeyOf(node, path).value)
    ensures s.GetSystemNodeIdentifier(KeyOf(node, path).value) == Some(Leaf(CachedIdentifier(node).value))
  {
    KeyOfIsFormatted(node, path);
    KeyOfSpec(node, path);
    CacheEntryOutcomes(ix, node, KeyOf(node, path).value);
  }

  /**
   * A key that resolveIdentifierValues derives for a configured path, once
   * the node is indexed, looks up to the stored identifier (when no two
   * configured path names format alike).
   */
  lemma InsertedKeyIsFound(s: SystemNodeService, ix: Index, node: Node, j: nat)
    requires j < |node.nodeType.paths| && DistinctPathNames(node.nodeType.paths)
    requires KeyOf(node, node.nodeType.paths[j]).Some? && CachedIdentifier(node).Some?
    requires s.index == IndexNode(ix, node)
    ensures s.GetSystemNodeIdentifier(KeyOf(node, node.nodeType.paths[j]).value) ==
      Some(Leaf(CachedIdentifier(node).value))
  {
    var key := KeyOf(node, node.nodeType.paths[j]).value;
    KeyOfIsFormatted(node, node.nodeType.paths[j]);
    KeyOfSpec(node, node.nodeType.paths[j]);
    IndexNodeStoresEachKey(ix, node, j);
  }

  /**
   * getSystemNode finds the same node for a path and for its formatted
   * version, and for a derived key of an indexed node (when no two
   * configured path names format alike) it yields what the dereference
   * gives for the stored identifier.
   */
  lemma GetSystemNodeSpec<N>(s: SystemNodeService, identifier: seq<string>, deref: Tree -> Option<N>)
    ensures s.GetSystemNode(FormatPath(identifier), deref) == s.GetSystemNode(identifier, deref)
    ensures forall ix: Index, node: Node, j: nat ::
      && j < |node.nodeType.paths| && DistinctPathNames(node.nodeType.paths)
      && KeyOf(node, node.nodeType.paths[j]).Some? && CachedIdentifier(node).Some?
      && s.index == IndexNode(ix, node)
      && identifier == KeyOf(node, node.nodeType.paths[j]).value
      ==> s.GetSystemNode(identifier, deref) == deref(Leaf(CachedIdentifier(node).value))
  {
    LookupIgnoresFormatting(s, identifier);
    forall ix: Index, node: Node, j: nat |
      && j < |node.nodeType.paths| && DistinctPathNames(node.nodeType.paths)
      && KeyOf(node, node.nodeType.paths[j]).Some? && CachedIdentifier(node).Some?
      && s.index == IndexNode(ix, node)
      && identifier == KeyOf(node, node.nodeType.paths[j]).value
      ensures s.GetSystemNode(identifier, deref) == deref(Leaf(CachedIdentifier(node).value))
    {
      InsertedKeyIsFound(s, ix, node, j);
    }
  }

  /**
   * A node type without paths is stored under its raw name, but lookups
   * format their input: in an index built from that node alone, when
   * formatting changes the name (any type name holding `.`, `:`, `\` or
   * `|`), the lookup by that name misses.
   */
  lemma SingletonLookupMisses(s: SystemNodeService, node: Node)
    requires node.nodeType.paths == [] && CachedIdentifier(node).Some?
    requires FormatCacheEntryIdentifier(node.nodeType.name) != node.nodeType.name
    requires s.index == Rebuild([node])
    ensures GetValueByPath(s.index, [node.nodeType.name]) == Some(Leaf(CachedIdentifier(node).value))
    ensures s.GetSystemNodeIdentifier([node.nodeType.name]) == None
  {
    assert [node][..0] == [];
    CacheEntryOutcomes(map[], node, [node.nodeType.name]);
    assert FormatPath([node.nodeType.name]) == [FormatCacheEntryIdentifier(node.nodeType.name)];
  }

  /**
   * In any index, indexing a node type without paths stores the node under
   * its raw name, while the lookup by that name reads only what other nodes
   * stored at the formatted name, never this node's entry.
   */
  lemma RawNameReadsFormattedSlot(s: SystemNodeService, ix: Index, node: Node)
    requires node.nodeType.paths == [] && CachedIdentifier(node).Some?
    requires FormatCacheEntryIdentifier(node.nodeType.name) != node.nodeType.name
    requires s.index == IndexNode(ix, node)
    ensures GetValueByPath(s.index, [node.nodeType.name]) == Some(Leaf(CachedIdentifier(node).value))
    ensures s.GetSystemNodeIdentifier([node.nodeType.name]) ==
      GetValueByPath(ix, [FormatCacheEntryIdentifier(node.nodeType.name)])
  {
    var name := node.nodeType.name;
    CacheEntryOutcomes(ix, node, [name]);
    assert FormatPath([name]) == [FormatCacheEntryIdentifier(name)];
    assert Unrelated([name], [FormatCacheEntryIdentifier(name)]);
  }

  /**
   * A rebuild persisted and then loaded at the next start gives the same
   * index, unless the rebuild found nothing (an empty slot is falsy and the
   * next start rebuilds again).
   */
  method RestartAfterRebuild(scan: seq<Node>, laterScan: seq<Node>) returns (built: Index, loaded: Index)
    ensures built == Rebuild(scan)
    ensures built != map[] ==> loaded == built
    ensures built == map[] ==> loaded == Rebuild(laterScan)
  {
    var first := new SystemNodeService(None);
    first.InitializeSystemNodes(scan);
    built := first.index;
    var second := new SystemNodeService(first.persisted);
    second.InitializeObject(laterScan);
    loaded := second.index;
  }
}
