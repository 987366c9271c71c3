/**
 * Key derivation of the system node service: the key-segment formatter,
 * the abstract view of a node that the service reads, and the key a node
 * gets for one configured identifier path.
 */
module Keys {
  import opened Wrappers

  // ---------------------------------------------------------------- formatter

  /** PHP's str_replace with one search character and one replacement. */
  function StrReplace(s: string, from: char, to: char): string
  {
    if s == [] then [] else [if s[0] == from then to else s[0]] + StrReplace(s[1..], from, to)
  }

  /** The reference mapping of one character: `.`, `:` and `\` become `-`, `|` becomes `_`. */
  function SafeChar(c: char): char
  {
    if c == '.' || c == ':' || c == '\\' then '-' else if c == '|' then '_' else c
  }

  predicate Unsafe(c: char)
  {
    c == '.' || c == ':' || c == '\\' || c == '|'
  }

  /**
   * formatCacheEntryIdentifier: str_replace with search and replacement
   * arrays, which applies the four replacements one after the other. The
   * four passes amount to replacing every character by SafeChar of it.
   */
  function FormatCacheEntryIdentifier(s: string): (r: string)
    ensures |r| == |s|
    ensures forall i {:trigger r[i]} :: 0 <= i < |s| ==> r[i] == SafeChar(s[i])
  {
    var s1 := StrReplace(s, '.', '-');
    var s2 := StrReplace(s1, ':', '-');
    var s3 := StrReplace(s2, '\\', '-');
    StrReplaceEach(s, '.', '-');
    StrReplaceEach(s1, ':', '-');
    StrReplaceEach(s2, '\\', '-');
    StrReplaceEach(s3, '|', '_');
    StrReplace(s3, '|', '_')
  }

  /** The segment-wise formatting lookups apply to their input (array_walk). */
  function FormatPath(path: seq<string>): seq<string>
  {
    seq(|path|, i requires 0 <= i < |path| => FormatCacheEntryIdentifier(path[i]))
  }

  lemma {:induction false} StrReplaceEach(s: string, from: char, to: char)
    ensures |StrReplace(s, from, to)| == |s|
    ensures forall i :: 0 <= i < |s| ==>
      StrReplace(s, from, to)[i] == if s[i] == from then to else s[i]
    decreases |s|
  {
    if s != [] {
      StrReplaceEach(s[1..], from, to);
    }
  }

  /** A formatted segment holds none of the four characters, and formatting again changes nothing. */
  lemma FormatIsSafe(s: string)
    ensures forall i :: 0 <= i < |FormatCacheEntryIdentifier(s)| ==> !Unsafe(FormatCacheEntryIdentifier(s)[i])
    ensures FormatCacheEntryIdentifier(FormatCacheEntryIdentifier(s)) == FormatCacheEntryIdentifier(s)
  {
  }

  /** A string is left unchanged exactly when it holds none of the four characters. */
  lemma FormatFixesExactlySafe(s: string)
    ensures FormatCacheEntryIdentifier(s) == s <==> forall i :: 0 <= i < |s| ==> !Unsafe(s[i])
  {
    if FormatCacheEntryIdentifier(s) == s {
      forall i | 0 <= i < |s| ensures !Unsafe(s[i]) {
        assert FormatCacheEntryIdentifier(s)[i] == SafeChar(s[i]);
      }
    }
  }

  lemma FormatPathIdempotent(path: seq<string>)
    ensures FormatPath(FormatPath(path)) == FormatPath(path)
  {
    forall i | 0 <= i < |path| ensures FormatPath(FormatPath(path))[i] == FormatPath(path)[i] {
      FormatIsSafe(path[i]);
    }
  }

  // ------------------------------------------------------------ PHP truthiness

  /** A string is truthy in PHP unless it is "" or "0". */
  predicate Truthy(s: string)
  {
    s != "" && s != "0"
  }

  /** Formatting keeps a value falsy or truthy: only "" and "0" are falsy, before and after. */
  lemma FormatKeepsTruthiness(s: string)
    ensures Truthy(FormatCacheEntryIdentifier(s)) <==> Truthy(s)
  {
    var f := FormatCacheEntryIdentifier(s);
    if |s| == 1 {
      assert f == [SafeChar(s[0])] && s == [s[0]];
    }
  }

  // --------------------------------------------------------------- node model

  /** One entry `propertyName => active` of a configured identifier path. */
  datatype PathProperty = PathProperty(name: string, active: bool)

  /** A configured identifier path: its name and its properties in order. */
  datatype IdentifierPath = IdentifierPath(name: string, properties: seq<PathProperty>)

  /**
   * The parts of a node type's configuration the service reads:
   * systemNode.nodeTypeIdentifier, systemNode.paths, systemNode.ancestorToBeResolved,
   * and whether the type is of type Nezaniel.SystemNodes:SystemNode.
   */
  datatype NodeType = NodeType(
    name: string,
    identifierOverride: Option<string>,
    paths: seq<IdentifierPath>,
    ancestorToResolve: Option<string>,
    isSystemNode: bool)

  /**
   * A node as the service sees it. `closestAncestor` is the identifier of the
   * node the content tree's closest-ancestor query yields for the configured
   * ancestor type (None when there is none).
   */
  datatype Node = Node(
    identifier: string,
    nodeType: NodeType,
    properties: map<string, string>,
    closestAncestor: Option<string>)

  /** getProperty yields null for a missing property, which formats to "". */
  function PropertyValue(node: Node, name: string): string
  {
    if name in node.properties then node.properties[name] else ""
  }

  /** The leading segment: the truthy override if configured, the type name otherwise, formatted. */
  function TypeSegment(node: Node): string
  {
    var o := node.nodeType.identifierOverride;
    FormatCacheEntryIdentifier(if o.Some? && Truthy(o.value) then o.value else node.nodeType.name)
  }

  function PropertySegment(node: Node, p: PathProperty): string
  {
    FormatCacheEntryIdentifier(PropertyValue(node, p.name))
  }

  /** A property contributes a segment when it is active and its formatted value is truthy. */
  predicate Resolves(node: Node, p: PathProperty)
  {
    p.active && Truthy(PropertySegment(node, p))
  }

  /** The property segments of a path, built left to right; None once one does not resolve. */
  function PropertySegments(node: Node, props: seq<PathProperty>): Option<seq<string>>
    decreases |props|
  {
    if props == [] then Some([])
    else
      var last := props[|props| - 1];
      match PropertySegments(node, props[..|props| - 1])
      case None => None
      case Some(vs) => if Resolves(node, last) then Some(vs + [PropertySegment(node, last)]) else None
  }

  /** The key resolveIdentifierValues derives for one identifier path. */
  function KeyOf(node: Node, path: IdentifierPath): Option<seq<string>>
  {
    match PropertySegments(node, path.properties)
    case None => None
    case Some(vs) => Some([TypeSegment(node), FormatCacheEntryIdentifier(path.name)] + vs)
  }

  lemma {:induction false} PropertySegmentsSpec(node: Node, props: seq<PathProperty>)
    ensures PropertySegments(node, props).None? <==>
      exists i :: 0 <= i < |props| && !Resolves(node, props[i])
    ensures PropertySegments(node, props).Some? ==>
      var vs := PropertySegments(node, props).value;
      |vs| == |props| && forall i :: 0 <= i < |props| ==> vs[i] == PropertySegment(node, props[i])
    decreases |props|
  {
    if props != [] {
      var init := props[..|props| - 1];
      var last := props[|props| - 1];
      PropertySegmentsSpec(node, init);
      if PropertySegments(node, init).None? {
        var i :| 0 <= i < |init| && !Resolves(node, init[i]);
        assert props[i] == init[i];
      } else if !Resolves(node, last) {
        assert PropertySegments(node, props).None?;
      } else {
        var vs := PropertySegments(node, init).value;
        var ws := vs + [PropertySegment(node, last)];
        assert PropertySegments(node, props) == Some(ws);
        forall i | 0 <= i < |props|
          ensures Resolves(node, props[i]) && ws[i] == PropertySegment(node, props[i])
        {
          if i < |init| { assert props[i] == init[i]; }
        }
      }
    }
  }

  /** Extending the properties read so far by one that resolves appends its segment. */
  lemma PropertySegmentsExtend(node: Node, props: seq<PathProperty>, i: nat)
    requires i < |props| && PropertySegments(node, props[..i]).Some? && Resolves(node, props[i])
    ensures PropertySegments(node, props[..i + 1]) ==
      Some(PropertySegments(node, props[..i]).value + [PropertySegment(node, props[i])])
  {
    assert props[..i + 1][..i] == props[..i];
  }

  /** A property that does not resolve makes the whole key unresolvable. */
  lemma UnresolvedPropertyStopsKey(node: Node, path: IdentifierPath, i: nat)
    requires i < |path.properties| && !Resolves(node, path.properties[i])
    ensures KeyOf(node, path) == None
  {
    PropertySegmentsSpec(node, path.properties);
  }

  /**
   * resolveIdentifierValues yields null exactly when some listed property is
   * inactive or formats to a falsy value; otherwise the override-or-type
   * segment, the path-name segment and one segment per property, in order.
   */
  lemma KeyOfSpec(node: Node, path: IdentifierPath)
    ensures KeyOf(node, path).None? <==>
      exists i :: 0 <= i < |path.properties| && !Resolves(node, path.properties[i])
    ensures KeyOf(node, path).Some? ==>
      var k := KeyOf(node, path).value;
      && |k| == 2 + |path.properties|
      && k[0] == TypeSegment(node)
      && k[1] == FormatCacheEntryIdentifier(path.name)
      && forall i :: 0 <= i < |path.properties| ==> k[2 + i] == PropertySegment(node, path.properties[i])
  {
    PropertySegmentsSpec(node, path.properties);
  }

  /** Every segment of a derived key is already formatted. */
  lemma KeyOfIsFormatted(node: Node, path: IdentifierPath)
    requires KeyOf(node, path).Some?
    ensures FormatPath(KeyOf(node, path).value) == KeyOf(node, path).value
  {
    var k := KeyOf(node, path).value;
    KeyOfSpec(node, path);
    forall i | 0 <= i < |k| ensures FormatPath(k)[i] == k[i] {
      if i == 0 {
        var o := node.nodeType.identifierOverride;
        FormatIsSafe(if o.Some? && Truthy(o.value) then o.value else node.nodeType.name);
      } else if i == 1 {
        FormatIsSafe(path.name);
      } else {
        FormatIsSafe(PropertyValue(node, path.properties[i - 2].name));
      }
    }
  }
}
