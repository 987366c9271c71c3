/**
 * The nested PHP array the service keeps its index in, and the three path
 * operations it uses on it (getValueByPath, setValueByPath and
 * unsetValueByPath of Flow's utility class Arrays).
 *
 * A leaf holds a node identifier; an inner level is a map from key segment
 * to subtree. PHP reads an empty key path as the single key "" (array_shift
 * of [] is null, and null indexes an array as ""); `Norm` says so, and the
 * three path operations take the normalised, non-empty path.
 */
module Arrays {
  import opened Wrappers

  datatype Tree = Leaf(id: string) | Branch(children: map<string, Tree>)

  /** The top level of the index is always an array. */
  type Index = map<string, Tree>

  /** The key path PHP actually walks for `path`. */
  function Norm(path: seq<string>): seq<string>
  {
    if path == [] then [""] else path
  }

  /** Neither path is a prefix of the other: they part ways at some segment. */
  predicate Unrelated(p: seq<string>, q: seq<string>)
  {
    !(p <= q) && !(q <= p)
  }

  /**
   * getValueByPath: the value at the path, a subtree when the path ends at an
   * inner level, None when a segment is missing or the path runs through a leaf.
   */
  function GetValueByPath(m: Index, path: seq<string>): Option<Tree>
    requires |path| > 0
    decreases |path|
  {
    var key := path[0];
    if key !in m then None
    else if |path| == 1 then Some(m[key])
    else match m[key]
      case Leaf(_) => None
      case Branch(c) => GetValueByPath(c, path[1..])
  }

  /**
   * setValueByPath: creates missing levels, replaces a leaf met on the way
   * by an empty level, and overwrites the value at the path.
   */
  function SetValueByPath(m: Index, path: seq<string>, v: Tree): Index
    requires |path| > 0
    decreases |path|
  {
    var key := path[0];
    if |path| == 1 then m[key := v]
    else
      var sub := if key in m && m[key].Branch? then m[key].children else map[];
      m[key := Branch(SetValueByPath(sub, path[1..], v))]
  }

  /**
   * unsetValueByPath: removes the final key only; a path that is missing or
   * runs through a leaf leaves the array as it is, and emptied levels stay.
   */
  function UnsetValueByPath(m: Index, path: seq<string>): Index
    requires |path| > 0
    decreases |path|
  {
    var key := path[0];
    if |path| == 1 then m - {key}
    else if key !in m || m[key].Leaf? then m
    else m[key := Branch(UnsetValueByPath(m[key].children, path[1..]))]
  }

  lemma {:induction false} SetThenGet(m: Index, p: seq<string>, v: Tree)
    requires |p| > 0
    ensures GetValueByPath(SetValueByPath(m, p, v), p) == Some(v)
    decreases |p|
  {
    if |p| > 1 {
      var sub := if p[0] in m && m[p[0]].Branch? then m[p[0]].children else map[];
      SetThenGet(sub, p[1..], v);
    }
  }

  lemma {:induction false} SetKeepsUnrelated(m: Index, p: seq<string>, q: seq<string>, v: Tree)
    requires |p| > 0 && |q| > 0 && Unrelated(p, q)
    ensures GetValueByPath(SetValueByPath(m, p, v), q) == GetValueByPath(m, q)
    decreases |p|
  {
    if p[0] == q[0] {
      SameHeadUnrelated(p, q);
      var sub := if p[0] in m && m[p[0]].Branch? then m[p[0]].children else map[];
      SetKeepsUnrelated(sub, p[1..], q[1..], v);
    }
  }

  /** Two unrelated paths that share their first segment both go deeper and stay unrelated. */
  lemma SameHeadUnrelated(p: seq<string>, q: seq<string>)
    requires |p| > 0 && |q| > 0 && Unrelated(p, q) && p[0] == q[0]
    ensures |p| > 1 && |q| > 1 && Unrelated(p[1..], q[1..])
  {
  }

  lemma {:induction false} UnsetThenGet(m: Index, p: seq<string>)
    requires |p| > 0
    ensures GetValueByPath(UnsetValueByPath(m, p), p) == None
    decreases |p|
  {
    if |p| > 1 && p[0] in m && m[p[0]].Branch? {
      UnsetThenGet(m[p[0]].children, p[1..]);
    }
  }

  lemma {:induction false} UnsetKeepsUnrelated(m: Index, p: seq<string>, q: seq<string>)
    requires |p| > 0 && |q| > 0 && Unrelated(p, q)
    ensures GetValueByPath(UnsetValueByPath(m, p), q) == GetValueByPath(m, q)
    decreases |p|
  {
    if p[0] == q[0] {
      SameHeadUnrelated(p, q);
      if p[0] in m && m[p[0]].Branch? {
        UnsetKeepsUnrelated(m[p[0]].children, p[1..], q[1..]);
      }
    }
  }

  /** The value under key `k` of a lookup result that is an inner level. */
  function ChildAt(found: Option<Tree>, k: string): Option<Tree>
  {
    if found.Some? && found.value.Branch? && k in found.value.children then Some(found.value.children[k]) else None
  }

  /**
   * Looking one segment further: found only below an inner level that has
   * the key; a missing segment or a leaf on the way gives None.
   */
  lemma {:induction false} GetOneDeeper(m: Index, p: seq<string>, k: string)
    requires |p| > 0
    ensures GetValueByPath(m, p + [k]) == ChildAt(GetValueByPath(m, p), k)
    decreases |p|
  {
    assert (p + [k])[0] == p[0];
    if |p| > 1 {
      assert (p + [k])[1..] == p[1..] + [k];
      if p[0] in m && m[p[0]].Branch? {
        GetOneDeeper(m[p[0]].children, p[1..], k);
      }
    } else {
      assert (p + [k])[1..] == [k];
    }
  }

  lemma ChildrenOf(m: Index, p: seq<string>)
    requires |p| > 0
    ensures forall k :: GetValueByPath(m, p + [k]) == ChildAt(GetValueByPath(m, p), k)
  {
    forall k ensures GetValueByPath(m, p + [k]) == ChildAt(GetValueByPath(m, p), k)
    {
      GetOneDeeper(m, p, k);
    }
  }

  /** A path that misses or runs through a leaf misses for every extension too. */
  lemma {:induction false} MissExtends(m: Index, p: seq<string>, q: seq<string>)
    requires |p| > 0
    requires GetValueByPath(m, p).None? || GetValueByPath(m, p).value.Leaf?
    ensures GetValueByPath(m, p + q) == if q == [] then GetValueByPath(m, p) else None
    decreases |q|
  {
    if q != [] {
      var q' := q[..|q| - 1];
      assert p + q == (p + q') + [q[|q| - 1]];
      MissExtends(m, p, q');
      GetOneDeeper(m, p + q', q[|q| - 1]);
    } else {
      assert p + q == p;
    }
  }

  // The inner level at a (possibly empty) path, and replacing it; these
  // describe where the removal walk stands in the index.

  function SubtreeAt(m: Index, path: seq<string>): Option<Index>
    decreases |path|
  {
    if path == [] then Some(m)
    else if path[0] in m && m[path[0]].Branch? then SubtreeAt(m[path[0]].children, path[1..])
    else None
  }

  function ReplaceAt(m: Index, path: seq<string>, s: Index): Index
    requires SubtreeAt(m, path).Some?
    decreases |path|
  {
    if path == [] then s
    else m[path[0] := Branch(ReplaceAt(m[path[0]].children, path[1..], s))]
  }

  lemma {:induction false} ReplaceThenSubtree(m: Index, path: seq<string>, s: Index, s': Index)
    requires SubtreeAt(m, path).Some?
    ensures SubtreeAt(ReplaceAt(m, path, s), path) == Some(s)
    ensures ReplaceAt(ReplaceAt(m, path, s), path, s') == ReplaceAt(m, path, s')
    decreases |path|
  {
    if path != [] {
      ReplaceThenSubtree(m[path[0]].children, path[1..], s, s');
    }
  }

  lemma {:induction false} ReplaceWithItself(m: Index, path: seq<string>)
    requires SubtreeAt(m, path).Some?
    ensures ReplaceAt(m, path, SubtreeAt(m, path).value) == m
    decreases |path|
  {
    if path != [] {
      ReplaceWithItself(m[path[0]].children, path[1..]);
    }
  }

  lemma {:induction false} DescendIntoBranch(m: Index, path: seq<string>, k: string, x: Index)
    requires SubtreeAt(m, path).Some?
    requires k in SubtreeAt(m, path).value && SubtreeAt(m, path).value[k].Branch?
    ensures SubtreeAt(m, path + [k]) == Some(SubtreeAt(m, path).value[k].children)
    ensures ReplaceAt(m, path + [k], x) ==
      ReplaceAt(m, path, SubtreeAt(m, path).value[k := Branch(x)])
    decreases |path|
  {
    if path == [] {
      assert [] + [k] == [k];
    } else {
      assert (path + [k])[0] == path[0];
      assert (path + [k])[1..] == path[1..] + [k];
      DescendIntoBranch(m[path[0]].children, path[1..], k, x);
    }
  }

  lemma {:induction false} UnsetBelow(m: Index, path: seq<string>, k: string)
    requires SubtreeAt(m, path).Some?
    ensures UnsetValueByPath(m, path + [k]) == ReplaceAt(m, path, SubtreeAt(m, path).value - {k})
    decreases |path|
  {
    if path == [] {
      assert [] + [k] == [k];
    } else {
      assert (path + [k])[0] == path[0];
      assert (path + [k])[1..] == path[1..] + [k];
      UnsetBelow(m[path[0]].children, path[1..], k);
    }
  }
}
