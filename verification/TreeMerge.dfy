/** The recursive update of utils/smap/smap.go as a merge of two trees. */
module TreeMerge {
  import opened Options
  import opened Trees

  function MergeEntry(kids: Kids, updates: Kids, overwrite: bool, k: string): Tree
    requires k in kids || k in updates
    decreases Dir(updates), 0
  {
    if k !in updates then kids[k]
    else if k !in kids then updates[k]
    else match updates[k]
      case Leaf(_) => if overwrite then updates[k] else kids[k]
      case Dir(sub) => if kids[k].Dir? then Dir(Merge(kids[k].kids, sub, overwrite)) else updates[k]
  }

  function Merge(kids: Kids, updates: Kids, overwrite: bool): Kids
    decreases Dir(updates), 1
  {
    map k | k in kids.Keys + updates.Keys :: MergeEntry(kids, updates, overwrite, k)
  }

  /** The effect of one key of the update. */
  function UpdatedEntry(kids: Kids, k: string, update: Tree, overwrite: bool): Kids {
    match update
    case Leaf(_) => if overwrite || k !in kids then kids[k := update] else kids
    case Dir(sub) =>
      kids[k := if k in kids && kids[k].Dir? then Dir(Merge(kids[k].kids, sub, overwrite)) else update]
  }

  /** The merge as far as the keys `done` go, in whatever order they were taken. */
  function PartlyMerged(kids: Kids, updates: Kids, overwrite: bool, done: set<string>): Kids
    requires done <= updates.Keys
  {
    map k | k in kids.Keys + done :: if k in done then MergeEntry(kids, updates, overwrite, k) else kids[k]
  }

  lemma PartlyMergedEnds(kids: Kids, updates: Kids, overwrite: bool)
    ensures PartlyMerged(kids, updates, overwrite, {}) == kids
    ensures PartlyMerged(kids, updates, overwrite, updates.Keys) == Merge(kids, updates, overwrite)
  {
  }

  lemma PartlyMergedStep(kids: Kids, updates: Kids, overwrite: bool, done: set<string>, k: string)
    requires done <= updates.Keys && k in updates && k !in done
    ensures UpdatedEntry(PartlyMerged(kids, updates, overwrite, done), k, updates[k], overwrite)
         == PartlyMerged(kids, updates, overwrite, done + {k})
  {
  }

  function Restrict(kids: Kids, keys: set<string>): Kids
    requires keys <= kids.Keys
  {
    map k | k in keys :: kids[k]
  }

  lemma RestrictStep(kids: Kids, keys: set<string>, k: string)
    requires keys <= kids.Keys && k in kids
    ensures Restrict(kids, keys)[k := kids[k]] == Restrict(kids, keys + {k})
  {
  }

  // ---------- Reading by path ----------

  /** What is at the end of a path of keys. */
  function At(tree: Tree, path: seq<string>): Option<Tree>
    decreases path
  {
    if path == [] then Some(tree)
    else if tree.Dir? && path[0] in tree.kids then At(tree.kids[path[0]], path[1..])
    else None
  }

  function LeafAt(tree: Tree, path: seq<string>): Option<int> {
    match At(tree, path)
    case Some(Leaf(value)) => Some(value)
    case _ => None
  }

  /** A leaf ends every path that goes through it. */
  predicate LeafAbove(tree: Tree, path: seq<string>)
    decreases path
  {
    tree.Leaf? || (path != [] && path[0] in tree.kids && LeafAbove(tree.kids[path[0]], path[1..]))
  }

  lemma LeafEnds(tree: Tree, path: seq<string>)
    ensures tree.Leaf? ==> At(tree, path) == (if path == [] then Some(tree) else None) && LeafAbove(tree, path)
  {
  }

  /** The leaves of an overwriting merge: those of the source, and those of the target whose path the source
      does not touch. */
  lemma {:induction false} OverwritingMergeLeaves(kids: Kids, updates: Kids, path: seq<string>)
    ensures LeafAt(Dir(Merge(kids, updates, true)), path)
         == if At(Dir(updates), path).Some? || LeafAbove(Dir(updates), path) then LeafAt(Dir(updates), path)
            else LeafAt(Dir(kids), path)
    decreases Dir(updates)
  {
    if path != [] {
      var k, rest := path[0], path[1..];
      var merged := Merge(kids, updates, true);
      assert k in merged <==> k in kids || k in updates;
      if k in merged {
        assert merged[k] == MergeEntry(kids, updates, true, k);
        if k in kids && k in updates {
          LeafEnds(kids[k], rest);
          LeafEnds(updates[k], rest);
          if kids[k].Dir? && updates[k].Dir? {
            OverwritingMergeLeaves(kids[k].kids, updates[k].kids, rest);
          }
        }
      }
    }
  }

  /** Source leaves win. */
  lemma SourceLeavesWin(kids: Kids, updates: Kids, path: seq<string>)
    requires LeafAt(Dir(updates), path).Some?
    ensures LeafAt(Dir(Merge(kids, updates, true)), path) == LeafAt(Dir(updates), path)
  {
    OverwritingMergeLeaves(kids, updates, path);
  }

  /** The leaves of a merge that is not to overwrite. A leaf of the target is lost all the same when the source
      has a map in its place; a leaf of the source arrives unless there is something in its place. */
  lemma {:induction false} GentleMergeLeaves(kids: Kids, updates: Kids, path: seq<string>)
    ensures LeafAt(Dir(Merge(kids, updates, false)), path)
         == match LeafAt(Dir(kids), path)
            case Some(value) => if At(Dir(updates), path).Some? && At(Dir(updates), path).value.Dir? then None
                                else Some(value)
            case None => if At(Dir(kids), path).Some? then None else LeafAt(Dir(updates), path)
    decreases Dir(updates)
  {
    if path != [] {
      var k, rest := path[0], path[1..];
      var merged := Merge(kids, updates, false);
      assert k in merged <==> k in kids || k in updates;
      if k in merged {
        assert merged[k] == MergeEntry(kids, updates, false, k);
        if k in kids && k in updates {
          LeafEnds(kids[k], rest);
          LeafEnds(updates[k], rest);
          if kids[k].Dir? && updates[k].Dir? {
            GentleMergeLeaves(kids[k].kids, updates[k].kids, rest);
          }
        }
      }
    }
  }

  /** So the promise not to overwrite is kept for a leaf exactly if the source has no map in its place. */
  lemma NoOverwriteIff(kids: Kids, updates: Kids, path: seq<string>)
    requires LeafAt(Dir(kids), path).Some?
    ensures LeafAt(Dir(Merge(kids, updates, false)), path) == LeafAt(Dir(kids), path)
       <==> !(At(Dir(updates), path).Some? && At(Dir(updates), path).value.Dir?)
  {
    GentleMergeLeaves(kids, updates, path);
  }

  lemma NoOverwriteFails()
    ensures var kids, updates := map["a" := Leaf(1)], map["a" := Dir(map[])];
            LeafAt(Dir(kids), ["a"]) == Some(1) && LeafAt(Dir(Merge(kids, updates, false)), ["a"]) == None
  {
    var kids, updates := map["a" := Leaf(1)], map["a" := Dir(map[])];
    var path := ["a"];
    assert path[1..] == [];
    GentleMergeLeaves(kids, updates, path);
    assert At(Dir(updates), path) == At(Dir(map[]), []) == Some(Dir(map[]));
    assert At(Dir(kids), path) == At(Leaf(1), []) == Some(Leaf(1));
  }

  /** Merging a tree into itself changes nothing. */
  lemma {:induction false} MergeSelf(kids: Kids, overwrite: bool)
    ensures Merge(kids, kids, overwrite) == kids
    decreases Dir(kids)
  {
    forall k | k in kids ensures MergeEntry(kids, kids, overwrite, k) == kids[k] {
      if kids[k].Dir? { MergeSelf(kids[k].kids, overwrite); }
    }
  }

  /** An update applied twice is the update applied once. */
  lemma {:induction false} MergeTwice(kids: Kids, updates: Kids, overwrite: bool)
    ensures Merge(Merge(kids, updates, overwrite), updates, overwrite) == Merge(kids, updates, overwrite)
    decreases Dir(updates)
  {
    var once := Merge(kids, updates, overwrite);
    forall k | k in kids.Keys + updates.Keys
      ensures MergeEntry(once, updates, overwrite, k) == once[k]
    {
      if k in updates && updates[k].Dir? {
        if k in kids && kids[k].Dir? {
          MergeTwice(kids[k].kids, updates[k].kids, overwrite);
        } else {
          MergeSelf(updates[k].kids, overwrite);
        }
      }
    }
  }
}
