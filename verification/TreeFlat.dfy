/** The flat form of a nested map: one entry per leaf under its joined keys. */
module TreeFlat {
  import opened Options
  import opened Trees
  import opened TreeMerge

  function FullKey(prefix: string, k: string): string {
    if prefix == "" then k else prefix + "." + k
  }

  /** Everything that flattening writes: full keys with the values of leaves. */
  ghost function FlatEntries(prefix: string, kids: Kids): set<(string, int)>
    decreases Dir(kids), 1
  {
    set k, e | k in kids && e in FlatEntry(FullKey(prefix, k), kids[k]) :: e
  }

  ghost function FlatEntry(full: string, tree: Tree): set<(string, int)>
    decreases tree, 2
  {
    match tree
    case Leaf(value) => {(full, value)}
    case Dir(sub) => FlatEntries(full, sub)
  }

  /** What is written for some of the keys, in whatever order they are taken. */
  ghost function FlatSome(prefix: string, kids: Kids, done: set<string>): set<(string, int)>
    requires done <= kids.Keys
  {
    set k, e | k in done && e in FlatEntry(FullKey(prefix, k), kids[k]) :: e
  }

  lemma FlatSomeStep(prefix: string, kids: Kids, done: set<string>, k: string)
    requires done <= kids.Keys && k in kids
    ensures FlatSome(prefix, kids, done + {k}) == FlatSome(prefix, kids, done) + FlatEntry(FullKey(prefix, k), kids[k])
  {
  }

  lemma FlatEnds(prefix: string, kids: Kids)
    ensures FlatSome(prefix, kids, {}) == {} && FlatSome(prefix, kids, kids.Keys) == FlatEntries(prefix, kids)
  {
  }

  function Join(prefix: string, path: seq<string>): string
    decreases |path|
  {
    if path == [] then prefix else Join(FullKey(prefix, path[0]), path[1..])
  }

  /** No key is empty or has a dot. */
  predicate PlainKeys(tree: Tree) {
    match tree
    case Leaf(_) => true
    case Dir(kids) => forall k :: k in kids ==> k != "" && !HasDot(k) && PlainKeys(kids[k])
  }

  /** What is written are the leaves under their joined paths, all of them and nothing else. */
  lemma {:induction false} WrittenIffLeaf(full: string, tree: Tree, p: string, value: int)
    ensures (p, value) in FlatEntry(full, tree) <==>
            exists path :: LeafAt(tree, path) == Some(value) && Join(full, path) == p
    decreases tree
  {
    match tree
    case Leaf(v) =>
      assert LeafAt(tree, []) == Some(v) && Join(full, []) == full;
    case Dir(kids) =>
      if (p, value) in FlatEntry(full, tree) {
        assert (p, value) in FlatEntries(full, kids);
        var k :| k in kids && (p, value) in FlatEntry(FullKey(full, k), kids[k]);
        WrittenIffLeaf(FullKey(full, k), kids[k], p, value);
        var path :| LeafAt(kids[k], path) == Some(value) && Join(FullKey(full, k), path) == p;
        assert ([k] + path)[1..] == path;
        assert LeafAt(tree, [k] + path) == Some(value) && Join(full, [k] + path) == p;
      }
      forall path | LeafAt(tree, path) == Some(value) && Join(full, path) == p
        ensures (p, value) in FlatEntry(full, tree)
      {
        var k := path[0];
        assert LeafAt(kids[k], path[1..]) == Some(value) && Join(FullKey(full, k), path[1..]) == p;
        WrittenIffLeaf(FullKey(full, k), kids[k], p, value);
      }
  }

  // ---------- Plain keys ----------

  predicate PlainPath(path: seq<string>) {
    path != [] && forall i :: 0 <= i < |path| ==> path[i] != "" && !HasDot(path[i])
  }

  lemma {:induction false} JoinUnder(prefix: string, path: seq<string>)
    requires prefix != "" && PlainPath(path)
    ensures Join(prefix, path) == prefix + "." + Join("", path)
    decreases |path|
  {
    if |path| > 1 {
      JoinUnder(prefix + "." + path[0], path[1..]);
      JoinUnder(path[0], path[1..]);
      assert prefix + "." + path[0] + "." + Join("", path[1..]) == prefix + "." + (path[0] + "." + Join("", path[1..]));
    } else {
      assert path[1..] == [];
    }
  }

  lemma JoinedHead(k: string, rest: string)
    requires !HasDot(k)
    ensures var key := k + "." + rest; HasDot(key) && Head(key) == k && Tail(key) == rest
  {
    var key := k + "." + rest;
    assert key[|k|] == '.';
    assert forall j :: 0 <= j < |k| ==> key[j] == k[j] && k[j] != '.';
    assert FirstDot(key) == |k|;
  }

  /** Splitting at the dots undoes the joining, so distinct leaves never collide. */
  lemma {:induction false} ComponentsOfJoin(path: seq<string>)
    requires PlainPath(path)
    ensures Components(Join("", path)) == path
    decreases |path|
  {
    if |path| == 1 {
      assert path[1..] == [] && Join("", path) == path[0] && path == [path[0]];
    } else {
      JoinUnder(path[0], path[1..]);
      JoinedHead(path[0], Join("", path[1..]));
      ComponentsOfJoin(path[1..]);
      assert path == [path[0]] + path[1..];
    }
  }

  lemma {:induction false} LeafPathIsPlain(tree: Tree, path: seq<string>)
    requires PlainKeys(tree) && path != [] && At(tree, path).Some?
    ensures PlainPath(path)
    decreases |path|
  {
    if |path| > 1 {
      LeafPathIsPlain(tree.kids[path[0]], path[1..]);
      assert path == [path[0]] + path[1..];
    }
  }

  /** A joined path leads to what is at the end of the path. */
  lemma {:induction false} GetJoined(kids: Kids, path: seq<string>)
    requires PlainKeys(Dir(kids)) && path != [] && At(Dir(kids), path).Some?
    ensures Get(kids, Join("", path)) == Found(At(Dir(kids), path).value)
    decreases |path|
  {
    LeafPathIsPlain(Dir(kids), path);
    var k, rest := path[0], path[1..];
    if rest == [] {
      assert Join("", path) == k;
    } else {
      JoinUnder(k, rest);
      JoinedHead(k, Join("", rest));
      assert k in kids && kids[k].Dir?;
      GetJoined(kids[k].kids, rest);
    }
  }

  /** Each entry of the flat form is what the original gives for the same key. */
  lemma FlatEntryIsRead(kids: Kids, p: string, value: int)
    requires PlainKeys(Dir(kids)) && (p, value) in FlatEntries("", kids)
    ensures Get(kids, p) == Found(Leaf(value))
    ensures LeafAt(Dir(kids), Components(p)) == Some(value)
  {
    WrittenIffLeaf("", Dir(kids), p, value);
    var path :| LeafAt(Dir(kids), path) == Some(value) && Join("", path) == p;
    GetJoined(kids, path);
    LeafPathIsPlain(Dir(kids), path);
    ComponentsOfJoin(path);
  }

  /** Each leaf has an entry, under the key its path is joined to. */
  lemma LeafHasEntry(kids: Kids, path: seq<string>)
    requires PlainKeys(Dir(kids)) && LeafAt(Dir(kids), path).Some?
    ensures (Join("", path), LeafAt(Dir(kids), path).value) in FlatEntries("", kids)
    ensures Components(Join("", path)) == path
  {
    WrittenIffLeaf("", Dir(kids), Join("", path), LeafAt(Dir(kids), path).value);
    LeafPathIsPlain(Dir(kids), path);
    ComponentsOfJoin(path);
  }

  lemma EntriesAgree(kids: Kids, p: string, v: int, w: int)
    requires PlainKeys(Dir(kids)) && (p, v) in FlatEntries("", kids) && (p, w) in FlatEntries("", kids)
    ensures v == w
  {
    FlatEntryIsRead(kids, p, v);
    FlatEntryIsRead(kids, p, w);
  }

  // ---------- Dotted keys ----------

  /** All keys are plain, except that `extra` may be one of them. */
  predicate PlainBut(tree: Tree, extra: string) {
    match tree
    case Leaf(_) => true
    case Dir(kids) => forall k :: k in kids ==> (k == extra || (k != "" && !HasDot(k))) && PlainBut(kids[k], extra)
  }

  /** No two entries of the flat form have the same key. */
  ghost predicate Unambiguous(kids: Kids) {
    forall p, v, w :: (p, v) in FlatEntries("", kids) && (p, w) in FlatEntries("", kids) ==> v == w
  }

  /** A single leaf at the end of a path. */
  function Branch(path: seq<string>, value: int): Kids
    requires path != []
  {
    map[path[0] := if |path| == 1 then Leaf(value) else Dir(Branch(path[1..], value))]
  }

  lemma {:induction false} BranchHasLeaf(path: seq<string>, value: int)
    requires path != []
    ensures LeafAt(Dir(Branch(path, value)), path) == Some(value)
    decreases |path|
  {
    if |path| > 1 {
      BranchHasLeaf(path[1..], value);
    } else {
      assert path[1..] == [] && At(Leaf(value), []) == Some(Leaf(value));
    }
  }

  lemma {:induction false} BranchIsPlain(path: seq<string>, value: int, extra: string)
    requires PlainPath(path)
    ensures PlainBut(Dir(Branch(path, value)), extra)
    decreases |path|
  {
    if |path| > 1 { BranchIsPlain(path[1..], value, extra); }
  }

  lemma {:induction false} ComponentsAreDotFree(key: string)
    ensures forall i :: 0 <= i < |Components(key)| ==> !HasDot(Components(key)[i])
    decreases |key|
  {
    if HasDot(key) {
      ComponentsAreDotFree(Tail(key));
      assert forall j :: 0 <= j < |Head(key)| ==> Head(key)[j] == key[j];
    }
  }

  lemma HeadAndTail(key: string)
    requires HasDot(key)
    ensures key == Head(key) + "." + Tail(key)
  {
  }

  /** Joining undoes the splitting of a key without empty components. */
  lemma {:induction false} JoinOfComponents(key: string)
    requires PlainPath(Components(key))
    ensures Join("", Components(key)) == key
    decreases |key|
  {
    var path := Components(key);
    if HasDot(key) {
      assert path[1..] == Components(Tail(key));
      assert forall i :: 0 <= i < |path[1..]| ==> path[1..][i] == path[i + 1];
      JoinOfComponents(Tail(key));
      JoinUnder(path[0], path[1..]);
      HeadAndTail(key);
    } else {
      assert path[1..] == [];
    }
  }

  lemma LeafStored(kids: Kids, key: string, value: int)
    ensures LeafAt(Dir(kids[key := Leaf(value)]), [key]) == Some(value) && Join("", [key]) == key
  {
    assert [key][1..] == [] && At(Leaf(value), []) == Some(Leaf(value));
  }

  lemma LeafBeside(kids: Kids, key: string, path: seq<string>, value: int)
    requires path != [] && path[0] != key && LeafAt(Dir(kids), path) == Some(value)
    ensures LeafAt(Dir(kids[key := Leaf(1)]), path) == Some(value)
  {
  }

  /** Beside the leaf stored under the dotted key stands one on the path of its components. */
  lemma DottedKeyCollides(key: string)
    requires HasDot(key) && forall i :: 0 <= i < |Components(key)| ==> Components(key)[i] != ""
    ensures var kids := Branch(Components(key), 2)[key := Leaf(1)];
            PlainBut(Dir(kids), key) && (key, 1) in FlatEntries("", kids) && (key, 2) in FlatEntries("", kids)
  {
    var path := Components(key);
    var branch := Branch(path, 2);
    var kids := branch[key := Leaf(1)];
    ComponentsAreDotFree(key);
    BranchHasLeaf(path, 2);
    BranchIsPlain(path, 2, key);
    JoinOfComponents(key);
    LeafBeside(branch, key, path, 2);
    LeafStored(branch, key, 1);
    WrittenIffLeaf("", Dir(kids), key, 1);
    WrittenIffLeaf("", Dir(kids), key, 2);
  }

  lemma {:induction false} ButPlainIsPlain(tree: Tree, extra: string)
    requires PlainBut(tree, extra) && extra != "" && !HasDot(extra)
    ensures PlainKeys(tree)
    decreases tree
  {
    if tree.Dir? {
      forall k | k in tree.kids ensures PlainKeys(tree.kids[k]) {
        ButPlainIsPlain(tree.kids[k], extra);
      }
    }
  }

  lemma PlainIsUnambiguous(kids: Kids)
    requires PlainKeys(Dir(kids))
    ensures Unambiguous(kids)
  {
    forall p, v, w | (p, v) in FlatEntries("", kids) && (p, w) in FlatEntries("", kids) ensures v == w {
      EntriesAgree(kids, p, v, w);
    }
  }

  /** Beside plain keys `key` never makes a flat form ambiguous. */
  ghost predicate NeverAmbiguous(key: string) {
    forall kids :: PlainBut(Dir(kids), key) ==> Unambiguous(kids)
  }

  lemma DottedIsAmbiguous(key: string)
    requires HasDot(key) && forall i :: 0 <= i < |Components(key)| ==> Components(key)[i] != ""
    ensures !NeverAmbiguous(key)
  {
    DottedKeyCollides(key);
    var kids := Branch(Components(key), 2)[key := Leaf(1)];
    assert PlainBut(Dir(kids), key) && !Unambiguous(kids);
  }

  lemma PlainIsNeverAmbiguous(key: string)
    requires !HasDot(key) && key != ""
    ensures NeverAmbiguous(key)
  {
    forall kids | PlainBut(Dir(kids), key) ensures Unambiguous(kids) {
      ButPlainIsPlain(Dir(kids), key);
      PlainIsUnambiguous(kids);
    }
  }

  /** A key without empty components can be stored beside plain keys without ever making a flat form ambiguous if
      and only if it has no dot. With a dot, which of two values is under the key depends on the order. */
  lemma NeverAmbiguousIff(key: string)
    requires forall i :: 0 <= i < |Components(key)| ==> Components(key)[i] != ""
    ensures NeverAmbiguous(key) <==> !HasDot(key)
  {
    if HasDot(key) {
      DottedIsAmbiguous(key);
    } else {
      assert Components(key)[0] == key;
      PlainIsNeverAmbiguous(key);
    }
  }
}
