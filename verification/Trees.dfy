/** Nested maps with dotted keys as values: what the operations of utils/smap/smap.go do to a tree. */
module Trees {
  datatype Tree = Leaf(value: int) | Dir(kids: map<string, Tree>)

  type Kids = map<string, Tree>

  /** Outcome of a lookup: the entry, an error for a missing key, or one for a map that is no map. */
  datatype Lookup = Found(tree: Tree) | NotFound | NotMap

  datatype Result = Updated(kids: Kids) | Missing | Failed

  predicate HasDot(key: string) {
    exists i :: 0 <= i < |key| && key[i] == '.'
  }

  /** The index of the first dot. */
  function FirstDot(key: string): (i: nat)
    ensures i <= |key| && (i < |key| <==> HasDot(key)) && (i < |key| ==> key[i] == '.')
    ensures forall j :: 0 <= j < i ==> key[j] != '.'
  {
    if key == [] || key[0] == '.' then 0
    else
      assert forall j :: 0 <= j < |key| - 1 ==> key[1..][j] == key[j + 1];
      1 + FirstDot(key[1..])
  }

  function Head(key: string): string {
    key[..FirstDot(key)]
  }

  function Tail(key: string): string
    requires HasDot(key)
  {
    key[FirstDot(key) + 1..]
  }

  /** A key that is stored as it is wins; otherwise the part before the first dot names a map to go on in. */
  function Get(kids: Kids, key: string): Lookup
    decreases |key|
  {
    if key in kids then Found(kids[key])
    else if !HasDot(key) || Head(key) !in kids then NotFound
    else match kids[Head(key)]
      case Leaf(_) => NotMap
      case Dir(sub) => Get(sub, Tail(key))
  }

  /** Missing maps on the way are created. */
  function Put(kids: Kids, key: string, tree: Tree): Result
    decreases |key|
  {
    if key in kids || !HasDot(key) then Updated(kids[key := tree])
    else
      var sub := if Head(key) in kids then kids[Head(key)] else Dir(map[]);
      if sub.Leaf? then Failed
      else match Put(sub.kids, Tail(key), tree)
        case Updated(sub') => Updated(kids[Head(key) := Dir(sub')])
        case failed => failed
  }

  function Delete(kids: Kids, key: string): Result
    decreases |key|
  {
    if key in kids then Updated(kids - {key})
    else if !HasDot(key) || Head(key) !in kids then Missing
    else match kids[Head(key)]
      case Leaf(_) => Failed
      case Dir(sub) =>
        match Delete(sub, Tail(key))
        case Updated(sub') => Updated(kids[Head(key) := Dir(sub')])
        case failed => failed
  }

  /** The components between the dots. */
  function Components(key: string): (c: seq<string>)
    ensures c != [] && c[0] == Head(key)
    decreases |key|
  {
    if HasDot(key) then [Head(key)] + Components(Tail(key)) else [key]
  }

  predicate DotFree(tree: Tree) {
    match tree
    case Leaf(_) => true
    case Dir(kids) => forall k :: k in kids ==> !HasDot(k) && DotFree(kids[k])
  }

  // ---------- Put and Get ----------

  /** What was put is what is read, in every tree and for every key. */
  lemma {:induction false} PutThenGet(kids: Kids, key: string, tree: Tree)
    ensures var r := Put(kids, key, tree); r.Updated? ==> Get(r.kids, key) == Found(tree)
    decreases |key|
  {
    if key !in kids && HasDot(key) {
      var sub := if Head(key) in kids then kids[Head(key)] else Dir(map[]);
      if sub.Dir? { PutThenGet(sub.kids, Tail(key), tree); }
    }
  }

  /** A put fails exactly when the same key cannot be read because of something on the way that is no map. */
  lemma {:induction false} PutFailsIff(kids: Kids, key: string, tree: Tree)
    ensures Put(kids, key, tree).Failed? <==> Get(kids, key).NotMap?
    ensures !Put(kids, key, tree).Missing?
    decreases |key|
  {
    if key !in kids && HasDot(key) {
      if Head(key) in kids {
        if kids[Head(key)].Dir? { PutFailsIff(kids[Head(key)].kids, Tail(key), tree); }
      } else {
        PutIntoEmpty(Tail(key), tree);
      }
    }
  }

  lemma {:induction false} PutIntoEmpty(key: string, tree: Tree)
    ensures Put(map[], key, tree).Updated?
    decreases |key|
  {
    if HasDot(key) { PutIntoEmpty(Tail(key), tree); }
  }

  /** Neither key names the same place as the other, or one above or below it. */
  predicate Unrelated(key: string, other: string) {
    !(Components(key) <= Components(other)) && !(Components(other) <= Components(key))
  }

  /** Unrelated keys that begin alike go on, and stay unrelated. */
  lemma UnrelatedTails(key: string, other: string)
    requires Unrelated(key, other) && Head(key) == Head(other)
    ensures HasDot(key) && HasDot(other) && Unrelated(Tail(key), Tail(other))
  {
    var a, b := Components(key), Components(other);
    assert a == [a[0]] + a[1..] && b == [b[0]] + b[1..];
  }

  /** A map with another one below `head` reads the same under keys that begin differently, and below `head` as that
      one does. */
  lemma GetBelow(kids: Kids, head: string, sub: Kids, other: string)
    requires DotFree(Dir(kids)) && !HasDot(head)
    ensures Head(other) != head ==> Get(kids[head := Dir(sub)], other) == Get(kids, other)
    ensures HasDot(other) && Head(other) == head ==> Get(kids[head := Dir(sub)], other) == Get(sub, Tail(other))
  {
    if !HasDot(other) { assert Head(other) == other; }
  }

  lemma HeadDotFree(key: string)
    ensures !HasDot(Head(key))
  {
    assert forall j :: 0 <= j < |Head(key)| ==> Head(key)[j] == key[j];
  }

  /** Keys that are unrelated because they begin differently. */
  lemma PutElsewhere(kids: Kids, key: string, tree: Tree, other: string)
    requires DotFree(Dir(kids)) && Head(key) != Head(other)
    ensures var r := Put(kids, key, tree); r.Updated? ==> Get(r.kids, other) == Get(kids, other)
  {
    HeadDotFree(key);
    if HasDot(key) {
      var sub := if Head(key) in kids then kids[Head(key)] else Dir(map[]);
      if sub.Dir? && Put(sub.kids, Tail(key), tree).Updated? {
        GetBelow(kids, Head(key), Put(sub.kids, Tail(key), tree).kids, other);
      }
    } else {
      assert Head(key) == key;
    }
  }

  /** Keys that name neither the same place nor one above or below are read as before. */
  lemma {:induction false} PutLeavesOthers(kids: Kids, key: string, tree: Tree, other: string)
    requires DotFree(Dir(kids)) && Unrelated(key, other)
    ensures var r := Put(kids, key, tree); r.Updated? ==> Get(r.kids, other) == Get(kids, other)
    decreases |key|
  {
    if Head(key) != Head(other) {
      PutElsewhere(kids, key, tree, other);
    } else {
      UnrelatedTails(key, other);
      HeadDotFree(key);
      var sub := if Head(key) in kids then kids[Head(key)] else Dir(map[]);
      if sub.Dir? {
        PutLeavesOthers(sub.kids, Tail(key), tree, Tail(other));
        GetFromEmpty(Tail(other));
        var r := Put(sub.kids, Tail(key), tree);
        if r.Updated? { GetBelow(kids, Head(key), r.kids, other); }
      }
    }
  }

  lemma GetFromEmpty(key: string)
    ensures Get(map[], key) == NotFound
  {
  }

  lemma {:induction false} PutKeepsDotFree(kids: Kids, key: string, tree: Tree)
    requires DotFree(Dir(kids)) && DotFree(tree)
    ensures var r := Put(kids, key, tree); r.Updated? ==> DotFree(Dir(r.kids))
    decreases |key|
  {
    if key !in kids && HasDot(key) {
      var sub := if Head(key) in kids then kids[Head(key)] else Dir(map[]);
      if sub.Dir? { PutKeepsDotFree(sub.kids, Tail(key), tree); }
    }
  }

  // ---------- Delete ----------

  /** Exactly what can be read can be deleted, and both fail in the same way. */
  lemma {:induction false} DeleteLikeGet(kids: Kids, key: string)
    ensures Delete(kids, key).Updated? <==> Get(kids, key).Found?
    ensures Delete(kids, key).Missing? <==> Get(kids, key).NotFound?
    decreases |key|
  {
    if key !in kids && HasDot(key) && Head(key) in kids && kids[Head(key)].Dir? {
      DeleteLikeGet(kids[Head(key)].kids, Tail(key));
    }
  }

  /** With dot-free keys a deleted key is gone. */
  lemma {:induction false} DeleteThenGet(kids: Kids, key: string)
    requires DotFree(Dir(kids))
    ensures var r := Delete(kids, key); r.Updated? ==> Get(r.kids, key) == NotFound
    decreases |key|
  {
    if HasDot(key) && Head(key) in kids && kids[Head(key)].Dir? {
      DeleteThenGet(kids[Head(key)].kids, Tail(key));
    }
  }

  /** On the way of `key` a key that is stored with its dots hides a nested value of the same name. */
  predicate Hidden(kids: Kids, key: string)
    decreases |key|
  {
    HasDot(key) && Head(key) in kids && kids[Head(key)].Dir? &&
    if key in kids then Get(kids[Head(key)].kids, Tail(key)).Found? else Hidden(kids[Head(key)].kids, Tail(key))
  }

  /** A deleted key can still be read if and only if a nested value was hidden by it. */
  lemma {:induction false} DeleteUncoversIff(kids: Kids, key: string)
    ensures var r := Delete(kids, key); r.Updated? ==> (Get(r.kids, key).Found? <==> Hidden(kids, key))
    decreases |key|
  {
    if HasDot(key) && key !in kids && Head(key) in kids && kids[Head(key)].Dir? {
      DeleteUncoversIff(kids[Head(key)].kids, Tail(key));
    }
  }

  /** This does happen: the dotted key hides the nested one until it is deleted. */
  lemma DeleteMayUncover()
    ensures var kids := map["a.b" := Leaf(1), "a" := Dir(map["b" := Leaf(2)])];
            var r := Delete(kids, "a.b");
            Get(kids, "a.b") == Found(Leaf(1)) && r.Updated? && Get(r.kids, "a.b") == Found(Leaf(2))
  {
    var key := "a.b";
    assert key[1] == '.' && FirstDot(key) == 1;
    assert Head(key) == "a" && Tail(key) == "b";
  }

  lemma DeleteElsewhere(kids: Kids, key: string, other: string)
    requires DotFree(Dir(kids)) && Head(key) != Head(other)
    ensures var r := Delete(kids, key); r.Updated? ==> Get(r.kids, other) == Get(kids, other)
  {
    HeadDotFree(key);
    if HasDot(key) {
      if Head(key) in kids && kids[Head(key)].Dir? && Delete(kids[Head(key)].kids, Tail(key)).Updated? {
        GetBelow(kids, Head(key), Delete(kids[Head(key)].kids, Tail(key)).kids, other);
      }
    } else {
      assert Head(key) == key;
    }
  }

  lemma {:induction false} DeleteLeavesOthers(kids: Kids, key: string, other: string)
    requires DotFree(Dir(kids)) && Unrelated(key, other)
    ensures var r := Delete(kids, key); r.Updated? ==> Get(r.kids, other) == Get(kids, other)
    decreases |key|
  {
    if Head(key) != Head(other) {
      DeleteElsewhere(kids, key, other);
    } else {
      UnrelatedTails(key, other);
      HeadDotFree(key);
      if Head(key) in kids && kids[Head(key)].Dir? {
        DeleteLeavesOthers(kids[Head(key)].kids, Tail(key), Tail(other));
        var r := Delete(kids[Head(key)].kids, Tail(key));
        if r.Updated? { GetBelow(kids, Head(key), r.kids, other); }
      }
    }
  }
}
