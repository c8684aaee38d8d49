/** Nested maps as objects that are changed in place: the methods of utils/smap/smap.go. */
module StringMaps {
  import opened Options
  import opened Trees
  import opened TreeWalk
  import opened TreeFlat
  import opened TreeMerge

  datatype Value = Scalar(value: int) | Nested(node: StringMap)

  datatype Position = Position(key: string, node: StringMap) | KeyNotFound | ExpectedMap

  ghost function ReprOf(value: Value): set<StringMap>
    reads if value.Nested? then {value.node} else {}
  {
    if value.Nested? then value.node.Repr else {}
  }

  ghost predicate ValidValue(value: Value)
    reads if value.Nested? then {value.node} + value.node.Repr else {}
  {
    value.Nested? ==> value.node.Valid()
  }

  ghost function TreeOf(value: Value): Tree
    requires ValidValue(value)
    reads if value.Nested? then {value.node} + value.node.Repr else {}
  {
    if value.Scalar? then Leaf(value.value) else Dir(value.node.Kids())
  }

  class StringMap {
    var entries: map<string, Value>
    /** All maps that can be reached from this one. */
    ghost var Repr: set<StringMap>

    /** Tree shape: nothing is reached on two ways. */
    ghost predicate Valid()
      reads this, Repr
      decreases Repr
    {
      && this in Repr
      && (forall k :: k in entries && entries[k].Nested? ==> Inside(entries[k].node) && entries[k].node.Valid())
      && (forall j, k :: j in entries && k in entries && j != k && entries[j].Nested? && entries[k].Nested? ==>
            entries[j].node.Repr !! entries[k].node.Repr)
    }

    ghost predicate Inside(child: StringMap)
      reads this, Repr
    {
      child in Repr && child.Repr <= Repr && this in Repr && this !in child.Repr
    }

    /** The tree below this map. */
    ghost function Kids(): Kids
      requires Valid()
      reads this, Repr
      decreases Repr
    {
      map k | k in entries :: if entries[k].Scalar? then Leaf(entries[k].value) else Dir(entries[k].node.Kids())
    }

    /** The value that a lookup finds, if it finds one. */
    ghost function Lookup(key: string): Option<Value>
      requires Valid()
      reads this, Repr
      decreases |key|
    {
      if key in entries then Some(entries[key])
      else if HasDot(key) && Head(key) in entries && entries[Head(key)].Nested? then
        entries[Head(key)].node.Lookup(Tail(key))
      else None
    }

    constructor ()
      ensures Valid() && Repr == {this} && entries == map[]
    {
      entries := map[];
      Repr := {this};
    }

    /** The assignment of one entry. */
    method Store(k: string, value: Value)
      requires Valid() && ValidValue(value) && ReprOf(value) !! Repr
      modifies `entries, `Repr
      ensures Valid() && Repr == old(Repr) + ReprOf(value) && entries == old(entries)[k := value]
      ensures Kids() == old(Kids())[k := TreeOf(value)] && TreeOf(value) == old(TreeOf(value))
    {
      entries := entries[k := value];
      Repr := Repr + old(ReprOf(value));
      assert forall o: StringMap :: o in old(Repr) && o != this ==> unchanged(o);
      assert forall o: StringMap :: o in old(ReprOf(value)) ==> unchanged(o);
      EntryStored(this, k, value);
      assert value.Nested? ==> value.node.Repr == old(value.node.Repr);
    }

    method Get(key: string) returns (r: Option<Value>, wrongType: bool)
      requires Valid()
      ensures r == Lookup(key)
      ensures r.Some? ==> ValidValue(r.value) && Trees.Get(Kids(), key) == Found(TreeOf(r.value))
      ensures r.None? ==> Trees.Get(Kids(), key) == if wrongType then NotMap else NotFound
    {
      var position, spine, comps := MapFind(key, this, false);
      GetByWalk(Kids(), key);
      LookupIsGet(this, key);
      match position
      case Position(k, node) =>
        PathDescend(spine, comps);
        CreatedExisting(Kids(), comps);
        LookupOnPath(spine, comps, key, k);
        if k in node.entries { return Some(node.entries[k]), false; } else { return None, false; }
      case KeyNotFound => return None, false;
      case ExpectedMap => return None, true;
    }

    /** A failing put leaves the tree as it was; one that succeeds gives back what could be read before, and what is
        no longer a part of the tree. */
    method Put(key: string, value: Value) returns (ok: bool, replaced: Option<Value>)
      requires Valid() && ValidValue(value) && ReprOf(value) !! Repr
      modifies Repr
      ensures Valid() && fresh(Repr - old(Repr) - old(ReprOf(value)))
      ensures Trees.Put(old(Kids()), key, old(TreeOf(value))) == if ok then Updated(Kids()) else Failed
      ensures !ok ==> Kids() == old(Kids()) && Repr == old(Repr) && replaced == None
      ensures ok ==> match replaced
                     case Some(v) => ValidValue(v) && Trees.Get(old(Kids()), key) == Found(TreeOf(v))
                                     && ReprOf(v) !! Repr
                     case None => Trees.Get(old(Kids()), key) == NotFound
    {
      ghost var before, tree := Kids(), TreeOf(value);
      PutByWalk(before, key, tree);
      GetByCreatingWalk(before, key);
      var position, spine, comps := MapFind(key, this, true);
      if !position.Position? {
        return false, None;
      }
      SpineInside(spine, comps);
      assert ValidValue(value) && TreeOf(value) == tree && ReprOf(value) == old(ReprOf(value));
      replaced := ReplaceAt(spine, comps, before, position.node, position.key, value);
      return true, replaced;
    }

    /** What is deleted is no longer a part of the tree. */
    method Delete(key: string) returns (ok: bool, wrongType: bool)
      requires Valid()
      modifies Repr
      ensures Valid() && Repr <= old(Repr)
      ensures Trees.Delete(old(Kids()), key) == if ok then Updated(Kids()) else if wrongType then Failed else Missing
      ensures !ok ==> Kids() == old(Kids()) && Repr == old(Repr)
      ensures ok ==> old(Lookup(key)).Some?
      ensures ok ==> var v := old(Lookup(key)).value;
                     ValidValue(v) && Trees.Get(old(Kids()), key) == Found(TreeOf(v)) && ReprOf(v) !! Repr
    {
      var position, spine, comps := MapFind(key, this, false);
      DeleteByWalk(Kids(), key);
      GetByWalk(Kids(), key);
      match position
      case Position(k, node) =>
        PathDescend(spine, comps);
        CreatedExisting(Kids(), comps);
        if k !in node.entries {
          return false, false;
        }
        SpineInside(spine, comps);
        LookupOnPath(spine, comps, key, k);
        ghost var v := node.entries[k];
        assert old(Lookup(key)) == Some(v);
        RemoveAt(spine, comps, node, k);
        return true, false;
      case KeyNotFound => return false, false;
      case ExpectedMap => return false, true;
    }

    /** Copies one entry, maps and all. */
    method CloneEntry(k: string, result: StringMap)
      requires Valid() && k in entries && result.Valid() && result.Repr !! Repr
      modifies result
      ensures Valid() && Kids() == old(Kids()) && Repr == old(Repr) && entries == old(entries)
      ensures result.Valid() && result.Kids() == old(result.Kids())[k := old(Kids())[k]]
      ensures old(result.Repr) <= result.Repr && fresh(result.Repr - old(result.Repr))
      decreases Repr, 0
    {
      var v := entries[k];
      if v.Nested? {
        assert Inside(v.node);
        var inner := v.node.Clone();
        v := Nested(inner);
      }
      assert ValidValue(v) && TreeOf(v) == old(Kids())[k] && result.Kids() == old(result.Kids());
      result.Store(k, v);
      Framed(this);
    }

    /** Copies every map; the copy consists of new ones only. */
    method Clone() returns (result: StringMap)
      requires Valid()
      ensures result.Valid() && fresh(result.Repr) && result.Kids() == Kids()
      decreases Repr, 1
    {
      ghost var kids, done := Kids(), {};
      result := new StringMap();
      var rest := entries.Keys;
      while rest != {}
        invariant Valid() && Kids() == kids && done + rest == entries.Keys
        invariant result.Valid() && fresh(result.Repr)
        invariant result.Kids() == Restrict(kids, done)
        decreases rest
      {
        var k :| k in rest;
        RestrictStep(kids, done, k);
        CloneEntry(k, result);
        done, rest := done + {k}, rest - {k};
      }
      assert done == kids.Keys && Restrict(kids, kids.Keys) == kids;
    }

    /** The entry at `k` is as an update with `value` leaves it. */
    ghost predicate HasUpdate(k: string, value: Value, overwrite: bool)
      requires Valid() && ValidValue(value)
      reads this, Repr, if value.Nested? then {value.node} + value.node.Repr else {}
      decreases ReprOf(value), 2
    {
      k in entries &&
      match value
      case Scalar(_) => overwrite ==> entries[k] == value
      case Nested(node) => entries[k].Nested? && entries[k].node.HasAll(node, overwrite)
    }

    /** The map is as an update with `d` leaves it. */
    ghost predicate HasAll(d: StringMap, overwrite: bool)
      requires Valid() && d.Valid()
      reads this, Repr, d, d.Repr
      decreases d.Repr, 1
    {
      forall k :: k in d.entries ==> HasUpdate(k, d.entries[k], overwrite)
    }

    /** The value of one key of an update. A map of the update replaces anything but a map, as it is and not
        as a copy. */
    method UpdateEntry(k: string, value: Value, overwrite: bool)
      requires Valid() && ValidValue(value)
      requires ReprOf(value) !! Repr || HasUpdate(k, value, overwrite)
      modifies this, if k in entries && entries[k].Nested? then entries[k].node.Repr else {}
      ensures Valid() && old(Repr) <= Repr <= old(Repr) + old(ReprOf(value))
      ensures Kids() == UpdatedEntry(old(Kids()), k, old(TreeOf(value)), overwrite)
      ensures forall j :: j != k ==> (j in entries <==> j in old(entries))
      ensures forall j :: j != k && j in entries ==> entries[j] == old(entries)[j]
      ensures forall o :: o in old(ReprOf(value)) ==> unchanged(o)
      ensures HasUpdate(k, value, overwrite)
      ensures old(HasUpdate(k, value, overwrite)) ==> forall o :: o in old(Repr) ==> unchanged(o)
      decreases ReprOf(value), 6
    {
      if value.Nested? && k in entries && entries[k].Nested? {
        UpdateChild(k, value.node, overwrite);
      } else if value.Nested? || overwrite || k !in entries {
        StoreUpdate(k, value, overwrite);
      }
    }

    /** Anything else is replaced. */
    method StoreUpdate(k: string, value: Value, overwrite: bool)
      requires Valid() && ValidValue(value)
      requires if value.Nested? then ReprOf(value) !! Repr else overwrite || k !in entries
      modifies this
      ensures Valid() && Repr == old(Repr) + ReprOf(value) && entries == old(entries)[k := value]
      ensures Kids() == old(Kids())[k := old(TreeOf(value))]
      ensures forall o :: o in old(ReprOf(value)) ==> unchanged(o)
      ensures HasUpdate(k, value, overwrite)
      ensures old(HasUpdate(k, value, overwrite)) && value.Scalar? ==> forall o :: o in old(Repr) ==> unchanged(o)
    {
      ghost var again := value.Scalar? && HasUpdate(k, value, overwrite);
      assert again ==> entries[k := value] == entries;
      Store(k, value);
      if value.Nested? { HasSelf(value.node, overwrite); }
      assert again ==> Repr == old(Repr) && entries == old(entries);
    }

    /** Where both have a map, the one is merged into the other. */
    method UpdateChild(k: string, node: StringMap, overwrite: bool)
      requires Valid() && node.Valid() && k in entries && entries[k].Nested?
      requires node.Repr !! Repr || entries[k].node.HasAll(node, overwrite)
      modifies this, entries[k].node.Repr
      ensures Valid() && old(Repr) <= Repr <= old(Repr) + old(node.Repr) && entries == old(entries)
      ensures Kids() == UpdatedEntry(old(Kids()), k, old(Dir(node.Kids())), overwrite)
      ensures forall o :: o in old(node.Repr) ==> unchanged(o)
      ensures entries[k].node.HasAll(node, overwrite)
      ensures old(entries[k].node.HasAll(node, overwrite)) ==> forall o :: o in old(Repr) ==> unchanged(o)
      decreases node.Repr, 5
    {
      ghost var again := entries[k].node.HasAll(node, overwrite);
      var child := entries[k].node;
      assert Inside(child);
      child.DeepUpdateMap(node, overwrite);
      if again {
        Framed(this);
      } else {
        label Merged:
        Repr := Repr + node.Repr;
        ChildChanged(this, k, node.Repr);
        assert forall o :: o in child.Repr + node.Repr ==> unchanged@Merged(o);
      }
    }

    /** One key of the update `d`, which itself stays as it is. */
    method UpdateFrom(d: StringMap, k: string, overwrite: bool)
      requires Valid() && d.Valid() && k in d.entries
      requires HasUpdate(k, d.entries[k], overwrite) ||
               (ReprOf(d.entries[k]) !! Repr && this !in d.Repr
                && (k in entries && entries[k].Nested? ==> entries[k].node.Repr !! d.Repr))
      modifies this, if k in entries && entries[k].Nested? then entries[k].node.Repr else {}
      ensures Valid() && old(Repr) <= Repr <= old(Repr) + old(ReprOf(d.entries[k]))
      ensures Kids() == UpdatedEntry(old(Kids()), k, old(d.Kids())[k], overwrite)
      ensures forall j :: j != k ==> (j in entries <==> j in old(entries))
      ensures forall j :: j in entries && j != k ==> entries[j] == old(entries)[j]
      ensures forall o :: o in old(d.Repr) ==> unchanged(o)
      ensures d.Valid() && HasUpdate(k, d.entries[k], overwrite)
      ensures old(HasUpdate(k, d.entries[k], overwrite)) ==> forall o :: o in old(Repr) ==> unchanged(o)
      decreases d.Repr, 0
    {
      assert d.entries[k].Nested? ==> d.Inside(d.entries[k].node);
      assert k in entries && entries[k].Nested? ==> Inside(entries[k].node);
      UpdateEntry(k, d.entries[k], overwrite);
      Framed(d);
    }

    /** An update with the keys `done` of `d` has been made, on a tree that consisted of the maps `base`. */
    ghost predicate Pending(d: StringMap, done: set<string>, base: set<StringMap>)
      requires Valid() && d.Valid()
      reads this, Repr, d, d.Repr
    {
      && base !! d.Repr && this in base && d !in Repr
      && forall k :: k in d.entries && k !in done ==>
           (d.entries[k].Nested? ==> d.entries[k].node.Repr !! Repr)
           && (k in entries && entries[k].Nested? ==> entries[k].node.Repr <= base)
    }

    ghost predicate HasSome(d: StringMap, done: set<string>, overwrite: bool)
      requires Valid() && d.Valid() && done <= d.entries.Keys
      reads this, Repr, d, d.Repr
    {
      forall k :: k in done ==> HasUpdate(k, d.entries[k], overwrite)
    }

    /** One step of the update with `d`. */
    method UpdateNext(d: StringMap, k: string, overwrite: bool, ghost done: set<string>, ghost base: set<StringMap>)
      requires Valid() && d.Valid() && done <= d.entries.Keys && k in d.entries && k !in done
      requires HasSome(d, done, overwrite) && (HasAll(d, overwrite) || Pending(d, done, base))
      modifies this, if k in entries && entries[k].Nested? then entries[k].node.Repr else {}
      ensures Valid() && old(Repr) <= Repr <= old(Repr) + d.Repr
      ensures Kids() == UpdatedEntry(old(Kids()), k, old(d.Kids())[k], overwrite)
      ensures forall o :: o in old(d.Repr) ==> unchanged(o)
      ensures d.Valid() && d.Repr == old(d.Repr) && d.entries == old(d.entries) && d.Kids() == old(d.Kids())
      ensures HasSome(d, done + {k}, overwrite)
      ensures old(HasAll(d, overwrite)) ==> HasAll(d, overwrite) && forall o :: o in old(Repr) ==> unchanged(o)
      ensures old(Pending(d, done, base)) ==> Pending(d, done + {k}, base)
      decreases d.Repr, 1
    {
      assert d.entries[k].Nested? ==> d.Inside(d.entries[k].node);
      assert k in entries && entries[k].Nested? ==> Inside(entries[k].node);
      UpdateFrom(d, k, overwrite);
      Framed(d);
      OthersKept(this, k);
      SomeKept(this, d, k, done, overwrite);
      if old(HasAll(d, overwrite)) { SomeKept(this, d, k, d.entries.Keys - {k}, overwrite); }
      if old(Pending(d, done, base)) { PendingKept(this, d, k, done, base); }
    }

    /** The keys `done` of `d` have been merged into what was the tree `before` and consisted of `base`; `again`
        if that tree had them all. */
    ghost predicate Merged(d: StringMap, done: set<string>, overwrite: bool, before: Kids, base: set<StringMap>,
                           again: bool)
      reads this, Repr, d, d.Repr
    {
      && Valid() && d.Valid() && base <= Repr <= base + d.Repr
      && done <= d.entries.Keys && HasSome(d, done, overwrite)
      && (if again then HasAll(d, overwrite) && Repr == base else Pending(d, done, base))
      && Kids() == PartlyMerged(before, d.Kids(), overwrite, done)
    }

    method MergeNext(d: StringMap, k: string, overwrite: bool, ghost done: set<string>, ghost before: Kids,
                     ghost base: set<StringMap>, ghost again: bool)
      requires Merged(d, done, overwrite, before, base, again) && k in d.entries && k !in done
      modifies base
      ensures Merged(d, done + {k}, overwrite, before, base, again)
      ensures d.entries == old(d.entries) && d.Repr == old(d.Repr) && forall o :: o in d.Repr ==> unchanged(o)
      ensures again ==> forall o :: o in base ==> unchanged(o)
      decreases d.Repr, 2
    {
      assert k in entries && entries[k].Nested? ==> Inside(entries[k].node);
      PartlyMergedStep(before, d.Kids(), overwrite, done, k);
      UpdateNext(d, k, overwrite, done, base);
    }

    /** The loop over the keys of the update, in any order. */
    method MergeKeys(d: StringMap, overwrite: bool, ghost before: Kids, ghost base: set<StringMap>, ghost again: bool)
      requires Merged(d, {}, overwrite, before, base, again)
      modifies base
      ensures Merged(d, d.entries.Keys, overwrite, before, base, again)
      ensures forall o :: o in old(d.Repr) ==> unchanged(o)
      ensures again ==> forall o :: o in base ==> unchanged(o)
      decreases d.Repr, 3
    {
      ghost var keys, done := d.entries.Keys, {};
      var rest := d.entries.Keys;
      while rest != {}
        invariant d.entries.Keys == keys && done == keys - rest
        invariant Merged(d, done, overwrite, before, base, again)
        invariant forall o :: o in old(d.Repr) ==> unchanged(o)
        invariant again ==> forall o :: o in base ==> unchanged(o)
        decreases rest
      {
        var k :| k in rest;
        MergeNext(d, k, overwrite, done, before, base, again);
        done, rest := done + {k}, rest - {k};
      }
      assert done == keys;
    }

    /** The update, from a tree that shares no map with this one, or from the same one again: the first time links
        maps of `d` into this tree, and the second changes nothing. */
    method DeepUpdateMap(d: StringMap, overwrite: bool)
      requires Valid() && d.Valid() && (Repr !! d.Repr || HasAll(d, overwrite))
      modifies Repr
      ensures Valid() && old(Repr) <= Repr <= old(Repr) + d.Repr
      ensures Kids() == Merge(old(Kids()), old(d.Kids()), overwrite)
      ensures forall o :: o in old(d.Repr) ==> unchanged(o)
      ensures d.Valid() && HasAll(d, overwrite)
      ensures old(HasAll(d, overwrite)) ==> forall o :: o in old(Repr) ==> unchanged(o)
      decreases d.Repr, 4
    {
      PartlyMergedEnds(Kids(), d.Kids(), overwrite);
      assert d.entries.Keys == d.Kids().Keys;
      MergeKeys(d, overwrite, Kids(), Repr, HasAll(d, overwrite));
      Framed(d);
    }

    /** Writes the leaf or the map at one key into `out`. */
    method FlattenEntry(k: string, fullKey: string, out: StringMap)
      requires Valid() && k in entries && out !in Repr
      modifies out`entries
      ensures Valid() && Kids() == old(Kids()) && Repr == old(Repr) && entries == old(entries)
      ensures Wrote(old(out.entries), out.entries, FlatEntry(fullKey, Kids()[k]))
      decreases Repr, 0
    {
      match entries[k] {
        case Nested(m) =>
          assert Inside(m);
          m.FlattenInto(fullKey, out);
        case Scalar(v) =>
          out.entries := out.entries[fullKey := Scalar(v)];
      }
      Framed(this);
    }

    method FlattenInto(prefix: string, out: StringMap)
      requires Valid() && out !in Repr
      modifies out`entries
      ensures Wrote(old(out.entries), out.entries, FlatEntries(prefix, Kids()))
      decreases Repr, 1
    {
      ghost var kids, done := Kids(), {};
      FlatEnds(prefix, kids);
      assert entries.Keys == kids.Keys;
      var rest := entries.Keys;
      while rest != {}
        invariant Valid() && Kids() == kids
        invariant rest == kids.Keys - done && done <= kids.Keys
        invariant Wrote(old(out.entries), out.entries, FlatSome(prefix, kids, done))
        decreases rest
      {
        var k :| k in rest;
        FlatSomeStep(prefix, kids, done, k);
        ghost var between := out.entries;
        FlattenEntry(k, FullKey(prefix, k), out);
        WroteMore(old(out.entries), between, out.entries, FlatSome(prefix, kids, done),
                  FlatEntry(FullKey(prefix, k), kids[k]));
        done, rest := done + {k}, rest - {k};
      }
      assert done == kids.Keys;
    }

    /** With plain keys the result has one entry per leaf, which reads like the key it is under. */
    method Flatten() returns (result: StringMap)
      requires Valid()
      ensures result.Valid() && fresh(result) && Wrote(map[], result.entries, FlatEntries("", Kids()))
      ensures PlainKeys(Dir(Kids())) ==>
                (forall p :: p in result.entries ==>
                   result.entries[p].Scalar? && Trees.Get(Kids(), p) == Found(Leaf(result.entries[p].value)))
                && (forall path :: LeafAt(Dir(Kids()), path).Some? ==>
                      Components(Join("", path)) == path && Join("", path) in result.entries
                      && result.entries[Join("", path)] == Scalar(LeafAt(Dir(Kids()), path).value))
    {
      result := new StringMap();
      FlattenInto("", result);
      if PlainKeys(Dir(Kids())) {
        FlattenedReads(Kids(), result.entries);
      }
    }
  }

  /** `after` is `before` with the entries written over it; where some collide, one of them is there. */
  ghost predicate Wrote(before: map<string, Value>, after: map<string, Value>, written: set<(string, int)>) {
    && (forall p :: p in before ==> p in after)
    && (forall p, v :: (p, v) in written ==> p in after && after[p].Scalar? && (p, after[p].value) in written)
    && (forall p :: p in after ==>
          (p in before && after[p] == before[p]) || (after[p].Scalar? && (p, after[p].value) in written))
  }

  lemma WroteMore(a: map<string, Value>, b: map<string, Value>, c: map<string, Value>,
                  first: set<(string, int)>, second: set<(string, int)>)
    requires Wrote(a, b, first) && Wrote(b, c, second)
    ensures Wrote(a, c, first + second)
  {
  }

  lemma FlattenedReads(kids: Kids, flat: map<string, Value>)
    requires PlainKeys(Dir(kids)) && Wrote(map[], flat, FlatEntries("", kids))
    ensures forall p :: p in flat ==> flat[p].Scalar? && Trees.Get(kids, p) == Found(Leaf(flat[p].value))
    ensures forall path :: LeafAt(Dir(kids), path).Some? ==>
              Components(Join("", path)) == path && Join("", path) in flat
              && flat[Join("", path)] == Scalar(LeafAt(Dir(kids), path).value)
  {
    forall p | p in flat ensures flat[p].Scalar? && Trees.Get(kids, p) == Found(Leaf(flat[p].value)) {
      FlatEntryIsRead(kids, p, flat[p].value);
    }
    forall path | LeafAt(Dir(kids), path).Some?
      ensures Components(Join("", path)) == path && Join("", path) in flat
              && flat[Join("", path)] == Scalar(LeafAt(Dir(kids), path).value)
    {
      var p, v := Join("", path), LeafAt(Dir(kids), path).value;
      LeafHasEntry(kids, path);
      EntriesAgree(kids, p, v, flat[p].value);
    }
  }

  /** A tree none of whose maps has changed is the same tree. */
  twostate lemma Framed(root: StringMap)
    requires old(root.Valid())
    requires forall o :: o in old(root.Repr) ==> unchanged(o)
    ensures root.Valid() && root.Repr == old(root.Repr)
    ensures root.entries == old(root.entries) && root.Kids() == old(root.Kids())
  {
  }

  twostate lemma ValueFramed(value: Value)
    requires old(ValidValue(value))
    requires forall o :: o in old(ReprOf(value)) ==> unchanged(o)
    ensures ValidValue(value) && ReprOf(value) == old(ReprOf(value)) && TreeOf(value) == old(TreeOf(value))
  {
    if value.Nested? {
      assert old(ReprOf(value)) == old(value.node.Repr);
      Framed(value.node);
    }
  }

  lemma {:induction false} HasSelf(node: StringMap, overwrite: bool)
    requires node.Valid()
    ensures node.HasAll(node, overwrite)
    decreases node.Repr
  {
    forall k | k in node.entries ensures node.HasUpdate(k, node.entries[k], overwrite) {
      if node.entries[k].Nested? {
        assert node.Inside(node.entries[k].node);
        HasSelf(node.entries[k].node, overwrite);
      }
    }
  }

  /** An entry that neither side has changed is still updated. */
  twostate lemma UpdateKept(m: StringMap, new j: string, new value: Value, new overwrite: bool)
    requires old(allocated(value)) && old(m.Valid()) && m.Valid() && old(ValidValue(value)) && ValidValue(value)
    requires old(m.HasUpdate(j, value, overwrite)) && j in m.entries && m.entries[j] == old(m.entries)[j]
    requires m.entries[j].Nested? ==> forall o :: o in old(m.entries[j].node.Repr) ==> unchanged(o)
    requires value.Nested? ==> forall o :: o in old(value.node.Repr) ==> unchanged(o)
    ensures m.HasUpdate(j, value, overwrite)
  {
    if value.Nested? {
      var child, node := m.entries[j].node, value.node;
      assert old(m.Inside(child)) && old(child.Valid()) && old(node.Valid());
      assert old(child.HasAll(node, overwrite));
      assert child in old(child.Repr) && node in old(node.Repr);
      assert child.HasAll(node, overwrite);
    }
  }

  /** A change at `k` leaves the other maps right below alone. */
  twostate lemma OthersKept(m: StringMap, new k: string)
    requires old(m.Valid()) && m.Valid()
    requires forall j :: j in m.entries && j != k ==> j in old(m.entries) && m.entries[j] == old(m.entries)[j]
    requires forall o :: o in old(m.Repr) && o != m ==>
               unchanged(o) || (k in old(m.entries) && old(m.entries)[k].Nested? && o in old(m.entries[k].node.Repr))
    ensures forall j :: j in m.entries && j != k && m.entries[j].Nested? ==>
              m.entries[j].node.Repr == old(m.entries[j].node.Repr)
              && forall o :: o in old(m.entries[j].node.Repr) ==> unchanged(o)
  {
    forall j | j in m.entries && j != k && m.entries[j].Nested?
      ensures m.entries[j].node.Repr == old(m.entries[j].node.Repr)
              && forall o :: o in old(m.entries[j].node.Repr) ==> unchanged(o)
    {
      var child := m.entries[j].node;
      assert old(m.Inside(child)) && old(child.Valid());
    }
  }

  /** Nor does it undo what has been updated at other keys. */
  twostate lemma SomeKept(m: StringMap, new d: StringMap, new k: string, new done: set<string>, new overwrite: bool)
    requires old(allocated(d)) && old(m.Valid()) && m.Valid() && old(d.Valid()) && d.Valid()
    requires d.entries == old(d.entries) && done <= d.entries.Keys && k in d.entries && k !in done
    requires forall o :: o in old(d.Repr) ==> unchanged(o)
    requires old(m.HasSome(d, done, overwrite)) && m.HasUpdate(k, d.entries[k], overwrite)
    requires forall j :: j != k && j in old(m.entries) ==> j in m.entries && m.entries[j] == old(m.entries)[j]
    requires forall j :: j != k && j in old(m.entries) && old(m.entries)[j].Nested? ==>
               forall o :: o in old(m.entries[j].node.Repr) ==> unchanged(o)
    ensures m.HasSome(d, done + {k}, overwrite)
  {
    forall j | j in done ensures m.HasUpdate(j, d.entries[j], overwrite) {
      if d.entries[j].Nested? { assert old(d.Inside(d.entries[j].node)); }
      UpdateKept(m, j, d.entries[j], overwrite);
    }
  }

  twostate lemma PendingKept(m: StringMap, new d: StringMap, new k: string, new done: set<string>,
                             new base: set<StringMap>)
    requires old(allocated(d)) && old(allocated(base))
    requires old(m.Valid()) && m.Valid() && old(d.Valid()) && d.Valid()
    requires old(m.Pending(d, done, base)) && k in d.entries && d.entries == old(d.entries)
    requires forall o :: o in old(d.Repr) ==> unchanged(o)
    requires m.Repr <= old(m.Repr) + old(ReprOf(d.entries[k]))
    requires forall j :: j in m.entries && j != k ==> j in old(m.entries) && m.entries[j] == old(m.entries)[j]
    requires forall j :: j in m.entries && j != k && m.entries[j].Nested? ==>
               m.entries[j].node.Repr == old(m.entries[j].node.Repr)
    ensures m.Pending(d, done + {k}, base)
  {
    forall j | j in d.entries && d.entries[j].Nested?
      ensures d.Inside(d.entries[j].node) && d.entries[j].node.Repr == old(d.entries[j].node.Repr)
    {
      assert old(d.Inside(d.entries[j].node));
    }
  }

  /** A map right below another one, with nothing changed in it. */
  twostate lemma ChildKept(root: StringMap, new j: string)
    requires old(root.Valid()) && j in old(root.entries) && old(root.entries)[j].Nested?
    requires forall o :: o in old(root.entries[j].node.Repr) ==> unchanged(o)
    ensures var c := old(root.entries)[j].node;
            c.Valid() && c.Repr == old(c.Repr) && c.Kids() == old(c.Kids()) && old(root.Inside(c))
  {
    assert old(root.Inside(root.entries[j].node));
    Framed(old(root.entries[j].node));
  }

  /** A tree that got one new entry is a tree again. */
  twostate lemma EntryStored(root: StringMap, new k: string, new value: Value)
    requires old(allocated(value)) && old(root.Valid()) && old(ValidValue(value))
    requires old(ReprOf(value)) !! old(root.Repr)
    requires root.entries == old(root.entries)[k := value] && root.Repr == old(root.Repr) + old(ReprOf(value))
    requires forall o :: o in old(root.Repr) && o != root ==> unchanged(o)
    requires forall o :: o in old(ReprOf(value)) ==> unchanged(o)
    ensures root.Valid() && ValidValue(value) && TreeOf(value) == old(TreeOf(value))
    ensures root.Kids() == old(root.Kids())[k := TreeOf(value)]
  {
    forall j | j in root.entries && j != k && root.entries[j].Nested?
      ensures var c := root.entries[j].node;
              c.Valid() && c.Repr == old(c.Repr) && c.Kids() == old(c.Kids()) && root.Inside(c)
    {
      var c := root.entries[j].node;
      assert old(root.Inside(c));
      ChildKept(root, j);
    }
  }

  // ---------- Changes deep in a tree ----------

  /** A tree whose map `k` has changed, and has grown by `extra` at most, is a tree again. */
  twostate lemma ChildChanged(root: StringMap, new k: string, new extra: set<StringMap>)
    requires old(root.Valid()) && root.entries == old(root.entries)
    requires k in root.entries && root.entries[k].Nested?
    requires var child := root.entries[k].node;
             child.Valid() && child.Repr <= old(child.Repr) + extra && extra !! old(root.Repr)
             && forall o :: o in old(root.Repr) && o != root && o !in old(child.Repr) ==> unchanged(o)
    requires root.Repr == old(root.Repr) + extra
    ensures root.Valid()
    ensures root.Kids() == old(root.Kids())[k := Dir(root.entries[k].node.Kids())]
  {
    var child := root.entries[k].node;
    assert old(root.Inside(child)) && root.Inside(child);
    forall j | j in root.entries && j != k && root.entries[j].Nested?
      ensures var c := root.entries[j].node;
              c.Valid() && c.Repr == old(c.Repr) && c.Kids() == old(c.Kids()) && root.Inside(c) && c.Repr !! child.Repr
    {
      var c := root.entries[j].node;
      assert old(root.Inside(c)) && old(c.Repr !! child.Repr);
      ChildKept(root, j);
    }
  }

  ghost predicate Linked(spine: seq<StringMap>, comps: seq<string>)
    reads spine
  {
    && |spine| == |comps| + 1
    && forall i :: 0 <= i < |comps| ==>
         comps[i] in spine[i].entries && spine[i].entries[comps[i]] == Nested(spine[i + 1])
  }

  /** A path of maps, all valid, each within those above it only. */
  ghost predicate Nest(spine: seq<StringMap>, comps: seq<string>)
    reads spine, set n, o | n in spine && o in n.Repr :: o
  {
    && Linked(spine, comps)
    && (forall i :: 0 <= i < |spine| ==> spine[i].Valid())
    && (forall i, j :: 0 <= i <= j < |spine| ==> spine[j] in spine[i].Repr && spine[j].Repr <= spine[i].Repr)
    && (forall i, j :: 0 <= i < j < |spine| ==> spine[i] !in spine[j].Repr)
  }

  /** A path of maps down from a valid one. */
  ghost predicate Path(spine: seq<StringMap>, comps: seq<string>)
    reads spine, if spine == [] then {} else spine[0].Repr
  {
    Linked(spine, comps) && spine[0].Valid()
  }

  /** The maps on a path from a valid one nest. */
  lemma {:induction false} NestFrom(spine: seq<StringMap>, comps: seq<string>)
    requires Path(spine, comps)
    ensures Nest(spine, comps)
    decreases |comps|
  {
    if comps != [] {
      var rest := spine[1..];
      assert spine[0].Inside(spine[1]);
      NestFrom(rest, comps[1..]);
      forall i, j | 0 <= i < j < |spine| ensures spine[i] !in spine[j].Repr && spine[j] in spine[i].Repr {
        assert spine[j] == rest[j - 1];
        if i > 0 { assert spine[i] == rest[i - 1]; }
      }
      forall i, j | 0 <= i <= j < |spine| ensures spine[j].Repr <= spine[i].Repr && spine[i].Valid() {
        if i > 0 { assert spine[i] == rest[i - 1]; }
        if j > 0 { assert spine[j] == rest[j - 1]; }
      }
    }
  }

  lemma {:induction false} PathDescend(spine: seq<StringMap>, comps: seq<string>)
    requires Path(spine, comps)
    ensures spine[|comps|].Valid() && spine[|comps|] in spine[0].Repr && spine[|comps|].Repr <= spine[0].Repr
    ensures HasDirs(spine[0].Kids(), comps) && Descend(spine[0].Kids(), comps) == spine[|comps|].Kids()
    decreases |comps|
  {
    if comps != [] {
      assert spine[0].Inside(spine[1]);
      PathDescend(spine[1..], comps[1..]);
    }
  }

  /** When the last map of a path changes, and the footprints above it grow with its own, the whole is a tree
      again, with the change in its place. */
  twostate lemma {:induction false} SpineChanged(spine: seq<StringMap>, new comps: seq<string>,
                                                 new extra: set<StringMap>)
    requires old(Nest(spine, comps))
    requires forall i :: 0 <= i < |comps| ==> spine[i].entries == old(spine[i].entries)
    requires forall i :: 0 <= i < |spine| ==> spine[i].Repr == old(spine[i].Repr) + extra
    requires spine[|comps|].Valid() && extra !! old(spine[0].Repr)
    requires forall o :: o in old(spine[0].Repr) && o !in spine ==> unchanged(o)
    ensures spine[0].Valid()
    ensures spine[0].Kids() == Plug(old(spine[0].Kids()), comps, spine[|comps|].Kids())
    decreases |comps|
  {
    if comps != [] {
      var root, child, rest := spine[0], spine[1], spine[1..];
      assert old(Nest(rest, comps[1..]));
      forall o | o in old(child.Repr) && o !in rest ensures unchanged(o) {
        assert o != root;
      }
      SpineChanged(rest, comps[1..], extra);
      forall o | o in old(root.Repr) && o != root && o !in old(child.Repr) ensures unchanged(o) {
        assert o !in spine;
      }
      ChildChanged(root, comps[0], extra);
    }
  }

  // ---------- Changes along a path ----------

  /** Lets the footprints above the last map of a path grow. */
  ghost method GrowAbove(spine: seq<StringMap>, comps: seq<string>, extra: set<StringMap>)
    requires |spine| == |comps| + 1
    requires forall i, j :: 0 <= i < j < |spine| ==> spine[i] != spine[j]
    modifies spine[..|comps|]
    ensures forall i :: 0 <= i < |comps| ==> spine[i].Repr == old(spine[i].Repr) + extra
    ensures forall i :: 0 <= i < |comps| ==> spine[i].entries == old(spine[i].entries)
    ensures unchanged(spine[|comps|])
  {
    forall i | 0 <= i < |comps| {
      spine[i].Repr := spine[i].Repr + extra;
    }
  }

  /** An entry in the last map of a path, which no change along the path affects. */
  lemma EntryApart(spine: seq<StringMap>, comps: seq<string>, k: string)
    requires Path(spine, comps) && k in spine[|comps|].entries
    ensures ValidValue(spine[|comps|].entries[k])
    ensures forall n :: n in spine ==> n !in ReprOf(spine[|comps|].entries[k])
    ensures k in Descend(spine[0].Kids(), comps)
    ensures Descend(spine[0].Kids(), comps)[k] == TreeOf(spine[|comps|].entries[k])
  {
    NestFrom(spine, comps);
    PathDescend(spine, comps);
    var value := spine[|comps|].entries[k];
    if value.Nested? { assert spine[|comps|].Inside(value.node); }
  }

  /** Stores an entry in the last map of a path. */
  method StoreAt(ghost spine: seq<StringMap>, ghost comps: seq<string>, data: StringMap, k: string, value: Value)
    requires Path(spine, comps) && spine[|comps|] == data && data.Valid()
    requires ValidValue(value) && ReprOf(value) !! spine[0].Repr
    modifies spine
    ensures Path(spine, comps) && spine[0].Repr == old(spine[0].Repr) + old(ReprOf(value))
    ensures data.entries == old(data.entries)[k := value] && old(data.Repr) <= data.Repr
    ensures spine[0].Kids() == Plug(old(spine[0].Kids()), comps, old(data.Kids())[k := old(TreeOf(value))])
    ensures ValidValue(value) && TreeOf(value) == old(TreeOf(value))
  {
    ghost var extra := ReprOf(value);
    NestFrom(spine, comps);
    data.Store(k, value);
    label Stored:
    assert forall i :: 0 <= i < |comps| ==> spine[i] !in data.Repr;
    GrowAbove(spine, comps, extra);
    Framed@Stored(data);
    ValueFramed@Stored(value);
    SpineChanged(spine, comps, extra);
  }

  /** The end of a put: gives back the entry that the new one takes the place of. */
  method ReplaceAt(ghost spine: seq<StringMap>, ghost comps: seq<string>, ghost before: Kids, data: StringMap,
                   k: string, value: Value)
    returns (replaced: Option<Value>)
    requires Path(spine, comps) && spine[|comps|] == data && spine[0].Kids() == Created(before, comps)
    requires ValidValue(value) && ReprOf(value) !! spine[0].Repr
    modifies spine
    ensures spine[0].Valid() && spine[0].Repr <= old(spine[0].Repr) + old(ReprOf(value))
    ensures spine[0].Kids() == Plug(before, comps, Descend(before, comps)[k := old(TreeOf(value))])
    ensures match replaced
            case Some(v) => ValidValue(v) && k in Descend(before, comps) && Descend(before, comps)[k] == TreeOf(v)
                            && ReprOf(v) !! spine[0].Repr
            case None => k !in Descend(before, comps)
  {
    ghost var tree := TreeOf(value);
    PathDescend(spine, comps);
    DescendPlug(before, comps, Descend(before, comps));
    PutInCreated(before, comps, k, tree);
    if k in data.entries {
      replaced := Some(data.entries[k]);
      SwapAt(spine, comps, data, k, value);
    } else {
      replaced := None;
      StoreAt(spine, comps, data, k, value);
    }
  }

  /** Stores a value in the place of another one, which then is no longer a part of the tree. */
  method SwapAt(ghost spine: seq<StringMap>, ghost comps: seq<string>, data: StringMap, k: string, value: Value)
    requires Path(spine, comps) && spine[|comps|] == data && data.Valid() && k in data.entries
    requires ValidValue(data.entries[k])
    requires ValidValue(value) && ReprOf(value) !! spine[0].Repr
    modifies spine
    ensures spine[0].Valid() && spine[0].Repr <= old(spine[0].Repr) + old(ReprOf(value))
    ensures spine[0].Kids() == Plug(old(spine[0].Kids()), comps, old(data.Kids())[k := old(TreeOf(value))])
    ensures var v := old(data.entries[k]);
            ValidValue(v) && TreeOf(v) == old(TreeOf(data.entries[k])) && ReprOf(v) !! spine[0].Repr
  {
    EntryApart(spine, comps, k);
    ghost var v := data.entries[k];
    ghost var maps := ReprOf(v);
    StoreOver(spine, comps, data, k, value, maps);
    Release(spine, comps, maps);
    ValueFramed(v);
  }

  method StoreOver(ghost spine: seq<StringMap>, ghost comps: seq<string>, data: StringMap, k: string, value: Value,
                   ghost gone: set<StringMap>)
    requires Path(spine, comps) && spine[|comps|] == data && data.Valid() && k in data.entries
    requires ValidValue(data.entries[k]) && gone == ReprOf(data.entries[k])
    requires ValidValue(value) && ReprOf(value) !! spine[0].Repr
    modifies spine
    ensures Path(spine, comps) && Apart(data, gone) && spine[0].Repr == old(spine[0].Repr) + old(ReprOf(value))
    ensures spine[0].Kids() == Plug(old(spine[0].Kids()), comps, old(data.Kids())[k := old(TreeOf(value))])
  {
    NestFrom(spine, comps);
    EntryApart(spine, comps, k);
    StoreAt(spine, comps, data, k, value);
    PathDescend(spine, comps);
    ApartChanged(data, k, gone);
  }

  /** Takes maps that nothing leads to any more out of the footprints along a path. */
  ghost method Release(spine: seq<StringMap>, comps: seq<string>, gone: set<StringMap>)
    requires Path(spine, comps) && Apart(spine[|comps|], gone)
    modifies spine
    ensures Path(spine, comps) && spine[0].Repr == old(spine[0].Repr) - gone
    ensures spine[0].Kids() == old(spine[0].Kids())
    ensures forall i :: 0 <= i < |spine| ==> spine[i].entries == old(spine[i].entries)
  {
    NestFrom(spine, comps);
    forall i | 0 <= i < |spine| {
      spine[i].Repr := spine[i].Repr - gone;
    }
    SpineReleased(spine, comps, gone);
  }

  /** No entry of the map leads into `gone`. */
  ghost predicate Apart(data: StringMap, gone: set<StringMap>)
    reads data, data.Repr
  {
    gone <= data.Repr && data !in gone
    && forall j :: j in data.entries && data.entries[j].Nested? ==>
         data.entries[j].node in data.Repr && data.entries[j].node.Repr !! gone
  }

  /** Nothing else leads into what the entry at `k` led to. */
  twostate lemma ApartChanged(data: StringMap, new k: string, new gone: set<StringMap>)
    requires old(data.Valid()) && data.Valid() && k in old(data.entries) && gone == old(ReprOf(data.entries[k]))
    requires forall j :: j in data.entries && j != k ==>
               j in old(data.entries) && data.entries[j] == old(data.entries)[j]
    requires k in data.entries && data.entries[k].Nested? ==> data.entries[k].node.Repr !! gone
    requires old(data.Repr) <= data.Repr
    requires forall o :: o in old(data.Repr) && o != data ==> unchanged(o)
    ensures Apart(data, gone)
  {
    if old(data.entries)[k].Nested? { assert old(data.Inside(data.entries[k].node)); }
    forall j | j in data.entries && data.entries[j].Nested?
      ensures data.entries[j].node in data.Repr && data.entries[j].node.Repr !! gone
    {
      assert data.Inside(data.entries[j].node);
      if j != k {
        var c := data.entries[j].node;
        assert old(data.Inside(c)) && c.Repr == old(c.Repr);
      }
    }
  }

  twostate lemma DataReleased(data: StringMap, new gone: set<StringMap>)
    requires old(allocated(gone)) && old(data.Valid()) && old(Apart(data, gone))
    requires data.entries == old(data.entries) && data.Repr == old(data.Repr) - gone
    requires forall o :: o in old(data.Repr) && o != data ==> unchanged(o)
    ensures data.Valid() && data.Kids() == old(data.Kids())
  {
    forall j | j in data.entries && data.entries[j].Nested?
      ensures var c := data.entries[j].node;
              c.Valid() && c.Repr == old(c.Repr) && c.Kids() == old(c.Kids()) && data.Inside(c)
    {
      var c := data.entries[j].node;
      assert old(data.Inside(c));
      ChildKept(data, j);
    }
  }

  twostate lemma ChildReleased(root: StringMap, new k: string, new gone: set<StringMap>)
    requires old(root.Valid()) && root.entries == old(root.entries) && root.Repr == old(root.Repr) - gone
    requires k in root.entries && root.entries[k].Nested?
    requires var child := root.entries[k].node;
             child.Valid() && child.Repr == old(child.Repr) - gone && gone <= old(child.Repr)
             && child.Kids() == old(child.Kids())
             && forall o :: o in old(root.Repr) && o != root && o !in old(child.Repr) ==> unchanged(o)
    ensures root.Valid() && root.Kids() == old(root.Kids())
  {
    var child := root.entries[k].node;
    assert old(root.Inside(child)) && root.Inside(child);
    forall j | j in root.entries && j != k && root.entries[j].Nested?
      ensures var c := root.entries[j].node;
              c.Valid() && c.Repr == old(c.Repr) && c.Kids() == old(c.Kids()) && root.Inside(c) && c.Repr !! child.Repr
    {
      var c := root.entries[j].node;
      assert old(root.Inside(c)) && old(c.Repr !! child.Repr);
      ChildKept(root, j);
    }
  }

  twostate lemma {:induction false} SpineReleased(spine: seq<StringMap>, new comps: seq<string>,
                                                  new gone: set<StringMap>)
    requires old(allocated(gone)) && old(Nest(spine, comps)) && old(Apart(spine[|comps|], gone))
    requires forall i :: 0 <= i < |spine| ==>
               spine[i].entries == old(spine[i].entries) && spine[i].Repr == old(spine[i].Repr) - gone
    requires forall o :: o in old(spine[0].Repr) && o !in spine ==> unchanged(o)
    ensures spine[0].Valid() && spine[0].Kids() == old(spine[0].Kids())
    decreases |comps|
  {
    if comps == [] {
      DataReleased(spine[0], gone);
    } else {
      var root, child, rest := spine[0], spine[1], spine[1..];
      assert old(Nest(rest, comps[1..])) && rest[|comps[1..]|] == spine[|comps|];
      forall o | o in old(child.Repr) && o !in rest ensures unchanged(o) {
        assert o != root;
      }
      SpineReleased(rest, comps[1..], gone);
      forall o | o in old(root.Repr) && o != root && o !in old(child.Repr) ensures unchanged(o) {
        assert o !in spine;
      }
      assert old(spine[|comps|].Repr <= child.Repr);
      ChildReleased(root, comps[0], gone);
    }
  }

  /** A walk that has come to the end of a path has come to what a lookup finds. */
  lemma {:induction false} LookupOnPath(spine: seq<StringMap>, comps: seq<string>, key: string, k: string)
    requires Path(spine, comps) && Walk(spine[0].Kids(), key, false) == Place(comps, k)
    ensures spine[0].Lookup(key)
         == if k in spine[|comps|].entries then Some(spine[|comps|].entries[k]) else None
    decreases |comps|
  {
    if comps != [] {
      assert spine[0].Inside(spine[1]);
      var place := Walk(spine[1].Kids(), Tail(key), false);
      assert ([Head(key)] + place.comps)[1..] == place.comps;
      LookupOnPath(spine[1..], comps[1..], Tail(key), k);
    }
  }

  lemma {:induction false} LookupIsGet(m: StringMap, key: string)
    requires m.Valid()
    ensures match m.Lookup(key)
            case Some(v) => ValidValue(v) && Trees.Get(m.Kids(), key) == Found(TreeOf(v))
            case None => !Trees.Get(m.Kids(), key).Found?
    decreases |key|
  {
    if key !in m.entries && HasDot(key) && Head(key) in m.entries && m.entries[Head(key)].Nested? {
      assert m.Inside(m.entries[Head(key)].node);
      LookupIsGet(m.entries[Head(key)].node, Tail(key));
    }
  }

  lemma SpineInside(spine: seq<StringMap>, comps: seq<string>)
    requires Path(spine, comps)
    ensures forall n :: n in spine ==> n in spine[0].Repr
  {
    NestFrom(spine, comps);
  }

  lemma PathExtend(spine: seq<StringMap>, comps: seq<string>, k: string, child: StringMap)
    requires Path(spine, comps)
    requires k in spine[|comps|].entries && spine[|comps|].entries[k] == Nested(child)
    ensures Path(spine + [child], comps + [k])
  {
  }

  /** Creates an empty map in the last map of a path. */
  method CreateChild(ghost spine: seq<StringMap>, ghost comps: seq<string>, data: StringMap, k: string)
    returns (child: StringMap)
    requires Path(spine, comps) && spine[|comps|] == data && data.Valid()
    requires k !in data.entries && Descend(spine[0].Kids(), comps) == data.Kids()
    modifies spine
    ensures Path(spine + [child], comps + [k])
    ensures fresh(child) && child.entries == map[] && spine[0].Repr == old(spine[0].Repr) + {child}
    ensures spine[0].Kids() == Entered(old(spine[0].Kids()), comps, k)
  {
    ghost var kids, here := spine[0].Kids(), data.Kids();
    assert Entered(kids, comps, k) == Plug(kids, comps, here[k := Dir(map[])]);
    child := new StringMap();
    assert spine[0].Kids() == kids && data.Kids() == here && TreeOf(Nested(child)) == Dir(map[]);
    StoreAt(spine, comps, data, k, Nested(child));
    PathExtend(spine, comps, k, child);
  }

  /** Goes on to the map at `k`, which is created if there is none. */
  method Enter(ghost spine: seq<StringMap>, ghost comps: seq<string>, data: StringMap, k: string)
    returns (child: StringMap)
    requires Path(spine, comps) && spine[|comps|] == data
    requires k in data.entries ==> data.entries[k].Nested?
    modifies if k in data.entries then {} else set n | n in spine
    ensures Path(spine + [child], comps + [k])
    ensures spine[0].Kids() == Entered(old(spine[0].Kids()), comps, k)
    ensures if k in old(data.entries) then spine[0].Repr == old(spine[0].Repr)
            else fresh(child) && child.entries == map[] && spine[0].Repr == old(spine[0].Repr) + {child}
  {
    PathDescend(spine, comps);
    if k in data.entries {
      EnteredDescend(spine[0].Kids(), comps, k);
      child := data.entries[k].node;
      PathExtend(spine, comps, k, child);
    } else {
      child := CreateChild(spine, comps, data, k);
    }
  }

  /** The walk down a dotted key. With `create`, missing maps on the way come into being. */
  method MapFind(key: string, root: StringMap, create: bool)
    returns (position: Position, ghost spine: seq<StringMap>, ghost comps: seq<string>)
    requires root.Valid()
    modifies if create then root.Repr else {}
    ensures root.Valid() && old(root.Repr) <= root.Repr && fresh(root.Repr - old(root.Repr))
    ensures !create || !position.Position? ==> root.Kids() == old(root.Kids()) && root.Repr == old(root.Repr)
    ensures match position
            case Position(k, node) =>
              Walk(old(root.Kids()), key, create) == Place(comps, k) && Path(spine, comps)
              && spine[0] == root && spine[|comps|] == node && root.Kids() == Created(old(root.Kids()), comps)
            case KeyNotFound => Walk(old(root.Kids()), key, create) == NoKey
            case ExpectedMap => Walk(old(root.Kids()), key, create) == NoMap
  {
    var rest, data := key, root;
    spine, comps := [root], [];
    ghost var before := root.Kids();
    ghost var created := false;
    while true
      invariant Path(spine, comps) && spine[0] == root && spine[|comps|] == data
      invariant old(root.Repr) <= root.Repr && fresh(root.Repr - old(root.Repr))
      invariant Arrived(before, key, create, comps, root.Kids(), rest)
      invariant if created then create && data.entries == map[]
                else root.Kids() == before && root.Repr == old(root.Repr)
      decreases |rest|
    {
      PathDescend(spine, comps);
      ArrivedEnd(before, key, create, comps, root.Kids(), rest);
      if rest in data.entries || !HasDot(rest) {
        return Position(rest, data), spine, comps;
      }
      var k := Head(rest);
      if k !in data.entries && !create {
        return KeyNotFound, spine, comps;
      }
      if k in data.entries && data.entries[k].Scalar? {
        return ExpectedMap, spine, comps;
      }
      ArrivedStep(before, key, create, comps, root.Kids(), rest);
      if k in data.entries { EnteredDescend(root.Kids(), comps, k); }
      created := created || k !in data.entries;
      SpineInside(spine, comps);
      data := Enter(spine, comps, data, k);
      spine, comps := spine + [data], comps + [k];
      rest := Tail(rest);
      assert Path(spine, comps) && spine[|comps|] == data;
      assert fresh(root.Repr - old(root.Repr));
      assert Arrived(before, key, create, comps, root.Kids(), rest);
    }
  }

  method DropEntry(ghost spine: seq<StringMap>, ghost comps: seq<string>, data: StringMap, k: string)
    requires Path(spine, comps) && spine[|comps|] == data && data.Valid()
    modifies data`entries
    ensures Path(spine, comps) && spine[0].Repr == old(spine[0].Repr) && data.Valid() && data.Repr == old(data.Repr)
    ensures data.entries == old(data.entries) - {k}
    ensures spine[0].Kids() == Plug(old(spine[0].Kids()), comps, old(data.Kids()) - {k})
  {
    NestFrom(spine, comps);
    data.entries := data.entries - {k};
    assert forall o: StringMap :: o in old(data.Repr) && o != data ==> unchanged(o);
    EntryRemoved(data, k);
    SpineChanged(spine, comps, {});
  }

  /** Removes an entry from the last map of a path. What it led to is no longer a part of the tree. */
  method RemoveAt(ghost spine: seq<StringMap>, ghost comps: seq<string>, data: StringMap, k: string)
    requires Path(spine, comps) && spine[|comps|] == data && data.Valid() && k in data.entries
    requires ValidValue(data.entries[k])
    modifies spine
    ensures spine[0].Valid() && spine[0].Repr <= old(spine[0].Repr)
    ensures spine[0].Kids() == Plug(old(spine[0].Kids()), comps, old(data.Kids()) - {k})
    ensures var v := old(data.entries[k]);
            ValidValue(v) && TreeOf(v) == old(TreeOf(data.entries[k])) && ReprOf(v) !! spine[0].Repr
  {
    NestFrom(spine, comps);
    EntryApart(spine, comps, k);
    ghost var v := data.entries[k];
    ghost var maps := ReprOf(v);
    DropEntry(spine, comps, data, k);
    ApartChanged(data, k, maps);
    Release(spine, comps, maps);
    ValueFramed(v);
  }

  /** A tree without one of its entries is a tree again. */
  twostate lemma EntryRemoved(root: StringMap, new k: string)
    requires old(root.Valid()) && root.entries == old(root.entries) - {k} && root.Repr == old(root.Repr)
    requires forall o :: o in old(root.Repr) && o != root ==> unchanged(o)
    ensures root.Valid() && root.Kids() == old(root.Kids()) - {k}
  {
    forall j | j in root.entries && root.entries[j].Nested?
      ensures var c := root.entries[j].node;
              c.Valid() && c.Repr == old(c.Repr) && c.Kids() == old(c.Kids()) && root.Inside(c)
    {
      var c := root.entries[j].node;
      assert old(root.Inside(c));
      ChildKept(root, j);
    }
  }

  // ---------- Isolation ----------

  /** A map that was taken out of a tree can be put into it again, under another key. */
  method MoveEntry(m: StringMap, from: string, to: string) returns (ok: bool)
    requires m.Valid()
    modifies m.Repr
    ensures m.Valid()
    ensures match Trees.Get(old(m.Kids()), from)
            case Found(tree) =>
              var r := Trees.Delete(old(m.Kids()), from);
              r.Updated? && Trees.Put(r.kids, to, tree) == (if ok then Updated(m.Kids()) else Failed)
            case _ => !ok && m.Kids() == old(m.Kids())
  {
    var entry, _ := m.Get(from);
    if entry == None {
      return false;
    }
    DeleteLikeGet(m.Kids(), from);
    var _, _ := m.Delete(from);
    var replaced;
    ok, replaced := m.Put(to, entry.value);
  }

  /** An update from the same tree a second time changes nothing, although by then the two share maps. */
  method UpdateTwice(m: StringMap, d: StringMap, overwrite: bool)
    requires m.Valid() && d.Valid() && m.Repr !! d.Repr
    modifies m.Repr, d.Repr
    ensures m.Valid() && d.Valid() && d.Kids() == old(d.Kids())
    ensures m.Kids() == Merge(old(m.Kids()), old(d.Kids()), overwrite)
  {
    m.DeepUpdateMap(d, overwrite);
    label Once:
    m.DeepUpdateMap(d, overwrite);
    assert forall o :: o in old@Once(m.Repr) ==> unchanged@Once(o);
    Framed@Once(m);
  }

  datatype Edit =
    | PutEdit(key: string, value: Value)
    | DeleteEdit(key: string)
    | UpdateEdit(source: StringMap, overwrite: bool)

  /** What an edit brings into the tree. */
  function Brought(edit: Edit): Value {
    match edit
    case PutEdit(_, value) => value
    case DeleteEdit(_) => Scalar(0)
    case UpdateEdit(source, _) => Nested(source)
  }

  ghost function Sources(edits: seq<Edit>): set<StringMap>
    reads set e | e in edits && Brought(e).Nested? :: Brought(e).node
  {
    set e, o | e in edits && Brought(e).Nested? && o in Brought(e).node.Repr :: o
  }

  /** What the edits bring are trees that share no map with `apart` or with each other. */
  ghost predicate SourcesApart(edits: seq<Edit>, apart: set<StringMap>)
    reads set e | e in edits && Brought(e).Nested? :: Brought(e).node
    reads set e, o | e in edits && Brought(e).Nested? && o in Brought(e).node.Repr :: o
  {
    && (forall i :: 0 <= i < |edits| && Brought(edits[i]).Nested? ==>
          Brought(edits[i]).node.Valid() && Brought(edits[i]).node.Repr !! apart)
    && (forall i, j :: 0 <= i < j < |edits| && Brought(edits[i]).Nested? && Brought(edits[j]).Nested? ==>
          Brought(edits[i]).node.Repr !! Brought(edits[j]).node.Repr)
  }

  method EditOne(m: StringMap, edit: Edit)
    requires m.Valid() && ValidValue(Brought(edit)) && ReprOf(Brought(edit)) !! m.Repr
    modifies m.Repr
    ensures m.Valid() && fresh(m.Repr - old(m.Repr) - old(ReprOf(Brought(edit))))
  {
    match edit
    case PutEdit(key, value) => var _, _ := m.Put(key, value);
    case DeleteEdit(key) => var _, _ := m.Delete(key);
    case UpdateEdit(source, overwrite) => m.DeepUpdateMap(source, overwrite);
  }

  /** After the first edit the others still bring trees of their own. */
  twostate lemma RestApart(m: StringMap, new edits: seq<Edit>, new other: StringMap)
    requires old(allocated(edits)) && old(allocated(other)) && edits != []
    requires old(SourcesApart(edits, m.Repr + other.Repr)) && other.Repr == old(other.Repr)
    requires forall o :: o in m.Repr && o !in old(m.Repr) && o !in old(ReprOf(Brought(edits[0]))) ==> !old(allocated(o))
    requires forall i :: 1 <= i < |edits| && Brought(edits[i]).Nested? ==>
               forall o :: o in old(Brought(edits[i]).node.Repr) ==> unchanged(o)
    ensures SourcesApart(edits[1..], m.Repr + other.Repr)
    ensures Sources(edits[1..]) <= old(Sources(edits))
  {
    forall i | 1 <= i < |edits| && Brought(edits[i]).Nested? {
      Framed(Brought(edits[i]).node);
    }
  }

  /** Whatever is done to `m`, a tree that shares no map with it or with the sources stays as it is. */
  method EditAll(m: StringMap, edits: seq<Edit>, ghost other: StringMap)
    requires m.Valid() && other.Valid() && m.Repr !! other.Repr
    requires SourcesApart(edits, m.Repr + other.Repr)
    modifies m.Repr, Sources(edits)
    ensures m.Valid() && other.Valid() && other.Kids() == old(other.Kids())
    decreases |edits|
  {
    if edits != [] {
      EditOne(m, edits[0]);
      Framed(other);
      RestApart(m, edits, other);
      EditAll(m, edits[1..], other);
    }
  }

  /** Neither a copy nor its original sees what is done to the other. */
  method CloneAndEdit(m: StringMap, edits: seq<Edit>, editCopy: bool) returns (copy: StringMap)
    requires m.Valid() && SourcesApart(edits, m.Repr)
    modifies m.Repr, Sources(edits)
    ensures m.Valid() && copy.Valid()
    ensures if editCopy then m.Kids() == old(m.Kids()) else copy.Kids() == old(m.Kids())
  {
    copy := m.Clone();
    if editCopy {
      EditAll(copy, edits, m);
    } else {
      EditAll(m, edits, copy);
    }
  }
}
