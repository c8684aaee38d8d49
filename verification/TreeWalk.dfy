/** The walk of `mapFind` in utils/smap/smap.go down a tree, and the operations in terms of where it ends. */
module TreeWalk {
  import opened Trees

  /** The keys of the maps gone through and the key to use in the last of them, or why there is none. */
  datatype Place = Place(comps: seq<string>, key: string) | NoKey | NoMap

  function Under(comps: seq<string>, place: Place): Place {
    if place.Place? then Place(comps + place.comps, place.key) else place
  }

  function Walk(kids: Kids, key: string, create: bool): Place
    decreases |key|
  {
    if key in kids || !HasDot(key) then Place([], key)
    else if Head(key) !in kids then
      if create then Under([Head(key)], Walk(map[], Tail(key), create)) else NoKey
    else match kids[Head(key)]
      case Leaf(_) => NoMap
      case Dir(sub) => Under([Head(key)], Walk(sub, Tail(key), create))
  }

  function SubMap(kids: Kids, k: string): Kids {
    if k in kids && kids[k].Dir? then kids[k].kids else map[]
  }

  function Descend(kids: Kids, comps: seq<string>): Kids
    decreases |comps|
  {
    if comps == [] then kids else Descend(SubMap(kids, comps[0]), comps[1..])
  }

  /** The tree with `bottom` in the place that `comps` leads to. */
  function Plug(kids: Kids, comps: seq<string>, bottom: Kids): Kids
    decreases |comps|
  {
    if comps == [] then bottom
    else kids[comps[0] := Dir(Plug(SubMap(kids, comps[0]), comps[1..], bottom))]
  }

  /** The tree with empty maps in the places on the way that had none. */
  function Created(kids: Kids, comps: seq<string>): Kids
  {
    Plug(kids, comps, Descend(kids, comps))
  }

  predicate HasDirs(kids: Kids, comps: seq<string>)
    decreases |comps|
  {
    comps == [] || (comps[0] in kids && kids[comps[0]].Dir? && HasDirs(kids[comps[0]].kids, comps[1..]))
  }

  lemma {:induction false} CreatedExisting(kids: Kids, comps: seq<string>)
    requires HasDirs(kids, comps)
    ensures Created(kids, comps) == kids
    decreases |comps|
  {
    if comps != [] { CreatedExisting(kids[comps[0]].kids, comps[1..]); }
  }

  lemma {:induction false} DescendPlug(kids: Kids, comps: seq<string>, bottom: Kids)
    ensures Descend(Plug(kids, comps, bottom), comps) == bottom
    decreases |comps|
  {
    if comps != [] { DescendPlug(SubMap(kids, comps[0]), comps[1..], bottom); }
  }

  lemma {:induction false} PlugPlug(kids: Kids, comps: seq<string>, a: Kids, b: Kids)
    ensures Plug(Plug(kids, comps, a), comps, b) == Plug(kids, comps, b)
    decreases |comps|
  {
    if comps != [] { PlugPlug(SubMap(kids, comps[0]), comps[1..], a, b); }
  }

  lemma {:induction false} DescendSnoc(kids: Kids, comps: seq<string>, k: string)
    ensures Descend(kids, comps + [k]) == SubMap(Descend(kids, comps), k)
    decreases |comps|
  {
    if comps == [] {
      assert comps + [k] == [k] && [k][1..] == [];
    } else {
      DescendSnoc(SubMap(kids, comps[0]), comps[1..], k);
      assert (comps + [k])[1..] == comps[1..] + [k];
    }
  }

  lemma {:induction false} PlugSnoc(kids: Kids, comps: seq<string>, k: string, bottom: Kids)
    ensures Plug(kids, comps + [k], bottom) == Plug(kids, comps, Descend(kids, comps)[k := Dir(bottom)])
    decreases |comps|
  {
    if comps == [] {
      assert comps + [k] == [k] && [k][1..] == [];
    } else {
      PlugSnoc(SubMap(kids, comps[0]), comps[1..], k, bottom);
      assert (comps + [k])[1..] == comps[1..] + [k];
    }
  }

  /** One more map on the way: if it was not there, the place now has an empty one. */
  lemma CreatedSnoc(kids: Kids, comps: seq<string>, k: string)
    ensures var here := Descend(kids, comps);
            Created(kids, comps + [k]) == Plug(kids, comps, here[k := Dir(SubMap(here, k))])
  {
    PlugSnoc(kids, comps, k, SubMap(Descend(kids, comps), k));
    DescendSnoc(kids, comps, k);
  }

  /** The walk of `key` in `before` has come to `comps` and goes on with `rest`; `kids` is what it has made of
      the tree so far. */
  ghost predicate Arrived(before: Kids, key: string, create: bool, comps: seq<string>, kids: Kids, rest: string) {
    kids == Created(before, comps)
    && Walk(before, key, create) == Under(comps, Walk(Descend(kids, comps), rest, create))
  }

  function Entered(kids: Kids, comps: seq<string>, k: string): Kids {
    var here := Descend(kids, comps);
    Plug(kids, comps, here[k := Dir(SubMap(here, k))])
  }

  lemma EnteredCreated(before: Kids, comps: seq<string>, k: string)
    ensures Entered(Created(before, comps), comps, k) == Created(before, comps + [k])
    ensures Descend(Created(before, comps), comps) == Descend(before, comps)
  {
    var here := Descend(before, comps);
    DescendPlug(before, comps, here);
    CreatedSnoc(before, comps, k);
    PlugPlug(before, comps, here, here[k := Dir(SubMap(here, k))]);
  }

  lemma EnteredDescend(kids: Kids, comps: seq<string>, k: string)
    ensures Descend(Entered(kids, comps, k), comps + [k]) == SubMap(Descend(kids, comps), k)
    ensures var here := Descend(kids, comps);
            HasDirs(kids, comps) && k in here && here[k].Dir? ==> Entered(kids, comps, k) == kids
  {
    var here := Descend(kids, comps);
    DescendSnoc(Entered(kids, comps, k), comps, k);
    DescendPlug(kids, comps, here[k := Dir(SubMap(here, k))]);
    if HasDirs(kids, comps) && k in here && here[k].Dir? {
      assert here[k := Dir(SubMap(here, k))] == here;
      CreatedExisting(kids, comps);
    }
  }

  lemma UnderUnder(comps: seq<string>, k: string, place: Place)
    ensures Under(comps, Under([k], place)) == Under(comps + [k], place)
  {
    if place.Place? { assert comps + ([k] + place.comps) == comps + [k] + place.comps; }
  }

  /** One step of the walk. */
  lemma ArrivedStep(before: Kids, key: string, create: bool, comps: seq<string>, kids: Kids, rest: string)
    requires Arrived(before, key, create, comps, kids, rest)
    requires var here := Descend(kids, comps);
             rest !in here && HasDot(rest) && if Head(rest) in here then here[Head(rest)].Dir? else create
    ensures Arrived(before, key, create, comps + [Head(rest)], Entered(kids, comps, Head(rest)), Tail(rest))
  {
    var here, k := Descend(kids, comps), Head(rest);
    EnteredCreated(before, comps, k);
    EnteredDescend(kids, comps, k);
    UnderUnder(comps, k, Walk(SubMap(here, k), Tail(rest), create));
  }

  /** Where the walk ends. */
  lemma ArrivedEnd(before: Kids, key: string, create: bool, comps: seq<string>, kids: Kids, rest: string)
    requires Arrived(before, key, create, comps, kids, rest)
    ensures var here := Descend(kids, comps);
            if rest in here || !HasDot(rest) then Walk(before, key, create) == Place(comps, rest)
            else if Head(rest) !in here then !create ==> Walk(before, key, create) == NoKey
            else here[Head(rest)].Leaf? ==> Walk(before, key, create) == NoMap
  {
    assert comps + [] == comps;
  }

  // ---------- The operations ----------

  lemma {:induction false} PutByWalk(kids: Kids, key: string, tree: Tree)
    ensures Put(kids, key, tree)
         == match Walk(kids, key, true)
            case Place(comps, k) => Updated(Plug(kids, comps, Descend(kids, comps)[k := tree]))
            case _ => Failed
    decreases |key|
  {
    if key !in kids && HasDot(key) && (Head(key) in kids ==> kids[Head(key)].Dir?) {
      var sub := SubMap(kids, Head(key));
      PutByWalk(sub, Tail(key), tree);
      var place := Walk(sub, Tail(key), true);
      if place.Place? {
        assert ([Head(key)] + place.comps)[1..] == place.comps;
      }
    }
  }

  lemma {:induction false} GetByWalk(kids: Kids, key: string)
    ensures Get(kids, key)
         == match Walk(kids, key, false)
            case Place(comps, k) => if k in Descend(kids, comps) then Found(Descend(kids, comps)[k]) else NotFound
            case NoKey => NotFound
            case NoMap => NotMap
    ensures var place := Walk(kids, key, false); place.Place? ==> HasDirs(kids, place.comps)
    decreases |key|
  {
    if key !in kids && HasDot(key) && Head(key) in kids && kids[Head(key)].Dir? {
      var sub := kids[Head(key)].kids;
      GetByWalk(sub, Tail(key));
      var place := Walk(sub, Tail(key), false);
      if place.Place? {
        assert ([Head(key)] + place.comps)[1..] == place.comps;
      }
    }
  }

  /** A walk that creates maps ends where a lookup of the same key would, if there is anything to find. */
  lemma {:induction false} GetByCreatingWalk(kids: Kids, key: string)
    ensures match Walk(kids, key, true)
            case Place(comps, k) =>
              Get(kids, key) == if k in Descend(kids, comps) then Found(Descend(kids, comps)[k]) else NotFound
            case _ => Get(kids, key) == NotMap
    decreases |key|
  {
    if key !in kids && HasDot(key) && (Head(key) in kids ==> kids[Head(key)].Dir?) {
      var sub := SubMap(kids, Head(key));
      GetByCreatingWalk(sub, Tail(key));
      var place := Walk(sub, Tail(key), true);
      if Head(key) !in kids { GetFromEmpty(Tail(key)); }
      if place.Place? {
        assert ([Head(key)] + place.comps)[1..] == place.comps;
      }
    }
  }

  lemma {:induction false} DeleteByWalk(kids: Kids, key: string)
    ensures Delete(kids, key)
         == match Walk(kids, key, false)
            case Place(comps, k) =>
              if k in Descend(kids, comps) then Updated(Plug(kids, comps, Descend(kids, comps) - {k})) else Missing
            case NoKey => Missing
            case NoMap => Failed
    decreases |key|
  {
    if key !in kids && HasDot(key) && Head(key) in kids && kids[Head(key)].Dir? {
      var sub := kids[Head(key)].kids;
      DeleteByWalk(sub, Tail(key));
      var place := Walk(sub, Tail(key), false);
      if place.Place? {
        assert ([Head(key)] + place.comps)[1..] == place.comps;
      }
    }
  }

  lemma PutInCreated(kids: Kids, comps: seq<string>, k: string, tree: Tree)
    ensures var created := Created(kids, comps);
            Plug(created, comps, Descend(created, comps)[k := tree]) ==
            Plug(kids, comps, Descend(kids, comps)[k := tree])
  {
    DescendPlug(kids, comps, Descend(kids, comps));
    PlugPlug(kids, comps, Descend(kids, comps), Descend(kids, comps)[k := tree]);
  }
}
