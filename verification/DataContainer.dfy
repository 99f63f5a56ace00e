/** DataContainer.cpp: data items under a component and an object id.  Each component has a
    sub-map of its own on the heap, created with its first item and deleted with its last. */
module DataContainer {
  import opened Results
  import opened Sequences

  datatype Guid = Guid(bits: nat)
  type Item = int

  // ---------- two levels and one ----------

  type Levels = map<Guid, map<Guid, Item>>

  type Flat = map<(Guid, Guid), Item>

  ghost predicate InLevels(m: Levels, c: Guid, o: Guid) {
    c in m && o in m[c]
  }

  /** The one-level map that the two levels stand for. */
  ghost predicate Flattens(m: Levels, f: Flat) {
    && (forall c, o :: (c, o) in f <==> InLevels(m, c, o))
    && (forall c, o :: (c, o) in f ==> f[(c, o)] == m[c][o])
  }

  ghost predicate NoEmptyLevel(m: Levels) {
    forall c :: c in m ==> exists o :: o in m[c]
  }

  function WithItem(m: Levels, c: Guid, o: Guid, x: Item): Levels {
    m[c := (if c in m then m[c] else map[])[o := x]]
  }

  function WithoutItem(m: Levels, c: Guid, o: Guid): Levels {
    if c !in m then m
    else if |m[c] - {o}| == 0 then m - {c}
    else m[c := m[c] - {o}]
  }

  lemma {:induction false} SetRefines(m: Levels, f: Flat, c: Guid, o: Guid, x: Item)
    requires Flattens(m, f) && forall d :: d in m && d != c ==> exists o :: o in m[d]
    ensures Flattens(WithItem(m, c, o, x), f[(c, o) := x]) && NoEmptyLevel(WithItem(m, c, o, x))
  {
    assert o in WithItem(m, c, o, x)[c];
    forall c', o' ensures (c', o') in f[(c, o) := x] <==> InLevels(WithItem(m, c, o, x), c', o') {
      assert (c', o') in f <==> InLevels(m, c', o');
    }
  }

  lemma {:induction false} ClearRefines(m: Levels, f: Flat, c: Guid, o: Guid)
    requires Flattens(m, f) && NoEmptyLevel(m)
    ensures Flattens(WithoutItem(m, c, o), f - {(c, o)}) && NoEmptyLevel(WithoutItem(m, c, o))
  {
    forall c', o' ensures (c', o') in f - {(c, o)} <==> InLevels(WithoutItem(m, c, o), c', o') {
      assert (c', o') in f <==> InLevels(m, c', o');
      if c' == c && c in m && |m[c] - {o}| == 0 {
        assert o' in m[c] - {o} <==> o' in m[c] && o' != o;
      }
    }
  }

  lemma {:induction false} EmptyLevelAddsNothing(m: Levels, f: Flat, c: Guid)
    requires Flattens(m, f) && c !in m
    ensures Flattens(m[c := map[]], f)
  {
    forall d, o ensures (d, o) in f <==> InLevels(m[c := map[]], d, o) {
      assert (d, o) in f <==> InLevels(m, d, o);
    }
  }

  lemma {:induction false} WithoutInSteps(m: Levels, c: Guid, o: Guid)
    requires c in m
    ensures WithoutItem(m, c, o) ==
      if |m[c] - {o}| == 0 then m[c := m[c] - {o}] - {c} else m[c := m[c] - {o}]
  {
  }

  lemma {:induction false} ComponentsIncluded(m: Levels, n: Levels, f: Flat)
    requires Flattens(m, f) && Flattens(n, f) && NoEmptyLevel(m)
    ensures forall c :: c in m ==> c in n
  {
    forall c | c in m ensures c in n {
      var o :| o in m[c];
      assert InLevels(m, c, o) && (c, o) in f && InLevels(n, c, o);
    }
  }

  /** With no empty sub-map, the contents decide the structure: nothing is left behind by
      items that were set and removed again. */
  lemma {:induction false} StructureFollowsContents(m: Levels, n: Levels, f: Flat)
    requires Flattens(m, f) && Flattens(n, f) && NoEmptyLevel(m) && NoEmptyLevel(n)
    ensures m == n
  {
    ComponentsIncluded(m, n, f);
    ComponentsIncluded(n, m, f);
    assert m.Keys == n.Keys;
    forall c | c in m ensures m[c] == n[c] {
      forall o ensures o in m[c].Keys <==> o in n[c].Keys {
        assert InLevels(m, c, o) <==> (c, o) in f;
        assert InLevels(n, c, o) <==> (c, o) in f;
      }
      assert m[c].Keys == n[c].Keys;
      forall o | o in m[c] ensures m[c][o] == n[c][o] {
        assert (c, o) in f by { assert InLevels(m, c, o); }
      }
    }
  }

  // ---------- the container ----------

  class SubMap {
    var items: map<Guid, Item>

    constructor ()
      ensures items == map[]
    {
      items := map[];
    }
  }

  ghost predicate OnePerComponent(subMaps: map<Guid, SubMap>) {
    forall c, d :: c in subMaps && d in subMaps && c != d ==> subMaps[c] != subMaps[d]
  }

  ghost function Used(subMaps: map<Guid, SubMap>): set<SubMap> {
    set c | c in subMaps :: subMaps[c]
  }

  ghost function Elements(s: seq<SubMap>): set<SubMap> {
    set t | t in s
  }

  /** Every sub-map that was created is either in use by one component or freed, once. */
  ghost predicate Owned(subMaps: map<Guid, SubMap>, created: set<SubMap>, freed: seq<SubMap>) {
    && OnePerComponent(subMaps)
    && Distinct(freed)
    && Used(subMaps) !! Elements(freed)
    && created == Used(subMaps) + Elements(freed)
  }

  lemma {:induction false} OwnedAfterNew(subMaps: map<Guid, SubMap>, created: set<SubMap>, freed: seq<SubMap>,
      c: Guid, s: SubMap)
    requires Owned(subMaps, created, freed) && c !in subMaps && s !in created
    ensures Owned(subMaps[c := s], created + {s}, freed)
  {
    var after := subMaps[c := s];
    assert Used(after) == Used(subMaps) + {s} by {
      assert after[c] == s;
      assert forall d :: d in subMaps ==> after[d] == subMaps[d];
    }
    forall d | d in subMaps ensures after[d] != s {
      assert subMaps[d] in Used(subMaps);
    }
  }

  lemma {:induction false} OwnedAfterDelete(subMaps: map<Guid, SubMap>, created: set<SubMap>,
      freed: seq<SubMap>, c: Guid)
    requires Owned(subMaps, created, freed) && c in subMaps
    ensures Owned(subMaps - {c}, created, freed + [subMaps[c]])
  {
    var after, s := subMaps - {c}, subMaps[c];
    assert s in Used(subMaps) && s !in Elements(freed);
    assert Used(after) == Used(subMaps) - {s} by {
      assert forall d :: d in after ==> after[d] == subMaps[d] && subMaps[d] != s;
      assert forall d :: d in subMaps && d != c ==> d in after;
    }
    assert Elements(freed + [s]) == Elements(freed) + {s};
  }

  /** So the sub-maps created minus those freed are as many as the components. */
  lemma {:induction false} OwnedCount(subMaps: map<Guid, SubMap>, created: set<SubMap>, freed: seq<SubMap>)
    requires Owned(subMaps, created, freed)
    ensures |created| == |subMaps| + |freed|
  {
    UsedCount(subMaps);
    ElementsCount(freed);
  }

  ghost function UsedBy(subMaps: map<Guid, SubMap>, components: set<Guid>): set<SubMap>
    requires components <= subMaps.Keys
  {
    set c | c in components :: subMaps[c]
  }

  lemma {:induction false} UsedByCount(subMaps: map<Guid, SubMap>, components: set<Guid>)
    requires OnePerComponent(subMaps) && components <= subMaps.Keys
    ensures |UsedBy(subMaps, components)| == |components|
  {
    if components != {} {
      var c :| c in components;
      UsedByCount(subMaps, components - {c});
      assert UsedBy(subMaps, components) == UsedBy(subMaps, components - {c}) + {subMaps[c]};
    }
  }

  lemma {:induction false} UsedCount(subMaps: map<Guid, SubMap>)
    requires OnePerComponent(subMaps)
    ensures |Used(subMaps)| == |subMaps|
  {
    UsedByCount(subMaps, subMaps.Keys);
    assert Used(subMaps) == UsedBy(subMaps, subMaps.Keys);
    assert |subMaps| == |subMaps.Keys|;
  }

  lemma {:induction false} ElementsCount(s: seq<SubMap>)
    requires Distinct(s)
    ensures |Elements(s)| == |s|
  {
    if s != [] {
      var n := |s| - 1;
      ElementsCount(s[..n]);
      assert s == s[..n] + [s[n]];
      assert Elements(s) == Elements(s[..n]) + {s[n]} && s[n] !in s[..n];
    }
  }

  class CDataContainer {
    var subMaps: map<Guid, SubMap>
    ghost var contents: Flat
    ghost var created: set<SubMap>
    ghost var freed: seq<SubMap>

    ghost function TwoLevels(): Levels
      reads this`subMaps, subMaps.Values
    {
      map c | c in subMaps :: subMaps[c].items
    }

    ghost predicate Valid()
      reads this, subMaps.Values
    {
      && Owned(subMaps, created, freed)
      && NoEmptyLevel(TwoLevels())
      && Flattens(TwoLevels(), contents)
    }

    constructor ()
      ensures Valid() && contents == map[] && created == {} && freed == []
    {
      subMaps, contents, created, freed := map[], map[], {}, [];
    }

    /** Without an item the entry is removed, and no sub-map is created for it. */
    method SetDataItem(component: Guid, objectId: Guid, item: Option<Item>) returns (hr: HResult)
      requires Valid()
      modifies this, subMaps.Values
      ensures Valid() && hr == S_OK
      ensures contents == if item.Some? then old(contents)[(component, objectId) := item.value]
                          else old(contents) - {(component, objectId)}
      ensures forall s :: s in created - old(created) ==> fresh(s)
    {
      var sub: SubMap? := null;
      if component !in subMaps {
        if item.Some? {
          sub := AddSubMap(component);
        }
      } else {
        sub := subMaps[component];
      }
      if sub != null {
        if item.None? {
          RemoveFrom(sub, component, objectId);
        } else {
          StoreIn(sub, component, objectId, item.value);
        }
      } else {
        ClearRefines(TwoLevels(), contents, component, objectId);
        contents := contents - {(component, objectId)};
      }
      hr := S_OK;
    }

    /** The two levels, but for an empty sub-map that one component may have. */
    ghost predicate ValidBut(component: Guid)
      reads this, subMaps.Values
    {
      && Owned(subMaps, created, freed)
      && (forall c :: c in TwoLevels() && c != component ==> exists o :: o in TwoLevels()[c])
      && Flattens(TwoLevels(), contents)
    }

    method AddSubMap(component: Guid) returns (sub: SubMap)
      requires Valid() && component !in subMaps
      modifies this
      ensures fresh(sub) && subMaps == old(subMaps)[component := sub] && created == old(created) + {sub}
      ensures ValidBut(component) && contents == old(contents) && freed == old(freed)
    {
      sub := new SubMap();
      OwnedAfterNew(subMaps, created, freed, component, sub);
      ghost var was := TwoLevels();
      subMaps := subMaps[component := sub];
      created := created + {sub};
      assert TwoLevels() == was[component := map[]];
      EmptyLevelAddsNothing(was, contents, component);
    }

    method StoreIn(sub: SubMap, component: Guid, objectId: Guid, item: Item)
      requires component in subMaps && subMaps[component] == sub && ValidBut(component)
      modifies sub, this`contents
      ensures Valid() && contents == old(contents)[(component, objectId) := item]
    {
      ghost var was := TwoLevels();
      sub.items := sub.items[objectId := item];
      SetRefines(was, contents, component, objectId, item);
      contents := contents[(component, objectId) := item];
      ghost var now := WithItem(was, component, objectId, item);
      assert TwoLevels().Keys == now.Keys;
      assert forall c :: c in now ==> TwoLevels()[c] == now[c];
      assert TwoLevels() == now;
    }

    method RemoveFrom(sub: SubMap, component: Guid, objectId: Guid)
      requires component in subMaps && subMaps[component] == sub && Valid()
      modifies sub, this`subMaps, this`freed, this`contents
      ensures Valid() && contents == old(contents) - {(component, objectId)}
    {
      ghost var now := WithoutItem(TwoLevels(), component, objectId);
      ghost var after := contents - {(component, objectId)};
      ClearRefines(TwoLevels(), contents, component, objectId);
      RemoveAndDrop(sub, component, objectId, now);
      Adopt(now, after);
    }

    ghost method Adopt(now: Levels, after: Flat)
      requires Owned(subMaps, created, freed) && TwoLevels() == now
      requires Flattens(now, after) && NoEmptyLevel(now)
      modifies this`contents
      ensures Valid() && contents == after
    {
      contents := after;
    }

    method RemoveAndDrop(sub: SubMap, component: Guid, objectId: Guid, ghost now: Levels)
      requires component in subMaps && subMaps[component] == sub && Owned(subMaps, created, freed)
      requires now == WithoutItem(TwoLevels(), component, objectId)
      modifies sub, this`subMaps, this`freed
      ensures Owned(subMaps, created, freed) && TwoLevels() == now
    {
      WithoutInSteps(TwoLevels(), component, objectId);
      RemoveKey(sub, component, objectId);
      if |sub.items| == 0 {
        Drop(component);
      }
    }

    method RemoveKey(sub: SubMap, component: Guid, objectId: Guid)
      requires component in subMaps && subMaps[component] == sub && OnePerComponent(subMaps)
      modifies sub
      ensures sub.items == old(sub.items) - {objectId}
      ensures TwoLevels() == old(TwoLevels())[component := sub.items]
    {
      sub.items := sub.items - {objectId};
      assert forall c :: c in subMaps && c != component ==> subMaps[c] != sub;
    }

    /** RemoveKey and delete on the outer map. */
    method Drop(component: Guid)
      requires component in subMaps && Owned(subMaps, created, freed)
      modifies this`subMaps, this`freed
      ensures Owned(subMaps, created, freed) && subMaps == old(subMaps) - {component}
      ensures TwoLevels() == old(TwoLevels()) - {component}
    {
      OwnedAfterDelete(subMaps, created, freed, component);
      freed := freed + [subMaps[component]];
      subMaps := subMaps - {component};
    }

    method GetDataItem(component: Guid, objectId: Guid) returns (hr: HResult, item: Option<Item>)
      requires Valid()
      ensures hr == if item.Some? then S_OK else E_FAIL
      ensures item == if (component, objectId) in contents then Some(contents[(component, objectId)]) else None
    {
      assert (component, objectId) in contents <==> InLevels(TwoLevels(), component, objectId);
      if component in subMaps {
        var sub := subMaps[component];
        if objectId in sub.items {
          return S_OK, Some(sub.items[objectId]);
        }
      }
      return E_FAIL, None;
    }

    /** The destructor walks the map in the order of its positions, whatever that is, and
        deletes what is still in use. */
    method Destroy(positions: seq<Guid>)
      requires Owned(subMaps, created, freed)
      requires forall c :: c in positions <==> c in subMaps
      requires forall i, j :: 0 <= i < j < |positions| ==> positions[i] != positions[j]
      modifies this`freed
      ensures Distinct(freed) && Elements(freed) == created
    {
      var i := 0;
      while i < |positions|
        invariant 0 <= i <= |positions|
        invariant freed == old(freed) + Visited(subMaps, positions[..i])
      {
        assert positions[..i + 1] == positions[..i] + [positions[i]];
        freed := freed + [subMaps[positions[i]]];
        i := i + 1;
      }
      assert positions[..i] == positions;
      VisitedAll(subMaps, positions);
      ghost var before, visited := old(freed), Visited(subMaps, positions);
      forall i, j | 0 <= i < |before| && 0 <= j < |visited| ensures before[i] != visited[j] {
        assert before[i] in Elements(before) && visited[j] in Elements(visited);
      }
      assert Elements(freed) == Elements(before) + Elements(visited);
    }
  }

  ghost function Visited(subMaps: map<Guid, SubMap>, positions: seq<Guid>): seq<SubMap>
    requires forall c :: c in positions ==> c in subMaps
  {
    seq(|positions|, i requires 0 <= i < |positions| => subMaps[positions[i]])
  }

  lemma {:induction false} VisitedAll(subMaps: map<Guid, SubMap>, positions: seq<Guid>)
    requires OnePerComponent(subMaps)
    requires forall c :: c in positions <==> c in subMaps
    requires forall i, j :: 0 <= i < j < |positions| ==> positions[i] != positions[j]
    ensures Distinct(Visited(subMaps, positions))
    ensures Elements(Visited(subMaps, positions)) == Used(subMaps)
  {
    var visited := Visited(subMaps, positions);
    forall c | c in subMaps ensures subMaps[c] in visited {
      var i :| 0 <= i < |positions| && positions[i] == c;
      assert visited[i] == subMaps[c];
    }
    forall s | s in visited ensures s in Used(subMaps) {
      var i :| 0 <= i < |visited| && visited[i] == s;
      assert positions[i] in subMaps;
    }
  }
}
