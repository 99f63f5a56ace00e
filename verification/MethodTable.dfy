/** MethodInstrumentationInfoKey.cpp: the comparison of keys as it is written, which is not an
    order on all keys, and when it is one. */
module MethodInstrumentationInfoKey {

  datatype Key = Key(assembly: string, mod: string, name: string, args: int)

  /** std::wstring's operator<. */
  predicate StringLess(a: string, b: string) {
    b != [] && (a == [] || a[0] < b[0] || (a[0] == b[0] && StringLess(a[1..], b[1..])))
  }

  /** The strings agree up to place i, where the first ends or has the smaller letter. */
  ghost predicate SmallerAt(a: string, b: string, i: nat) {
    i <= |a| && i < |b| && a[..i] == b[..i] && (i < |a| ==> a[i] < b[i])
  }

  lemma {:induction false} SmallerBehindTheFirst(a: string, b: string, i: nat)
    requires a != [] && b != [] && i > 0
    ensures SmallerAt(a, b, i) <==> a[0] == b[0] && SmallerAt(a[1..], b[1..], i - 1)
  {
    if i <= |a| && i < |b| {
      assert a[..i] == [a[0]] + a[1..][..i - 1] && b[..i] == [b[0]] + b[1..][..i - 1];
      assert a[..i][1..] == a[1..][..i - 1] && b[..i][1..] == b[1..][..i - 1];
      assert a[..i] == b[..i] ==> a[..i][0] == b[..i][0] && a[..i][1..] == b[..i][1..];
    }
  }

  lemma {:induction false} LessIsLexicographic(a: string, b: string)
    ensures StringLess(a, b) <==> exists i: nat :: SmallerAt(a, b, i)
  {
    if a == [] || b == [] {
      assert b != [] ==> SmallerAt(a, b, 0);
    } else {
      LessIsLexicographic(a[1..], b[1..]);
      assert a[0] < b[0] ==> SmallerAt(a, b, 0);
      forall i: nat | i > 0 ensures SmallerAt(a, b, i) <==> a[0] == b[0] && SmallerAt(a[1..], b[1..], i - 1) {
        SmallerBehindTheFirst(a, b, i);
      }
      if i: nat :| SmallerAt(a[1..], b[1..], i) {
        SmallerBehindTheFirst(a, b, i + 1);
      }
    }
  }

  predicate Less(l: Key, r: Key) {
    if StringLess(l.assembly, r.assembly) then true
    else if l.assembly == r.assembly && StringLess(l.mod, r.mod) then true
    else if l.mod == r.mod && StringLess(l.name, r.name) then true
    else if l.name == r.name && l.args < r.args then true
    else false
  }

  lemma {:induction false} StringTrichotomy(a: string, b: string)
    ensures !(StringLess(a, b) && StringLess(b, a))
    ensures !StringLess(a, b) && !StringLess(b, a) <==> a == b
  {
    if a != [] && b != [] {
      StringTrichotomy(a[1..], b[1..]);
      assert a == [a[0]] + a[1..] && b == [b[0]] + b[1..];
    }
  }

  lemma {:induction false} StringTransitive(a: string, b: string, c: string)
    requires StringLess(a, b) && StringLess(b, c)
    ensures StringLess(a, c)
  {
    if a != [] && a[0] == b[0] == c[0] {
      StringTransitive(a[1..], b[1..], c[1..]);
    }
  }

  /** What does hold for all keys: two that are not less than each other are the same. */
  lemma {:induction false} IncomparableMeansEqual(a: Key, b: Key)
    ensures !Less(a, b) && !Less(b, a) <==> a == b
  {
    StringTrichotomy(a.assembly, b.assembly);
    StringTrichotomy(a.mod, b.mod);
    StringTrichotomy(a.name, b.name);
  }

  /** Two keys are each less than the other exactly if a later field decides the other way
      although an earlier one, which it does not recheck, differs. */
  lemma {:induction false} BothLessIff(a: Key, b: Key)
    requires Less(a, b)
    ensures Less(b, a) <==>
      || (a.assembly != b.assembly && a.mod == b.mod && a.name != b.name
          && (StringLess(a.assembly, b.assembly) <==> StringLess(b.name, a.name)))
      || (a.name == b.name && a.args != b.args && a.assembly != b.assembly
          && (StringLess(a.assembly, b.assembly) <==> b.args < a.args))
      || (a.name == b.name && a.args != b.args && a.assembly == b.assembly && a.mod != b.mod
          && (StringLess(a.mod, b.mod) <==> b.args < a.args))
  {
    StringTrichotomy(a.assembly, b.assembly);
    StringTrichotomy(a.mod, b.mod);
    StringTrichotomy(a.name, b.name);
  }

  lemma {:induction false} NotAsymmetric() returns (a: Key, b: Key)
    ensures Less(a, b) && Less(b, a)
  {
    a, b := Key("2", "m", "a", 0), Key("1", "m", "b", 0);
    assert StringLess(b.assembly, a.assembly) && StringLess(a.name, b.name);
  }

  /** On these keys the comparison is a strict total order. */
  ghost predicate OrderedOn(keys: set<Key>) {
    && (forall a, b :: a in keys && b in keys && Less(a, b) ==> !Less(b, a))
    && (forall a, b, c :: a in keys && b in keys && c in keys && Less(a, b) && Less(b, c) ==> Less(a, c))
  }

  predicate SameModule(a: Key, b: Key) {
    a.assembly == b.assembly && a.mod == b.mod
  }

  lemma {:induction false} SameModuleLess(a: Key, b: Key)
    requires SameModule(a, b)
    ensures Less(a, b) <==> StringLess(a.name, b.name) || (a.name == b.name && a.args < b.args)
    ensures !(Less(a, b) && Less(b, a))
  {
    StringTrichotomy(a.assembly, b.assembly);
    StringTrichotomy(a.mod, b.mod);
    StringTrichotomy(a.name, b.name);
  }

  lemma {:induction false} SameModuleIsOrdered(keys: set<Key>)
    requires forall a, b :: a in keys && b in keys ==> SameModule(a, b)
    ensures OrderedOn(keys)
  {
    forall a, b | a in keys && b in keys && Less(a, b) ensures !Less(b, a) {
      SameModuleLess(a, b);
    }
    forall a, b, c | a in keys && b in keys && c in keys && Less(a, b) && Less(b, c) ensures Less(a, c) {
      SameModuleLess(a, b);
      SameModuleLess(b, c);
      SameModuleLess(a, c);
      if a.name != b.name && b.name != c.name {
        StringTransitive(a.name, b.name, c.name);
      }
    }
  }
}

/** MethodInstrumentationInfoCollection.cpp: a std::map ordered by that comparison.  The map is
    a binary search tree; any rotations may follow an insertion. */
module MethodInstrumentationInfoCollection {
  import opened Results
  import opened Sequences
  import opened MethodInstrumentationInfoKey

  datatype Info = Info(
    assembly: string, mod: string, name: string, argsCount: int,
    methodId: int, instance: nat, instanceMethod: nat)

  function KeyOf(x: Info): Key {
    Key(x.assembly, x.mod, x.name, x.argsCount)
  }

  datatype Tree = Leaf | Node(left: Tree, item: Info, right: Tree)

  function InOrder(t: Tree): seq<Info> {
    match t
    case Leaf => []
    case Node(l, x, r) => InOrder(l) + [x] + InOrder(r)
  }

  // ---------- the map's search ----------

  /** The last node, on the way down, whose key is not less than `k`. */
  function LowerBound(t: Tree, k: Key, best: Option<Info>): Option<Info> {
    match t
    case Leaf => best
    case Node(l, x, r) => if Less(KeyOf(x), k) then LowerBound(r, k, best) else LowerBound(l, k, Some(x))
  }

  function Find(t: Tree, k: Key): Option<Info> {
    var bound := LowerBound(t, k, None);
    if bound.None? || Less(k, KeyOf(bound.value)) then None else bound
  }

  lemma {:induction false} LowerBoundNotLess(t: Tree, k: Key, best: Option<Info>)
    ensures LowerBound(t, k, best) == best
      || (LowerBound(t, k, best).Some? && LowerBound(t, k, best).value in InOrder(t)
          && !Less(KeyOf(LowerBound(t, k, best).value), k))
  {
    match t
    case Leaf =>
    case Node(l, x, r) =>
      if Less(KeyOf(x), k) {
        LowerBoundNotLess(r, k, best);
      } else {
        LowerBoundNotLess(l, k, Some(x));
      }
  }

  /** Whatever the tree looks like, what is found has exactly the key that was asked for. */
  lemma {:induction false} FoundHasTheKey(t: Tree, k: Key)
    ensures Find(t, k).Some? ==> Find(t, k).value in InOrder(t) && KeyOf(Find(t, k).value) == k
  {
    LowerBoundNotLess(t, k, None);
    if Find(t, k).Some? {
      IncomparableMeansEqual(KeyOf(Find(t, k).value), k);
    }
  }

  /** The keys in front of place `p` are less than `k` and the others are not. */
  predicate Splits(s: seq<Info>, k: Key, p: nat) {
    && p <= |s|
    && (forall j :: 0 <= j < p ==> Less(KeyOf(s[j]), k))
    && (forall j :: p <= j < |s| ==> !Less(KeyOf(s[j]), k))
  }

  lemma {:induction false} SplitChild(l: seq<Info>, x: Info, r: seq<Info>, k: Key, p: nat)
    requires Splits(l + [x] + r, k, p)
    ensures Less(KeyOf(x), k) <==> p > |l|
    ensures if p > |l| then Splits(r, k, p - |l| - 1) else Splits(l, k, p)
  {
    var s := l + [x] + r;
    assert s[|l|] == x;
    assert forall j :: 0 <= j < |l| ==> s[j] == l[j];
    assert forall j :: 0 <= j < |r| ==> r[j] == s[|l| + 1 + j];
  }

  lemma {:induction false} LowerBoundAt(t: Tree, k: Key, best: Option<Info>, p: nat)
    requires Splits(InOrder(t), k, p)
    ensures LowerBound(t, k, best) == if p < |InOrder(t)| then Some(InOrder(t)[p]) else best
  {
    match t
    case Leaf =>
    case Node(l, x, r) =>
      SplitChild(InOrder(l), x, InOrder(r), k, p);
      if p > |InOrder(l)| {
        LowerBoundAt(r, k, best, p - |InOrder(l)| - 1);
      } else {
        LowerBoundAt(l, k, Some(x), p);
      }
  }

  // ---------- the map's insertion ----------

  function Insert(t: Tree, x: Info): Tree {
    match t
    case Leaf => Node(Leaf, x, Leaf)
    case Node(l, y, r) =>
      if Less(KeyOf(y), KeyOf(x)) then Node(l, y, Insert(r, x)) else Node(Insert(l, x), y, r)
  }

  lemma {:induction false} SpliceRight(a: seq<Info>, b: seq<Info>, x: Info, p: nat)
    requires |a| <= p <= |a| + |b|
    ensures a + (b[..p - |a|] + [x] + b[p - |a|..]) == (a + b)[..p] + [x] + (a + b)[p..]
  {
    assert (a + b)[..p] == a + b[..p - |a|] && (a + b)[p..] == b[p - |a|..];
  }

  lemma {:induction false} SpliceLeft(a: seq<Info>, y: seq<Info>, b: seq<Info>, x: Info, p: nat)
    requires p <= |a|
    ensures (a[..p] + [x] + a[p..]) + y + b == (a + y + b)[..p] + [x] + (a + y + b)[p..]
  {
    assert (a + y + b)[..p] == a[..p] && (a + y + b)[p..] == a[p..] + y + b;
  }

  lemma {:induction false} InsertAt(t: Tree, x: Info, p: nat)
    requires Splits(InOrder(t), KeyOf(x), p)
    ensures InOrder(Insert(t, x)) == InOrder(t)[..p] + [x] + InOrder(t)[p..]
  {
    match t
    case Leaf =>
    case Node(l, y, r) =>
      var a, b := InOrder(l), InOrder(r);
      SplitChild(a, y, b, KeyOf(x), p);
      if p > |a| {
        InsertAt(r, x, p - |a| - 1);
        SpliceRight(a + [y], b, x, p);
      } else {
        InsertAt(l, x, p);
        SpliceLeft(a, [y], b, x, p);
      }
  }

  lemma {:induction false} InsertAdds(t: Tree, x: Info)
    ensures multiset(InOrder(Insert(t, x))) == multiset(InOrder(t)) + multiset{x}
  {
    match t
    case Leaf =>
    case Node(l, y, r) =>
      if Less(KeyOf(y), KeyOf(x)) {
        InsertAdds(r, x);
      } else {
        InsertAdds(l, x);
      }
  }

  /** One rotation at the node that the path leads to; false is left. */
  datatype Rotation = Rotation(path: seq<bool>, toRight: bool)

  function Rotate(t: Tree, path: seq<bool>, toRight: bool): Tree
    decreases |path|
  {
    match t
    case Leaf => t
    case Node(l, x, r) =>
      if path != [] then
        if path[0] then Node(l, x, Rotate(r, path[1..], toRight)) else Node(Rotate(l, path[1..], toRight), x, r)
      else if toRight && l.Node? then Node(l.left, l.item, Node(l.right, x, r))
      else if !toRight && r.Node? then Node(Node(l, x, r.left), r.item, r.right)
      else t
  }

  function Rebalance(t: Tree, rotations: seq<Rotation>): Tree
    decreases |rotations|
  {
    if rotations == [] then t
    else Rebalance(Rotate(t, rotations[0].path, rotations[0].toRight), rotations[1..])
  }

  lemma {:induction false} RotateKeepsOrder(t: Tree, path: seq<bool>, toRight: bool)
    ensures InOrder(Rotate(t, path, toRight)) == InOrder(t)
    decreases |path|
  {
    match t
    case Leaf =>
    case Node(l, x, r) =>
      if path != [] {
        if path[0] {
          RotateKeepsOrder(r, path[1..], toRight);
        } else {
          RotateKeepsOrder(l, path[1..], toRight);
        }
      } else if toRight && l.Node? {
        var a, b, c := InOrder(l.left), InOrder(l.right), InOrder(r);
        assert a + [l.item] + (b + [x] + c) == (a + [l.item] + b) + [x] + c;
      } else if !toRight && r.Node? {
        var a, b, c := InOrder(l), InOrder(r.left), InOrder(r.right);
        assert (a + [x] + b) + [r.item] + c == a + [x] + (b + [r.item] + c);
      }
  }

  lemma {:induction false} RebalanceKeepsOrder(t: Tree, rotations: seq<Rotation>)
    ensures InOrder(Rebalance(t, rotations)) == InOrder(t)
    decreases |rotations|
  {
    if rotations != [] {
      RotateKeepsOrder(t, rotations[0].path, rotations[0].toRight);
      RebalanceKeepsOrder(Rotate(t, rotations[0].path, rotations[0].toRight), rotations[1..]);
    }
  }

  function AddTo(t: Tree, x: Info, rotations: seq<Rotation>): Tree {
    if Find(t, KeyOf(x)).Some? then t else Rebalance(Insert(t, x), rotations)
  }

  // ---------- the collection ----------

  class MethodInstrumentationInfoCollection {
    var table: Tree

    constructor ()
      ensures table == Leaf
    {
      table := Leaf;
    }

    method Get(key: Key) returns (hr: HResult, result: Option<Info>)
      ensures result == Find(table, key)
      ensures hr == if result.Some? then S_OK else S_FALSE
      ensures result.Some? ==> result.value in InOrder(table) && KeyOf(result.value) == key
    {
      var node, best := table, None;
      while node.Node?
        invariant LowerBound(node, key, best) == LowerBound(table, key, None)
        decreases node
      {
        if Less(KeyOf(node.item), key) {
          node := node.right;
        } else {
          node, best := node.left, Some(node.item);
        }
      }
      FoundHasTheKey(table, key);
      if best.Some? && !Less(key, KeyOf(best.value)) {
        return S_OK, best;
      }
      return S_FALSE, None;
    }

    method Add(item: Option<Info>, rotations: seq<Rotation>) returns (hr: HResult)
      modifies this
      ensures hr ==
        if item.None? then E_INVALIDARG
        else if Find(old(table), KeyOf(item.value)).Some? then S_FALSE
        else S_OK
      ensures table == if item.None? then old(table) else AddTo(old(table), item.value, rotations)
      ensures multiset(InOrder(table)) ==
        multiset(InOrder(old(table))) + (if hr == S_OK then multiset{item.value} else multiset{})
    {
      if item.None? {
        return E_INVALIDARG;
      }
      var found;
      hr, found := Get(KeyOf(item.value));
      if hr == S_OK {
        return S_FALSE;
      }
      InsertAdds(table, item.value);
      RebalanceKeepsOrder(Insert(table, item.value), rotations);
      table := Rebalance(Insert(table, item.value), rotations);
      hr := S_OK;
    }
  }

  // ---------- which tables find what they hold ----------

  ghost predicate DistinctKeys(s: seq<Info>) {
    forall i, j :: 0 <= i < j < |s| ==> KeyOf(s[i]) != KeyOf(s[j])
  }

  ghost predicate FindsAll(t: Tree) {
    forall i :: 0 <= i < |InOrder(t)| ==> Find(t, KeyOf(InOrder(t)[i])) == Some(InOrder(t)[i])
  }

  /** No later key is less than an earlier one. */
  ghost predicate NoInversion(s: seq<Info>) {
    forall i, j :: 0 <= i < j < |s| ==> !Less(KeyOf(s[j]), KeyOf(s[i]))
  }

  lemma {:induction false} SplitsAtItself(s: seq<Info>, i: nat)
    requires DistinctKeys(s) && NoInversion(s) && i < |s|
    ensures Splits(s, KeyOf(s[i]), i)
  {
    forall j | 0 <= j < i ensures Less(KeyOf(s[j]), KeyOf(s[i])) {
      IncomparableMeansEqual(KeyOf(s[j]), KeyOf(s[i]));
    }
    IncomparableMeansEqual(KeyOf(s[i]), KeyOf(s[i]));
  }

  lemma {:induction false} NoInversionFindsAll(t: Tree)
    requires DistinctKeys(InOrder(t)) && NoInversion(InOrder(t))
    ensures FindsAll(t)
  {
    var s := InOrder(t);
    forall i | 0 <= i < |s| ensures Find(t, KeyOf(s[i])) == Some(s[i]) {
      SplitsAtItself(s, i);
      LowerBoundAt(t, KeyOf(s[i]), None, i);
      IncomparableMeansEqual(KeyOf(s[i]), KeyOf(s[i]));
    }
  }

  function Spine(s: seq<Info>): (t: Tree)
    ensures InOrder(t) == s
  {
    if s == [] then Leaf else Node(Leaf, s[0], Spine(s[1..]))
  }

  /** With the later key at the root, the search for the earlier one goes the wrong way. */
  lemma {:induction false} InversionLosesAnEntry(s: seq<Info>, i: nat, j: nat) returns (t: Tree)
    requires DistinctKeys(s) && i < j < |s| && Less(KeyOf(s[j]), KeyOf(s[i]))
    ensures InOrder(t) == s && Find(t, KeyOf(s[i])) == None
  {
    t := Node(Spine(s[..j]), s[j], Spine(s[j + 1..]));
    assert s[..j] + [s[j]] + s[j + 1..] == s;
    var k := KeyOf(s[i]);
    LowerBoundNotLess(Spine(s[j + 1..]), k, None);
    var bound := LowerBound(t, k, None);
    if bound.Some? {
      var m :| 0 <= m < |s[j + 1..]| && s[j + 1..][m] == bound.value;
      assert bound.value == s[j + 1 + m];
      IncomparableMeansEqual(KeyOf(bound.value), k);
    }
  }

  /** A table's entries are all found in every shape that rebalancing may give it exactly if
      no later key is less than an earlier one. */
  lemma {:induction false} EveryShapeFindsAllIff(s: seq<Info>)
    requires DistinctKeys(s)
    ensures (forall t :: InOrder(t) == s ==> FindsAll(t)) <==> NoInversion(s)
  {
    if NoInversion(s) {
      forall t | InOrder(t) == s ensures FindsAll(t) {
        NoInversionFindsAll(t);
      }
    } else {
      var i, j :| 0 <= i < j < |s| && Less(KeyOf(s[j]), KeyOf(s[i]));
      var t := InversionLosesAnEntry(s, i, j);
      assert InOrder(t)[i] == s[i];
    }
  }

  // ---------- tables built by Add ----------

  datatype Addition = Addition(item: Info, rotations: seq<Rotation>)

  function TableOf(adds: seq<Addition>): Tree {
    if adds == [] then Leaf
    else AddTo(TableOf(adds[..|adds| - 1]), adds[|adds| - 1].item, adds[|adds| - 1].rotations)
  }

  /** The earliest addition with the key: a later one with the same key changes nothing. */
  function FirstWith(adds: seq<Addition>, k: Key): (r: Option<Info>)
    ensures r.Some? ==> KeyOf(r.value) == k && exists a :: a in adds && a.item == r.value
    ensures r.None? ==> forall a :: a in adds ==> KeyOf(a.item) != k
  {
    if adds == [] then None
    else
      var earlier := FirstWith(adds[..|adds| - 1], k);
      var last := adds[|adds| - 1];
      if earlier.Some? then earlier
      else if KeyOf(last.item) == k then Some(last.item)
      else None
  }

  ghost function KeysOf(s: seq<Info>): set<Key> {
    set x <- s :: KeyOf(x)
  }

  ghost predicate Sorted(s: seq<Info>) {
    forall i, j :: 0 <= i < j < |s| ==> Less(KeyOf(s[i]), KeyOf(s[j]))
  }

  lemma {:induction false} SplitExists(s: seq<Info>, k: Key) returns (p: nat)
    requires Sorted(s) && OrderedOn(KeysOf(s) + {k})
    ensures Splits(s, k, p)
  {
    p := 0;
    while p < |s| && Less(KeyOf(s[p]), k)
      invariant p <= |s| && forall j :: 0 <= j < p ==> Less(KeyOf(s[j]), k)
    {
      p := p + 1;
    }
    forall j | p <= j < |s| ensures !Less(KeyOf(s[j]), k) {
      assert KeyOf(s[p]) in KeysOf(s) && KeyOf(s[j]) in KeysOf(s);
    }
  }

  /** In a sorted table a key is found if and only if it is there. */
  lemma {:induction false} FoundIffPresent(t: Tree, k: Key)
    requires Sorted(InOrder(t)) && OrderedOn(KeysOf(InOrder(t)) + {k})
    ensures Find(t, k).Some? <==> k in KeysOf(InOrder(t))
  {
    var s := InOrder(t);
    FoundHasTheKey(t, k);
    if k in KeysOf(s) {
      var i :| 0 <= i < |s| && KeyOf(s[i]) == k;
      assert KeysOf(s) + {k} == KeysOf(s);
      SortedSplitsAt(s, i);
      LowerBoundAt(t, k, None, i);
      IncomparableMeansEqual(k, k);
    }
  }

  lemma {:induction false} SortedSplitsAt(s: seq<Info>, i: nat)
    requires Sorted(s) && OrderedOn(KeysOf(s)) && i < |s|
    ensures Splits(s, KeyOf(s[i]), i)
  {
    IncomparableMeansEqual(KeyOf(s[i]), KeyOf(s[i]));
    forall j | i < j < |s| ensures !Less(KeyOf(s[j]), KeyOf(s[i])) {
      assert KeyOf(s[j]) in KeysOf(s) && KeyOf(s[i]) in KeysOf(s);
    }
  }

  lemma {:induction false} SortedInsert(s: seq<Info>, x: Info, p: nat)
    requires Sorted(s) && Splits(s, KeyOf(x), p) && KeyOf(x) !in KeysOf(s)
    ensures Sorted(s[..p] + [x] + s[p..])
  {
    var after := s[..p] + [x] + s[p..];
    forall j | p <= j < |s| ensures Less(KeyOf(x), KeyOf(s[j])) {
      assert KeyOf(s[j]) in KeysOf(s);
      IncomparableMeansEqual(KeyOf(s[j]), KeyOf(x));
    }
    forall i, j | 0 <= i < j < |after| ensures Less(KeyOf(after[i]), KeyOf(after[j])) {
      assert after[i] == if i < p then s[i] else if i == p then x else s[i - 1];
      assert after[j] == if j < p then s[j] else if j == p then x else s[j - 1];
    }
  }

  lemma {:induction false} AddKeepsSorted(t: Tree, x: Info, rotations: seq<Rotation>)
    requires Sorted(InOrder(t)) && OrderedOn(KeysOf(InOrder(t)) + {KeyOf(x)})
    ensures Sorted(InOrder(AddTo(t, x, rotations)))
    ensures KeysOf(InOrder(AddTo(t, x, rotations))) == KeysOf(InOrder(t)) + {KeyOf(x)}
    ensures forall y :: y in InOrder(AddTo(t, x, rotations)) <==>
      y in InOrder(t) || (y == x && KeyOf(x) !in KeysOf(InOrder(t)))
  {
    var s := InOrder(t);
    FoundIffPresent(t, KeyOf(x));
    if KeyOf(x) !in KeysOf(s) {
      var p := SplitExists(s, KeyOf(x));
      InsertAt(t, x, p);
      RebalanceKeepsOrder(Insert(t, x), rotations);
      SortedInsert(s, x, p);
      assert s == s[..p] + s[p..];
    }
  }

  ghost function AddedKeys(adds: seq<Addition>): set<Key> {
    set a <- adds :: KeyOf(a.item)
  }

  /** All additions are for methods of one module of one assembly, such as the wildcards. */
  ghost predicate OneModule(adds: seq<Addition>) {
    forall a, b :: a in adds && b in adds ==> SameModule(KeyOf(a.item), KeyOf(b.item))
  }

  lemma {:induction false} OneModuleIsOrdered(adds: seq<Addition>)
    requires OneModule(adds)
    ensures OrderedOn(AddedKeys(adds))
  {
    SameModuleIsOrdered(AddedKeys(adds));
  }

  lemma {:induction false} AddedKeysGrow(adds: seq<Addition>)
    requires adds != []
    ensures AddedKeys(adds) == AddedKeys(adds[..|adds| - 1]) + {KeyOf(adds[|adds| - 1].item)}
  {
    var before, last := adds[..|adds| - 1], adds[|adds| - 1];
    assert adds == before + [last];
    assert last in adds;
  }

  lemma {:induction false} FirstIsAdded(adds: seq<Addition>, x: Info)
    requires FirstWith(adds, KeyOf(x)) == Some(x)
    ensures KeyOf(x) in AddedKeys(adds)
  {
    var a :| a in adds && a.item == x;
  }

  lemma {:induction false} TableIsSorted(adds: seq<Addition>)
    requires OrderedOn(AddedKeys(adds))
    ensures Sorted(InOrder(TableOf(adds)))
    ensures forall x :: x in InOrder(TableOf(adds)) <==> FirstWith(adds, KeyOf(x)) == Some(x)
  {
    if adds != [] {
      var before, last := adds[..|adds| - 1], adds[|adds| - 1];
      AddedKeysGrow(adds);
      TableIsSorted(before);
      var s := InOrder(TableOf(before));
      TableKeysAreAdded(before, s);
      AddKeepsSorted(TableOf(before), last.item, last.rotations);
      forall x ensures x in InOrder(TableOf(adds)) <==> FirstWith(adds, KeyOf(x)) == Some(x) {
        PresentIffFirst(before, s, last.item, x);
      }
    }
  }

  lemma {:induction false} TableKeysAreAdded(adds: seq<Addition>, s: seq<Info>)
    requires forall x :: x in s ==> FirstWith(adds, KeyOf(x)) == Some(x)
    ensures KeysOf(s) <= AddedKeys(adds)
  {
    forall x | x in s ensures KeyOf(x) in AddedKeys(adds) {
      FirstIsAdded(adds, x);
    }
  }

  lemma {:induction false} PresentIffFirst(before: seq<Addition>, s: seq<Info>, last: Info, x: Info)
    requires forall y :: y in s <==> FirstWith(before, KeyOf(y)) == Some(y)
    ensures KeyOf(last) in KeysOf(s) <==> FirstWith(before, KeyOf(last)).Some?
    ensures (x in s || (x == last && KeyOf(last) !in KeysOf(s))) <==>
      (if FirstWith(before, KeyOf(x)).Some? then FirstWith(before, KeyOf(x)) == Some(x) else x == last)
  {
    if FirstWith(before, KeyOf(last)).Some? {
      var y := FirstWith(before, KeyOf(last)).value;
      assert y in s && KeyOf(y) == KeyOf(last);
    }
  }

  /** A table whose keys the comparison orders, such as those of one module, built in any
      order and rebalanced in any way, answers every query, whatever its key, with the first
      entry added under that key. */
  lemma {:induction false} LookupFindsFirstAdded(adds: seq<Addition>, k: Key)
    requires OrderedOn(AddedKeys(adds))
    ensures Find(TableOf(adds), k) == FirstWith(adds, k)
  {
    var t := TableOf(adds);
    TableIsSorted(adds);
    FoundHasTheKey(t, k);
    var first := FirstWith(adds, k);
    if first.Some? {
      assert first.value in InOrder(t);
      TableKeysAreAdded(adds, InOrder(t));
      FirstIsAdded(adds, first.value);
      assert KeysOf(InOrder(t)) + {k} <= AddedKeys(adds);
      FoundIffPresent(t, k);
    }
  }

  /** So an entry that no earlier one shadows is the answer for its four fields. */
  lemma {:induction false} EarliestIsFound(adds: seq<Addition>, i: nat, k: Key)
    requires OrderedOn(AddedKeys(adds)) && i < |adds| && KeyOf(adds[i].item) == k
    requires forall j :: 0 <= j < i ==> KeyOf(adds[j].item) != k
    ensures Find(TableOf(adds), k) == Some(adds[i].item)
  {
    LookupFindsFirstAdded(adds, k);
    EarliestIsFirst(adds, i, k);
  }

  lemma {:induction false} EarliestIsFirst(adds: seq<Addition>, i: nat, k: Key)
    requires i < |adds| && KeyOf(adds[i].item) == k
    requires forall j :: 0 <= j < i ==> KeyOf(adds[j].item) != k
    ensures FirstWith(adds, k) == Some(adds[i].item)
  {
    var before := adds[..|adds| - 1];
    if i == |before| {
      assert forall a :: a in before ==> KeyOf(a.item) != k;
    } else {
      EarliestIsFirst(before, i, k);
    }
  }

  // ---------- which keys may be registered ----------

  function InfoOf(k: Key): Info {
    Info(k.assembly, k.mod, k.name, k.args, 0, 0, 0)
  }

  function Plain(k: Key): Addition {
    Addition(InfoOf(k), [])
  }

  /** Followed by the left rotation at the root. */
  function Rotated(k: Key): Addition {
    Addition(InfoOf(k), [Rotation([], false)])
  }

  ghost predicate AnswersRight(adds: seq<Addition>, k: Key) {
    Find(TableOf(adds), k) == FirstWith(adds, k)
  }

  lemma {:induction false} TableOfNext(adds: seq<Addition>, a: Addition)
    ensures TableOf(adds + [a]) == AddTo(TableOf(adds), a.item, a.rotations)
    ensures FirstWith(adds, KeyOf(a.item)).Some? ==> FirstWith(adds + [a], KeyOf(a.item)).Some?
    ensures forall k :: FirstWith(adds, k).Some? ==> FirstWith(adds + [a], k).Some?
  {
    assert (adds + [a])[..|adds|] == adds;
  }

  lemma {:induction false} TableOfOne(k: Key)
    ensures TableOf([Plain(k)]) == Node(Leaf, InfoOf(k), Leaf) && FirstWith([Plain(k)], k).Some?
  {
    assert [Plain(k)][..0] == [];
    assert LowerBound(Leaf, k, None) == None;
  }

  /** After some additions a key is found, and after one more it is not. */
  ghost predicate Forgets(adds: seq<Addition>, last: Addition, k: Key) {
    Find(TableOf(adds), k).Some? && Find(TableOf(adds + [last]), k) == None
  }

  /** Two keys that are each less than the other: added in turn and rotated, the first is lost. */
  lemma {:induction false} PairForgetsOne(a: Key, b: Key)
    requires Less(a, b) && Less(b, a)
    ensures AddedKeys([Plain(a)] + [Rotated(b)]) == {a, b} && Forgets([Plain(a)], Rotated(b), a)
  {
    var adds := [Plain(a)] + [Rotated(b)];
    var x, y := InfoOf(a), InfoOf(b);
    TableOfOne(a);
    TableOfNext([Plain(a)], Rotated(b));
    RootIsFound(Leaf, x, Leaf);
    RightOf(Leaf, x, y);
    TurnedLeft(Leaf, x, y);
    BehindTheRoot(Node(Leaf, x, Leaf), y, Leaf, a);
    assert adds[0] in adds && adds[1] in adds;
  }

  lemma {:induction false} RootIsFound(left: Tree, x: Info, right: Tree)
    requires left == Leaf
    ensures Find(Node(left, x, right), KeyOf(x)) == Some(x)
  {
    IncomparableMeansEqual(KeyOf(x), KeyOf(x));
    assert LowerBound(Leaf, KeyOf(x), Some(x)) == Some(x);
  }

  /** The root is less, and there is nothing to its right: a greater key goes there. */
  lemma {:induction false} RightOf(left: Tree, x: Info, y: Info)
    requires Less(KeyOf(x), KeyOf(y))
    ensures Find(Node(left, x, Leaf), KeyOf(y)) == None
    ensures Insert(Node(left, x, Leaf), y) == Node(left, x, Node(Leaf, y, Leaf))
  {
    assert LowerBound(Leaf, KeyOf(y), None) == None && Insert(Leaf, y) == Node(Leaf, y, Leaf);
  }

  lemma {:induction false} TurnedLeft(left: Tree, x: Info, y: Info)
    ensures Rebalance(Node(left, x, Node(Leaf, y, Leaf)), [Rotation([], false)]) == Node(Node(left, x, Leaf), y, Leaf)
  {
    var r := Rotation([], false);
    assert [r][1..] == [];
    assert Rebalance(Node(Node(left, x, Leaf), y, Leaf), []) == Node(Node(left, x, Leaf), y, Leaf);
  }

  /** A key that the root is less than is not looked for in the left subtree. */
  lemma {:induction false} BehindTheRoot(left: Tree, x: Info, right: Tree, k: Key)
    requires Less(KeyOf(x), k)
    ensures Find(Node(left, x, right), k) == Find(right, k)
  {
  }

  /** Three keys in a cycle, with no two each less than the other: with the second to the right
      of the first, and the third to its left and rotated to the root, the second is lost. */
  lemma {:induction false} CycleForgetsOne(a: Key, b: Key, c: Key)
    requires Less(a, b) && Less(b, c) && Less(c, a) && !Less(b, a) && !Less(c, b) && !Less(a, a)
    ensures AddedKeys([Plain(c), Plain(a)] + [RotatedRight(b)]) == {a, b, c}
    ensures Forgets([Plain(c), Plain(a)], RotatedRight(b), a)
  {
    var two, adds := [Plain(c), Plain(a)], [Plain(c), Plain(a)] + [RotatedRight(b)];
    var x, y, z := InfoOf(a), InfoOf(b), InfoOf(c);
    TableOfOne(c);
    TableOfNext([Plain(c)], Plain(a));
    assert [Plain(c)] + [Plain(a)] == two;
    RightOf(Leaf, z, x);
    var right := Node(Leaf, x, Leaf);
    assert TableOf(two) == Node(Leaf, z, right);
    BehindTheRoot(Leaf, z, right, a);
    RootIsFound(Leaf, x, Leaf);
    TableOfNext(two, RotatedRight(b));
    LeftOf(z, right, y);
    TurnedRight(y, z, right);
    NotBehindTheRoot(y, Node(Leaf, z, right), a);
    assert adds[0] in adds && adds[1] in adds && adds[2] in adds;
  }

  /** Followed by the right rotation at the root. */
  function RotatedRight(k: Key): Addition {
    Addition(InfoOf(k), [Rotation([], true)])
  }

  lemma {:induction false} TurnedRight(y: Info, z: Info, right: Tree)
    ensures Rebalance(Node(Node(Leaf, y, Leaf), z, right), [Rotation([], true)]) == Node(Leaf, y, Node(Leaf, z, right))
  {
    var r := Rotation([], true);
    assert [r][1..] == [];
    assert Rebalance(Node(Leaf, y, Node(Leaf, z, right)), []) == Node(Leaf, y, Node(Leaf, z, right));
  }

  /** A key that the root is not less than is not looked for in the right subtree. */
  lemma {:induction false} NotBehindTheRoot(y: Info, right: Tree, k: Key)
    requires !Less(KeyOf(y), k) && Less(k, KeyOf(y))
    ensures Find(Node(Leaf, y, right), k) == None
  {
    assert LowerBound(Leaf, k, Some(y)) == Some(y);
  }

  lemma {:induction false} LeftOf(x: Info, right: Tree, z: Info)
    requires Less(KeyOf(z), KeyOf(x)) && !Less(KeyOf(x), KeyOf(z))
    ensures Find(Node(Leaf, x, right), KeyOf(z)) == None
    ensures Insert(Node(Leaf, x, right), z) == Node(Node(Leaf, z, Leaf), x, right)
  {
    assert LowerBound(Leaf, KeyOf(z), Some(x)) == Some(x) && Insert(Leaf, z) == Node(Leaf, z, Leaf);
  }

  /** Keys that the comparison does not order include one that is found and then forgotten. */
  lemma {:induction false} UnorderedForgetsOne(keys: set<Key>) returns (adds: seq<Addition>, last: Addition, k: Key)
    requires !OrderedOn(keys)
    ensures AddedKeys(adds + [last]) <= keys && k in keys && Forgets(adds, last, k)
  {
    if a, b :| a in keys && b in keys && Less(a, b) && Less(b, a) {
      PairForgetsOne(a, b);
      adds, last, k := [Plain(a)], Rotated(b), a;
    } else {
      var a, b, c :| a in keys && b in keys && c in keys && Less(a, b) && Less(b, c) && !Less(a, c);
      IncomparableMeansEqual(a, c);
      IncomparableMeansEqual(a, a);
      CycleForgetsOne(a, b, c);
      adds, last, k := [Plain(c), Plain(a)], RotatedRight(b), a;
    }
  }

  /** What is found was added. */
  lemma {:induction false} FoundWasAdded(adds: seq<Addition>, k: Key)
    requires Find(TableOf(adds), k).Some?
    ensures FirstWith(adds, k).Some?
  {
    FoundHasTheKey(TableOf(adds), k);
    ItemsWereAdded(adds, Find(TableOf(adds), k).value);
  }

  lemma {:induction false} ItemsWereAdded(adds: seq<Addition>, x: Info)
    requires x in InOrder(TableOf(adds))
    ensures exists a :: a in adds && a.item == x
  {
    var before, last := adds[..|adds| - 1], adds[|adds| - 1];
    assert last in adds && forall a :: a in before ==> a in adds;
    var t := TableOf(before);
    if x in InOrder(t) {
      ItemsWereAdded(before, x);
    } else {
      InsertAdds(t, last.item);
      RebalanceKeepsOrder(Insert(t, last.item), last.rotations);
      assert x in multiset(InOrder(Insert(t, last.item)));
    }
  }

  /** Whatever is registered under some keys, in any order and with any rotations, every query
      is answered with the first entry added under its key, exactly if the comparison orders
      those keys. */
  lemma {:induction false} AnswersRightIff(keys: set<Key>)
    ensures (forall adds, k :: AddedKeys(adds) <= keys ==> AnswersRight(adds, k)) <==> OrderedOn(keys)
  {
    if OrderedOn(keys) {
      forall adds, k | AddedKeys(adds) <= keys ensures AnswersRight(adds, k) {
        LookupFindsFirstAdded(adds, k);
      }
    } else {
      var adds, last, k := UnorderedForgetsOne(keys);
      FoundWasAdded(adds, k);
      TableOfNext(adds, last);
      assert !AnswersRight(adds + [last], k);
    }
  }

  /** Such a table: three entries, each greater than the ones before, and the left rotation
      that a red-black tree makes after the third.  The first can no longer be found. */
  lemma {:induction false} AscendingEntriesLoseTheFirst() returns (adds: seq<Addition>, k: Key)
    ensures adds == [Plain(Key("2", "m", "a", 0)), Plain(Key("1", "m", "b", 0)), Rotated(Key("3", "m", "c", 0))]
    ensures k == Key("2", "m", "a", 0) && adds[0].item == InfoOf(k)
    ensures Find(TableOf(adds), k) == None && FirstWith(adds, k) == Some(InfoOf(k))
  {
    var b, c := Key("1", "m", "b", 0), Key("3", "m", "c", 0);
    k := Key("2", "m", "a", 0);
    assert StringLess("a", "b") && StringLess("b", "c") && StringLess("a", "c") && StringLess("1", "2");
    StringTrichotomy("2", "3");
    assert Less(k, b) && Less(b, c) && Less(k, c) && Less(b, k) && !Less(c, k);
    adds := [Plain(k)] + [Plain(b)] + [Rotated(c)];
    ThreeAscending(k, b, c);
    FoundOnlyIfReached(k, b, c);
  }

  lemma {:induction false} ThreeAscending(a: Key, b: Key, c: Key)
    requires Less(a, b) && Less(b, c) && Less(a, c)
    ensures TableOf([Plain(a)] + [Plain(b)] + [Rotated(c)]) ==
      Node(Node(Leaf, InfoOf(a), Leaf), InfoOf(b), Node(Leaf, InfoOf(c), Leaf))
    ensures FirstWith([Plain(a)] + [Plain(b)] + [Rotated(c)], a) == Some(InfoOf(a))
  {
    var x, y, z := InfoOf(a), InfoOf(b), InfoOf(c);
    TableOfOne(a);
    TableOfNext([Plain(a)], Plain(b));
    TableOfNext([Plain(a)] + [Plain(b)], Rotated(c));
    RightOf(Leaf, x, y);
    RightOf(Leaf, y, z);
    BehindTheRoot(Leaf, x, Node(Leaf, y, Leaf), c);
    var t := Node(Leaf, x, Node(Leaf, y, Node(Leaf, z, Leaf)));
    assert Insert(Node(Leaf, x, Node(Leaf, y, Leaf)), z) == t;
    var r := Rotation([], false);
    assert [r][1..] == [];
    var turned := Node(Node(Leaf, x, Leaf), y, Node(Leaf, z, Leaf));
    assert Rebalance(turned, []) == turned && Rebalance(t, [r]) == turned;
    assert ([Plain(a)] + [Plain(b)] + [Rotated(c)])[..2][..1] == [Plain(a)];
    assert ([Plain(a)] + [Plain(b)] + [Rotated(c)])[..2] == [Plain(a)] + [Plain(b)];
  }

  lemma {:induction false} FoundOnlyIfReached(a: Key, b: Key, c: Key)
    requires Less(b, a) && !Less(c, a) && Less(a, c)
    ensures Find(Node(Node(Leaf, InfoOf(a), Leaf), InfoOf(b), Node(Leaf, InfoOf(c), Leaf)), a) == None
  {
    BehindTheRoot(Node(Leaf, InfoOf(a), Leaf), InfoOf(b), Node(Leaf, InfoOf(c), Leaf), a);
    assert LowerBound(Leaf, a, Some(InfoOf(c))) == Some(InfoOf(c));
  }
}
