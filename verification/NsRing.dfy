/** The sorted ring of namespaces: a doubly linked list that is entered at any node. */
module NsRing {
  import opened Definitions
  import opened Namespaces

  // ---------- order of names ----------

  /** strcmp. */
  function Compare(a: string, b: string): int
    decreases |a|
  {
    if a == "" && b == "" then 0
    else if a == "" then -1
    else if b == "" then 1
    else if a[0] < b[0] then -1
    else if a[0] > b[0] then 1
    else Compare(a[1..], b[1..])
  }

  /** strncmp with the limit on names. */
  function Cut(name: string): string {
    if |name| <= MAX_NAME then name else name[..MAX_NAME]
  }

  function FirstByte(a: string): int {
    if a == "" then 0 else a[0] as int
  }

  lemma {:induction false} CompareEqual(a: string, b: string)
    ensures Compare(a, b) == 0 <==> a == b
    decreases |a|
  {
    if a != "" && b != "" {
      CompareEqual(a[1..], b[1..]);
      assert a == [a[0]] + a[1..] && b == [b[0]] + b[1..];
    }
  }

  lemma {:induction false} CompareFlips(a: string, b: string)
    ensures Compare(a, b) == 0 - Compare(b, a)
    decreases |a|
  {
    if a != "" && b != "" {
      CompareFlips(a[1..], b[1..]);
    }
  }

  lemma {:induction false} CompareChains(a: string, b: string, c: string)
    requires Compare(a, b) < 0 && Compare(b, c) < 0
    ensures Compare(a, c) < 0
    decreases |a|
  {
    if a != "" && b != "" && c != "" && a[0] == b[0] == c[0] {
      CompareChains(a[1..], b[1..], c[1..]);
    }
  }

  /** The first bytes already tell the direction, if they differ. */
  lemma FirstByteTells(a: string, b: string)
    ensures FirstByte(a) < FirstByte(b) ==> Compare(a, b) < 0
    ensures FirstByte(a) > FirstByte(b) ==> Compare(a, b) > 0
  {
  }

  ghost predicate Sorted(names: seq<string>) {
    forall i, j :: 0 <= i < j < |names| ==> Compare(names[i], names[j]) < 0
  }

  /** The place after which a name belongs: its predecessor, or the last one if it is before or after all. */
  ghost predicate Place(names: seq<string>, name: string, k: nat) {
    && k < |names|
    && (k + 1 < |names| ==> Compare(names[k], name) < 0 && Compare(name, names[k + 1]) < 0)
    && (k + 1 == |names| ==> Compare(names[k], name) < 0 || Compare(name, names[0]) < 0)
  }

  /** A name that has such a place is not there. */
  lemma PlaceIsFree(names: seq<string>, name: string, k: nat)
    requires Sorted(names) && Place(names, name, k)
    ensures name !in names
  {
    if name in names {
      var i :| 0 <= i < |names| && names[i] == name;
      CompareEqual(name, name);
      if k + 1 < |names| {
        if i < k {
          CompareFlips(names[i], names[k]);
        } else if i > k + 1 {
          CompareFlips(names[k + 1], names[i]);
        }
      } else if Compare(names[k], name) < 0 {
        CompareFlips(names[k], name);
      } else {
        CompareFlips(names[0], name);
      }
      assert false;
    }
  }

  function Inserted<T>(s: seq<T>, at: nat, x: T): (t: seq<T>)
    requires at <= |s|
    ensures |t| == |s| + 1
  {
    s[..at] + [x] + s[at..]
  }

  lemma InsertedAt<T>(s: seq<T>, at: nat, x: T, i: nat)
    requires at <= |s| && i <= |s|
    ensures Inserted(s, at, x)[i] == if i == at then x else if i < at then s[i] else s[i - 1]
  {
  }

  /** Where the name goes in the order: after its place, or first if it is before all others. */
  ghost function Position(names: seq<string>, name: string, k: nat): (at: nat)
    requires k < |names|
    ensures at <= |names|
  {
    if k + 1 == |names| && Compare(names[k], name) >= 0 then 0 else k + 1
  }

  lemma SortedInserted(names: seq<string>, name: string, k: nat)
    requires Sorted(names) && Place(names, name, k)
    ensures Sorted(Inserted(names, Position(names, name, k), name))
  {
    hide Compare, Inserted;
    var at := Position(names, name, k);
    var t := Inserted(names, at, name);
    forall i, j | 0 <= i < j < |t| ensures Compare(t[i], t[j]) < 0 {
      InsertedAt(names, at, name, i);
      InsertedAt(names, at, name, j);
      if j == at {
        if i < k {
          CompareChains(names[i], names[k], name);
        }
      } else if i == at && j - 1 > at {
        CompareChains(name, names[at], names[j - 1]);
      }
    }
  }

  // ---------- the ring ----------

  class Node {
    var n: Node?
    var p: Node?
    var ns: Namespace?

    constructor ()
      ensures n == null && p == null && ns == null
    {
      n, p, ns := null, null, null;
    }
  }

  function Next(i: nat, len: nat): nat {
    if i + 1 == len then 0 else i + 1
  }

  function Prev(i: nat, len: nat): nat
    requires len > 0
  {
    if i == 0 then len - 1 else i - 1
  }

  ghost predicate Distinct(ring: seq<Node>) {
    forall i, j :: 0 <= i < j < |ring| ==> ring[i] != ring[j]
  }

  ghost predicate Named(ring: seq<Node>)
    reads ring
  {
    forall i :: 0 <= i < |ring| ==> ring[i].ns != null && |ring[i].ns.name| <= MAX_NAME
  }

  ghost predicate NextLinked(ring: seq<Node>)
    reads ring
  {
    forall i :: 0 <= i < |ring| ==> ring[i].n == ring[Next(i, |ring|)]
  }

  ghost predicate PrevLinked(ring: seq<Node>)
    reads ring
  {
    forall i :: 0 <= i < |ring| ==> ring[i].p == ring[Prev(i, |ring|)]
  }

  /** The nodes, in the order of their names, each linked to its neighbours and the last to the first. */
  ghost predicate Ring(ring: seq<Node>)
    reads ring
  {
    |ring| > 0 && Distinct(ring) && Named(ring) && NextLinked(ring) && PrevLinked(ring) && Sorted(Names(ring))
  }

  ghost function Names(ring: seq<Node>): (names: seq<string>)
    reads ring
    ensures |names| == |ring|
  {
    seq(|ring|, i requires 0 <= i < |ring| reads ring => if ring[i].ns == null then "" else ring[i].ns.name)
  }

  /** The index of the entry node. */
  lemma EntryOf(ring: seq<Node>, s: Node) returns (k: nat)
    requires s in ring
    ensures k < |ring| && ring[k] == s
  {
    k :| 0 <= k < |ring| && ring[k] == s;
  }

  /**
    Where a search is: it started at e and is at k, behind names that are on the side it comes from.
   */
  ghost predicate Search(names: seq<string>, key: string, e: nat, k: nat, dir: int, first: bool) {
    && k < |names|
    && (first ==> k == e && (dir > 0 ==> Compare(names[k], key) < 0) && (dir < 0 ==> Compare(key, names[k]) < 0))
    && (!first && |names| > 1 && dir > 0 ==> k > e && Compare(names[k - 1], key) < 0)
    && (!first && |names| > 1 && dir < 0 ==> k < e && k + 1 < |names| && Compare(key, names[k + 1]) < 0)
    && (!first ==> dir != 0)
    && (!first && |names| == 1 ==> Place(names, key, k))
  }

  lemma SearchStarts(names: seq<string>, key: string, k: nat, dir: int)
    requires k < |names| && dir == FirstByte(key) - FirstByte(names[k])
    ensures Search(names, key, k, k, dir, true)
  {
    hide Compare, FirstByte;
    FirstByteTells(key, names[k]);
    CompareFlips(key, names[k]);
  }

  lemma SearchEnds(names: seq<string>, key: string, e: nat, k: nat, dir: int)
    requires Search(names, key, e, k, dir, false) && k == e
    ensures Place(names, key, k)
  {
    hide Compare;
  }

  /** The name is before that of the node: the place is found, or the search goes down. */
  lemma SearchDown(names: seq<string>, key: string, e: nat, k: nat, dir: int, first: bool)
    requires Sorted(names) && Search(names, key, e, k, dir, first)
    ensures Compare(key, names[k]) < 0 && (dir > 0 || Compare(names[k], names[Prev(k, |names|)]) < 0) ==>
      Place(names, key, Prev(k, |names|))
    ensures Compare(key, names[k]) < 0 && dir <= 0 && Compare(names[k], names[Prev(k, |names|)]) >= 0 ==>
      Search(names, key, e, Prev(k, |names|), -1, false) && (|names| > 1 ==> Prev(k, |names|) < k)
  {
    hide Compare;
    CompareFlips(key, names[k]);
    LowerNeighbour(names, k, Compare(names[k], names[Prev(k, |names|)]));
  }

  /** The name is behind that of the node: the place is found, or the search goes up. */
  lemma SearchUp(names: seq<string>, key: string, e: nat, k: nat, dir: int, first: bool)
    requires Sorted(names) && Search(names, key, e, k, dir, first)
    ensures Compare(key, names[k]) > 0 && (dir < 0 || Compare(names[k], names[Next(k, |names|)]) > 0) ==> Place(names, key, k)
    ensures Compare(key, names[k]) > 0 && dir >= 0 && Compare(names[k], names[Next(k, |names|)]) <= 0 ==>
      Search(names, key, e, Next(k, |names|), 1, false) && (|names| > 1 ==> Next(k, |names|) > k)
    ensures !first ==> dir != 0
  {
    hide Compare;
    CompareFlips(key, names[k]);
    UpperNeighbour(names, k, Compare(names[k], names[Next(k, |names|)]));
  }

  /**
    The search, from any node and in the direction that the comparisons give: it ends, and it returns
    the node of that name or the node after which the name belongs.
   */
  method Find(s: Node, name: string, ghost ring: seq<Node>) returns (found: bool, r: Node, ghost k: nat)
    requires Ring(ring) && s in ring
    ensures k < |ring| && r == ring[k]
    ensures found <==> Cut(name) in Names(ring)
    ensures found ==> Names(ring)[k] == Cut(name)
    ensures !found ==> Place(Names(ring), Cut(name), k)
  {
    hide Compare, Search, Place, Sorted;
    r := s;
    k := EntryOf(ring, s);
    ghost var e := k;
    ghost var names := Names(ring);
    var key := Cut(name);
    var dir := FirstByte(key) - FirstByte(r.ns.name);
    var first := true;
    ghost var placed := false;
    assert names[k] == r.ns.name;
    SearchStarts(names, key, k, dir);
    while first || r != s
      invariant !placed && k < |ring| && r == ring[k] && names == Names(ring)
      invariant Search(names, key, e, k, dir, first)
      decreases first, if dir > 0 then |ring| - k else k
    {
      var comp := Compare(key, r.ns.name);
      CompareEqual(key, r.ns.name);
      SearchDown(names, key, e, k, dir, first);
      SearchUp(names, key, e, k, dir, first);
      if comp == 0 {
        assert names[k] == key;
        return true, r, k;
      }
      if comp < 0 {
        if dir > 0 {
          r := r.p;
          k := Prev(k, |ring|);
          placed := true;
          break;
        }
        var lcomp := Compare(r.ns.name, r.p.ns.name);
        if lcomp < 0 {
          r := r.p;
          k := Prev(k, |ring|);
          placed := true;
          break;
        }
        dir := -1;
        r := r.p;
        k := Prev(k, |ring|);
      } else {
        if dir < 0 {
          placed := true;
          break;
        }
        var lcomp := Compare(r.ns.name, r.n.ns.name);
        if lcomp > 0 {
          placed := true;
          break;
        }
        dir := 1;
        r := r.n;
        k := Next(k, |ring|);
      }
      first := false;
    }
    found := false;
    if !placed {
      SearchEnds(names, key, e, k, dir);
    }
    PlaceIsFree(names, key, k);
  }

  lemma LowerNeighbour(names: seq<string>, k: nat, lcomp: int)
    requires Sorted(names) && k < |names| && lcomp == Compare(names[k], names[Prev(k, |names|)])
    ensures |names| > 1 ==> (lcomp < 0 <==> k == 0)
    ensures |names| == 1 ==> lcomp == 0
  {
    CompareEqual(names[k], names[Prev(k, |names|)]);
    CompareFlips(names[k], names[Prev(k, |names|)]);
  }

  lemma UpperNeighbour(names: seq<string>, k: nat, lcomp: int)
    requires Sorted(names) && k < |names| && lcomp == Compare(names[k], names[Next(k, |names|)])
    ensures |names| > 1 ==> (lcomp > 0 <==> k == |names| - 1)
    ensures |names| == 1 ==> lcomp == 0
  {
    CompareEqual(names[k], names[Next(k, |names|)]);
    CompareFlips(names[k], names[Next(k, |names|)]);
  }

  // ---------- the operations ----------


  ghost function NameSet(ring: seq<Node>): set<string>
    reads ring
  {
    set name | name in Names(ring)
  }

  method Get(s: Node?, name: string, ghost ring: seq<Node>) returns (errno: int, r: Node?)
    requires s != null ==> Ring(ring) && s in ring
    ensures s == null ==> r == null && errno == EINVAL
    ensures s != null ==> (r != null <==> Cut(name) in NameSet(ring)) && errno == if r == null then ENOENT else 0
    ensures s != null && r != null ==> r in ring && r.ns != null && r.ns.name == Cut(name)
  {
    if s == null {
      return EINVAL, null;
    }
    var found, t, k := Find(s, name, ring);
    if found {
      assert Names(ring)[k] == t.ns.name;
      return 0, t;
    }
    return ENOENT, null;
  }

  lemma NamesInserted(ring: seq<Node>, at: nat, r: Node)
    requires at <= |ring| && r.ns != null
    ensures Names(Inserted(ring, at, r)) == Inserted(Names(ring), at, r.ns.name)
  {
    hide Inserted;
    var t := Inserted(ring, at, r);
    forall i | 0 <= i < |t| ensures Names(t)[i] == Inserted(Names(ring), at, r.ns.name)[i] {
      InsertedAt(ring, at, r, i);
      InsertedAt(Names(ring), at, r.ns.name, i);
    }
  }

  lemma InsertedSet(names: seq<string>, at: nat, name: string)
    requires at <= |names|
    ensures (set x | x in Inserted(names, at, name)) == (set x | x in names) + {name}
  {
    var t := Inserted(names, at, name);
    assert names == names[..at] + names[at..];
  }

  lemma InsertedDistinct(ring: seq<Node>, at: nat, r: Node)
    requires Distinct(ring) && at <= |ring| && r !in ring
    ensures Distinct(Inserted(ring, at, r))
  {
    hide Inserted;
    var t := Inserted(ring, at, r);
    forall i, j | 0 <= i < j < |t| ensures t[i] != t[j] {
      InsertedAt(ring, at, r, i);
      InsertedAt(ring, at, r, j);
    }
  }

  lemma InsertedNamed(ring: seq<Node>, at: nat, r: Node)
    requires Named(ring) && at <= |ring| && r.ns != null && |r.ns.name| <= MAX_NAME
    ensures Named(Inserted(ring, at, r))
  {
    hide Inserted;
    var t := Inserted(ring, at, r);
    forall i | 0 <= i < |t| ensures t[i].ns != null && |t[i].ns.name| <= MAX_NAME {
      InsertedAt(ring, at, r, i);
    }
  }

  lemma InsertedNext(ring: seq<Node>, at: nat, k: nat, r: Node)
    requires k < |ring| && (at == k + 1 || (at == 0 && k + 1 == |ring|))
    requires forall i :: 0 <= i < |ring| ==> ring[i].n == if i == k then r else ring[Next(i, |ring|)]
    requires r.n == ring[Next(k, |ring|)]
    ensures NextLinked(Inserted(ring, at, r))
  {
    hide Inserted;
    var t := Inserted(ring, at, r);
    forall i | 0 <= i < |t| ensures t[i].n == t[Next(i, |t|)] {
      InsertedAt(ring, at, r, i);
      InsertedAt(ring, at, r, Next(i, |t|));
    }
  }

  lemma InsertedPrev(ring: seq<Node>, at: nat, k: nat, r: Node)
    requires k < |ring| && (at == k + 1 || (at == 0 && k + 1 == |ring|))
    requires forall i :: 0 <= i < |ring| ==> ring[i].p == if i == Next(k, |ring|) then r else ring[Prev(i, |ring|)]
    requires r.p == ring[k]
    ensures PrevLinked(Inserted(ring, at, r))
  {
    hide Inserted;
    var t := Inserted(ring, at, r);
    forall i | 0 <= i < |t| ensures t[i].p == t[Prev(i, |t|)] {
      InsertedAt(ring, at, r, i);
      InsertedAt(ring, at, r, Prev(i, |t|));
    }
  }

  lemma InsertedMembers(ring: seq<Node>, at: nat, r: Node)
    requires at <= |ring|
    ensures r in Inserted(ring, at, r) && forall x :: x in ring ==> x in Inserted(ring, at, r)
  {
    assert ring == ring[..at] + ring[at..];
  }

  predicate Blank(s: Node)
    reads s
  {
    s.n == null && s.p == null && s.ns == null
  }

  /** A namespace is added once; the new node is the handle that is returned. */
  method Insert(s: Node?, ns: Namespace?, ghost ring: seq<Node>)
    returns (errno: int, r: Node?, ghost grown: seq<Node>)
    requires ns != null ==> |ns.name| <= MAX_NAME
    requires if s == null || Blank(s) then ring == [] else Ring(ring) && s in ring
    modifies ring, s
    ensures ns == null ==> r == null && errno == EINVAL && grown == ring
    ensures ns != null ==> (r == null <==> old(ns.name in NameSet(ring))) && errno == if r == null then EEXIST else 0
    ensures r == null ==> grown == ring && (forall x :: x in ring ==> x.n == old(x.n) && x.p == old(x.p) && x.ns == old(x.ns))
    ensures r != null ==> Ring(grown) && r in grown && r.ns == ns
    ensures r != null ==> NameSet(grown) == old(NameSet(ring)) + {ns.name}
    ensures r != null ==> forall x :: x in ring ==> x in grown && x.ns == old(x.ns)
  {
    grown := ring;
    if ns == null {
      return EINVAL, null, ring;
    }
    var t := s;
    if t == null {
      t := new Node();
    }
    if t.ns == null && t.n == null && t.p == null {
      t.n, t.p, t.ns := t, t, ns;
      grown := [t];
      assert Names(grown) == [ns.name];
      return 0, t, grown;
    }
    var found, q, k := Find(t, ns.name, ring);
    if found {
      return EEXIST, null, ring;
    }
    r, grown := Link(q, ns, ring, k);
    errno := 0;
  }

  method Splice(q: Node, r: Node, ghost ring: seq<Node>, ghost k: nat)
    requires k < |ring| && q == ring[k] && Distinct(ring) && NextLinked(ring) && PrevLinked(ring) && r !in ring
    modifies set x | x in ring :: x`n, set x | x in ring :: x`p, r`n, r`p
    ensures r.n == ring[Next(k, |ring|)] && r.p == ring[k]
    ensures forall i :: 0 <= i < |ring| ==> ring[i].n == if i == k then r else ring[Next(i, |ring|)]
    ensures forall i :: 0 <= i < |ring| ==> ring[i].p == if i == Next(k, |ring|) then r else ring[Prev(i, |ring|)]
  {
    ghost var m := Next(k, |ring|);
    assert ring[k] in ring && ring[m] in ring;
    r.n := q.n;
    r.p := q;
    q.n := r;
    r.n.p := r;
    forall i | 0 <= i < |ring|
      ensures ring[i].n == if i == k then r else ring[Next(i, |ring|)]
      ensures ring[i].p == if i == m then r else ring[Prev(i, |ring|)]
    {
      assert ring[i] in ring;
      assert i != k ==> ring[i] != q;
      assert i != m ==> ring[i] != ring[m];
    }
  }

  method Link(q: Node, ns: Namespace, ghost ring: seq<Node>, ghost k: nat) returns (r: Node, ghost grown: seq<Node>)
    requires Ring(ring) && k < |ring| && q == ring[k] && |ns.name| <= MAX_NAME
    requires Place(Names(ring), ns.name, k)
    modifies ring
    ensures fresh(r) && Ring(grown) && r in grown && r.ns == ns
    ensures NameSet(grown) == old(NameSet(ring)) + {ns.name}
    ensures forall x :: x in ring ==> x in grown && x.ns == old(x.ns)
  {
    hide Compare, Sorted, Inserted, Place, Named, Distinct, NextLinked, PrevLinked, Next, Prev;
    ghost var names := Names(ring);
    ghost var at := Position(names, ns.name, k);
    SortedInserted(names, ns.name, k);
    PositionFits(names, ns.name, k);
    r := new Node();
    r.ns := ns;
    Splice(q, r, ring, k);
    grown := Inserted(ring, at, r);
    assert Names(ring) == names;
    InsertedMembers(ring, at, r);
    InsertedDistinct(ring, at, r);
    StillNamed(ring);
    InsertedNamed(ring, at, r);
    NamesInserted(ring, at, r);
    InsertedSet(names, at, ns.name);
    InsertedNext(ring, at, k, r);
    InsertedPrev(ring, at, k, r);
  }

  lemma PositionFits(names: seq<string>, name: string, k: nat)
    requires k < |names|
    ensures var at := Position(names, name, k); at == k + 1 || (at == 0 && k + 1 == |names|)
  {
  }

  twostate lemma StillNamed(ring: seq<Node>)
    requires old(Named(ring)) && forall i :: 0 <= i < |ring| ==> ring[i].ns == old(ring[i].ns)
    ensures Named(ring)
  {
  }

  // ---------- removal ----------

  function Removed<T>(s: seq<T>, k: nat): (t: seq<T>)
    requires k < |s|
    ensures |t| == |s| - 1
  {
    s[..k] + s[k + 1..]
  }

  lemma RemovedAt<T>(s: seq<T>, k: nat, i: nat)
    requires k < |s| && i + 1 < |s|
    ensures Removed(s, k)[i] == if i < k then s[i] else s[i + 1]
  {
  }

  lemma RemovedOrder(ring: seq<Node>, k: nat)
    requires k < |ring| && Distinct(ring) && Named(ring) && Sorted(Names(ring))
    ensures Distinct(Removed(ring, k)) && Named(Removed(ring, k)) && Sorted(Names(Removed(ring, k)))
    ensures ring[k] !in Removed(ring, k)
  {
    hide Removed, Compare;
    var t := Removed(ring, k);
    forall i, j | 0 <= i < j < |t| ensures t[i] != t[j] && Compare(Names(t)[i], Names(t)[j]) < 0 {
      RemovedAt(ring, k, i);
      RemovedAt(ring, k, j);
      assert Names(t)[i] == Names(ring)[if i < k then i else i + 1];
      assert Names(t)[j] == Names(ring)[if j < k then j else j + 1];
    }
    forall i | 0 <= i < |t| ensures t[i].ns != null && |t[i].ns.name| <= MAX_NAME && t[i] != ring[k] {
      RemovedAt(ring, k, i);
    }
  }

  lemma RemovedNext(ring: seq<Node>, k: nat)
    requires k < |ring| && |ring| > 1
    requires forall i :: 0 <= i < |ring| ==>
               ring[i].n == if i == Prev(k, |ring|) then ring[Next(k, |ring|)] else ring[Next(i, |ring|)]
    ensures NextLinked(Removed(ring, k))
  {
    hide Removed;
    var t := Removed(ring, k);
    forall i | 0 <= i < |t| ensures t[i].n == t[Next(i, |t|)] {
      RemovedAt(ring, k, i);
      RemovedAt(ring, k, Next(i, |t|));
    }
  }

  lemma RemovedPrev(ring: seq<Node>, k: nat)
    requires k < |ring| && |ring| > 1
    requires forall i :: 0 <= i < |ring| ==>
               ring[i].p == if i == Next(k, |ring|) then ring[Prev(k, |ring|)] else ring[Prev(i, |ring|)]
    ensures PrevLinked(Removed(ring, k))
  {
    hide Removed;
    var t := Removed(ring, k);
    forall i | 0 <= i < |t| ensures t[i].p == t[Prev(i, |t|)] {
      RemovedAt(ring, k, i);
      RemovedAt(ring, k, Prev(i, |t|));
    }
  }

  lemma RemovedNames(ring: seq<Node>, k: nat)
    requires k < |ring| && Sorted(Names(ring))
    ensures NameSet(Removed(ring, k)) == NameSet(ring) - {Names(ring)[k]}
  {
    hide Removed, Compare;
    var t, names := Removed(ring, k), Names(ring);
    forall x | x in NameSet(t) ensures x in NameSet(ring) && x != names[k] {
      var i :| 0 <= i < |t| && Names(t)[i] == x;
      RemovedAt(ring, k, i);
      var o := if i < k then i else i + 1;
      assert names[o] == x;
      CompareEqual(names[k], names[k]);
    }
    forall x | x in NameSet(ring) && x != names[k] ensures x in NameSet(t) {
      var o :| 0 <= o < |names| && names[o] == x;
      var i := if o < k then o else o - 1;
      RemovedAt(ring, k, i);
      assert Names(t)[i] == x;
    }
  }

  method Bypass(r: Node, ghost ring: seq<Node>, ghost k: nat) returns (t: Node?)
    requires k < |ring| && r == ring[k] && Distinct(ring) && NextLinked(ring) && PrevLinked(ring)
    modifies set x | x in ring :: x`n, set x | x in ring :: x`p
    ensures t == if |ring| == 1 then null else ring[Next(k, |ring|)]
    ensures forall i :: 0 <= i < |ring| ==>
              ring[i].n == if i == Prev(k, |ring|) then ring[Next(k, |ring|)] else ring[Next(i, |ring|)]
    ensures forall i :: 0 <= i < |ring| ==>
              ring[i].p == if i == Next(k, |ring|) then ring[Prev(k, |ring|)] else ring[Prev(i, |ring|)]
  {
    ghost var m, l := Next(k, |ring|), Prev(k, |ring|);
    assert ring[k] in ring && ring[m] in ring && ring[l] in ring;
    assert ring[m] == ring[k] <==> |ring| == 1;
    t := r.n;
    if t == r {
      t := null;
    }
    r.p.n := r.n;
    r.n.p := r.p;
    forall i | 0 <= i < |ring|
      ensures ring[i].n == if i == l then ring[m] else ring[Next(i, |ring|)]
      ensures ring[i].p == if i == m then ring[l] else ring[Prev(i, |ring|)]
    {
      assert ring[i] in ring;
      assert i != l ==> ring[i] != ring[l];
      assert i != m ==> ring[i] != ring[m];
    }
  }

  /** A node leaves the ring; its neighbours are linked to each other. */
  method Unlink(r: Node, ghost ring: seq<Node>, ghost k: nat) returns (t: Node?)
    requires Ring(ring) && k < |ring| && r == ring[k]
    modifies ring
    ensures forall x :: x in ring ==> x.ns == old(x.ns)
    ensures t == null <==> |ring| == 1
    ensures |ring| > 1 ==> Ring(Removed(ring, k)) && t in Removed(ring, k) && r !in Removed(ring, k)
    ensures |ring| > 1 ==> NameSet(Removed(ring, k)) == old(NameSet(ring)) - {old(Names(ring))[k]}
  {
    hide Compare, Sorted, Named, Removed, Distinct, NextLinked, PrevLinked;
    ghost var names := Names(ring);
    ghost var m := Next(k, |ring|);
    t := Bypass(r, ring, k);
    assert Names(ring) == names;
    if |ring| > 1 {
      StillNamed(ring);
      RemovedOrder(ring, k);
      RemovedNext(ring, k);
      RemovedPrev(ring, k);
      RemovedNames(ring, k);
      RemovedAt(ring, k, if m < k then m else m - 1);
      assert Removed(ring, k)[if m < k then m else m - 1] == ring[m];
    }
  }

  ghost predicate Usable(ring: seq<Node>)
    reads ring, set x | x in ring && x.ns != null :: x.ns
  {
    forall i :: 0 <= i < |ring| && ring[i].ns != null ==> ring[i].ns.alive
  }

  /**
    Removal detaches first. A namespace that others still use stays in the ring; in every other case
    the node is taken out, also if detaching failed.
   */
  method Remove(s: Node?, ns: Namespace?, ghost ring: seq<Node>)
    returns (errno: int, t: Node?, ghost k: nat, ghost shrunk: seq<Node>)
    requires s != null ==> Ring(ring) && s in ring && Usable(ring)
    requires ns != null ==> |ns.name| <= MAX_NAME
    modifies ring, set x | x in ring && x.ns != null :: x.ns
    ensures s == null || ns == null ==> errno == EINVAL && t == null && shrunk == ring
    ensures s != null && ns != null && ns.name !in old(NameSet(ring)) ==> errno == 0 && t == s && shrunk == ring && Ring(ring)
    ensures s != null && ns != null && ns.name in old(NameSet(ring)) ==>
      && k < |ring| && old(ring[k].ns) != null && old(ring[k].ns).name == ns.name
      && var (after, rc) := Outcome(ns.name, old(ring[k].ns.refcnt), old(ring[k].ns.chksum), Detach);
         && old(ring[k].ns).Now() == after
         && (rc > 0 ==> errno == EBUSY && t == ring[k] && shrunk == ring && Ring(ring) && NameSet(ring) == old(NameSet(ring)))
         && (rc <= 0 ==> errno == 0 && shrunk == Removed(ring, k) && (t == null <==> shrunk == []))
         && (rc <= 0 && shrunk != [] ==> Ring(shrunk) && t in shrunk && NameSet(shrunk) == old(NameSet(ring)) - {ns.name})
  {
    hide Compare, Sorted, Namespaces.Outcome, Namespaces.Step;
    k, shrunk := 0, ring;
    if s == null || ns == null {
      return EINVAL, null, k, ring;
    }
    var found, r;
    found, r, k := Find(s, ns.name, ring);
    if !found {
      return 0, s, k, ring;
    }
    assert r in ring && Names(ring)[k] == ns.name == r.ns.name;
    ghost var names := Names(ring);
    var rc := r.ns.DetachNs();
    assert Names(ring) == names;
    if rc > 0 {
      return EBUSY, r, k, ring;
    }
    t := Unlink(r, ring, k);
    shrunk := Removed(ring, k);
    errno := 0;
  }
}
