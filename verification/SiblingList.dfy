/**
 * The sibling list of a cJSON array or object: every child points to the next one, every child but the first points
 * back to the one before it, and the first child's prev is the last child, so that appending needs no walk.
 */
module SiblingList {

  /** The element at index i, or null past either end. */
  ghost function At(s: seq<Item>, i: int): (r: Item?) {
    if 0 <= i < |s| then s[i] else null
  }

  ghost function InsertAt(s: seq<Item>, i: nat, x: Item): (r: seq<Item>)
    requires i <= |s|
  {
    s[..i] + [x] + s[i..]
  }

  ghost function RemoveAt(s: seq<Item>, i: nat): (r: seq<Item>)
    requires i < |s|
  {
    s[..i] + s[i + 1..]
  }

  ghost predicate Distinct(s: seq<Item>) {
    forall i, j :: 0 <= i < j < |s| ==> s[i] != s[j]
  }

  ghost predicate NextLinks(s: seq<Item>)
    reads s`next
  {
    forall i :: 0 <= i < |s| ==> s[i].next == At(s, i + 1)
  }

  ghost predicate PrevLinks(s: seq<Item>)
    reads s`prev
  {
    forall i :: 0 < i < |s| ==> s[i].prev == At(s, i - 1)
  }

  class Item {
    var next: Item?
    var prev: Item?
    var child: Item?
    /** The children, in order. */
    ghost var items: seq<Item>

    constructor ()
      ensures next == null && prev == null && child == null && items == []
    {
      next, prev, child := null, null, null;
      items := [];
    }

    /**
     next and prev are inverse along the children, and the last next is null. The first prev
     is some child or null, which is all that is left of it after the members were sorted.
     */
    ghost predicate Loose()
      reads this, items
    {
      && child == At(items, 0)
      && Distinct(items) && NextLinks(items) && PrevLinks(items)
      && (items != [] ==> items[0].prev == null || items[0].prev in items)
    }

    /** The same with the first prev at the last child, or null. */
    ghost predicate Chain()
      reads this, items
    {
      Loose() && (items != [] ==> items[0].prev == null || Closed())
    }

    /** The first child's prev is the last child. */
    ghost predicate Closed()
      reads this, items
    {
      items != [] ==> items[0].prev == items[|items| - 1]
    }

    ghost predicate Valid()
      reads this, items
    {
      Chain() && Closed()
    }
  }

  /** The list nodes an operation on the children of parent may relink. */
  ghost function Nodes(parent: Item?, item: Item?): (r: set<Item>)
    reads if parent == null then {} else {parent}
  {
    (if parent == null then {} else set x | x in parent.items) + (if item == null then {} else {item})
  }

  ghost function Owner(parent: Item?): (r: set<Item>) {
    if parent == null then {} else {parent}
  }

  method GetArrayItem(parent: Item?, index: nat) returns (r: Item?)
    requires parent != null ==> parent.Loose()
    ensures r == if parent == null then null else At(parent.items, index)
  {
    if parent == null {
      return null;
    }
    var current := parent.child;
    var left: nat := index;
    ghost var walked: nat := 0;
    while current != null && left > 0
      invariant left + walked == index
      invariant current == At(parent.items, walked)
      decreases left
    {
      left := left - 1;
      current := current.next;
      walked := walked + 1;
    }
    r := current;
  }

  const SIZE_MODULUS: nat := 0x1_0000_0000

  function Increment(size: nat): (r: nat)
    requires size < SIZE_MODULUS
    ensures r < SIZE_MODULUS
  {
    if size == SIZE_MODULUS - 1 then 0 else size + 1
  }

  /** A 32-bit counter counts modulo 2^32. */
  lemma CountsModulo(n: nat)
    ensures Increment(n % SIZE_MODULUS) == (n + 1) % SIZE_MODULUS
  {
  }

  /** A 32-bit size cast to int. */
  function AsInt(size: nat): (i: int)
    requires size < SIZE_MODULUS
  {
    if size < SIZE_MODULUS / 2 then size else size - SIZE_MODULUS
  }

  /** The number of children, as long as an int can hold it. */
  method GetArraySize(parent: Item?) returns (r: int)
    requires parent != null ==> parent.Loose()
    ensures r == if parent == null then 0 else AsInt(|parent.items| % SIZE_MODULUS)
    ensures parent != null ==> (r == |parent.items| <==> |parent.items| < SIZE_MODULUS / 2)
    ensures parent != null ==>
      -0x8000_0000 <= r < 0x8000_0000 && exists k: nat :: r == |parent.items| - 0x1_0000_0000 * k
  {
    hide Distinct, PrevLinks, Increment;
    if parent == null {
      return 0;
    }
    var child := parent.child;
    var size: nat := 0;
    ghost var walked: nat := 0;
    while child != null
      invariant walked <= |parent.items| && child == At(parent.items, walked)
      invariant size == walked % SIZE_MODULUS
      decreases |parent.items| - walked
    {
      CountsModulo(walked);
      size := Increment(size);
      child := child.next;
      walked := walked + 1;
    }
    r := AsInt(size);
    CutToInt(|parent.items|);
  }

  lemma CutToInt(n: nat)
    ensures var r := AsInt(n % SIZE_MODULUS);
      -0x8000_0000 <= r < 0x8000_0000 && exists k: nat :: r == n - 0x1_0000_0000 * k
  {
    var r, q := AsInt(n % SIZE_MODULUS), n / SIZE_MODULUS;
    assert n == SIZE_MODULUS * q + n % SIZE_MODULUS;
    assert r == n - 0x1_0000_0000 * (if n % SIZE_MODULUS < SIZE_MODULUS / 2 then q else q + 1);
  }

  // ----- how one relinking changes the two directions of the list -----

  type Links = map<Item, Item?>

  /** A snapshot of the next pointers of s. */
  ghost function Nexts(s: seq<Item>): (m: Links)
    reads s`next
    ensures forall o :: o in s ==> o in m && m[o] == o.next
  {
    map o | o in s :: o.next
  }

  ghost function Prevs(s: seq<Item>): (m: Links)
    reads s`prev
    ensures forall o :: o in s ==> o in m && m[o] == o.prev
  {
    map o | o in s :: o.prev
  }

  ghost predicate NextsOf(s: seq<Item>, m: Links) {
    forall i :: 0 <= i < |s| ==> s[i] in m && m[s[i]] == At(s, i + 1)
  }

  ghost predicate PrevsOf(s: seq<Item>, m: Links) {
    forall i :: 0 < i < |s| ==> s[i] in m && m[s[i]] == At(s, i - 1)
  }

  /** Of the nodes of s, only a and b may have a new next since the snapshot. */
  ghost predicate NextKept(s: seq<Item>, m: Links, a: Item?, b: Item?)
    reads s`next
  {
    forall o :: o in s && o != a && o != b ==> o in m && o.next == m[o]
  }

  ghost predicate PrevKept(s: seq<Item>, m: Links, a: Item?, b: Item?, c: Item?)
    reads s`prev
  {
    forall o :: o in s && o != a && o != b && o != c ==> o in m && o.prev == m[o]
  }

  lemma RemovedAt(s: seq<Item>, k: nat, i: nat)
    requires k < |s| && i < |s| - 1
    ensures RemoveAt(s, k)[i] == if i < k then s[i] else s[i + 1]
  {
  }

  lemma DetachKeepsNext(s: seq<Item>, m: Links, k: nat)
    requires k < |s| && Distinct(s) && NextsOf(s, m)
    requires NextKept(s, m, s[k], At(s, k - 1))
    requires k > 0 ==> s[k - 1].next == At(s, k + 1)
    ensures NextLinks(RemoveAt(s, k))
  {
    var t := RemoveAt(s, k);
    forall i | 0 <= i < |t|
      ensures t[i].next == At(t, i + 1)
    {
      RemovedAt(s, k, i);
      if i + 1 < |t| {
        RemovedAt(s, k, i + 1);
      }
      assert k > 0 ==> At(s, k - 1) == s[k - 1];
    }
  }

  lemma DetachKeepsPrev(s: seq<Item>, m: Links, k: nat)
    requires k < |s| && Distinct(s) && PrevsOf(s, m)
    requires PrevKept(s, m, s[k], At(s, k + 1), s[0])
    requires 0 < k && k + 1 < |s| ==> s[k + 1].prev == s[k - 1]
    ensures PrevLinks(RemoveAt(s, k))
  {
    var t := RemoveAt(s, k);
    forall i | 0 < i < |t|
      ensures t[i].prev == At(t, i - 1)
    {
      RemovedAt(s, k, i);
      RemovedAt(s, k, i - 1);
      assert k + 1 < |s| ==> At(s, k + 1) == s[k + 1];
    }
  }

  lemma RemoveKeepsDistinct(s: seq<Item>, k: nat)
    requires k < |s| && Distinct(s)
    ensures Distinct(RemoveAt(s, k))
  {
    var t := RemoveAt(s, k);
    forall i, j | 0 <= i < j < |t|
      ensures t[i] != t[j]
    {
      RemovedAt(s, k, i);
      RemovedAt(s, k, j);
    }
  }

  /** What relinking the neighbours of child k of the list s has to achieve; m and n are the links from before. */
  ghost predicate Bypassed(child: Item?, s: seq<Item>, k: nat, m: Links, n: Links)
    requires k < |s| && s[k] in n && s[0] in n
    reads s`next, s`prev
  {
    && NextKept(s, m, s[k], At(s, k - 1)) && PrevKept(s, n, s[k], At(s, k + 1), s[0])
    && (k > 0 ==> s[k - 1].next == At(s, k + 1))
    && (k > 0 && k + 1 < |s| ==> s[k + 1].prev == s[k - 1] && s[0].prev == n[s[0]])
    && (k > 0 && k + 1 == |s| ==> s[0].prev == s[k - 1])
    && (k == 0 && k + 1 < |s| ==> s[k + 1].prev == n[s[k]])
    && child == if k == 0 then At(s, 1) else s[0]
  }

  lemma RemovedEnds(s: seq<Item>, k: nat)
    requires k < |s|
    ensures var t := RemoveAt(s, k);
            && |t| == |s| - 1
            && (t != [] ==> t[0] == if k == 0 then s[1] else s[0])
            && (t != [] ==> t[|t| - 1] == if k == |s| - 1 then s[k - 1] else s[|s| - 1])
            && At(t, 0) == (if k == 0 then At(s, 1) else s[0])
            && (At(s, k + 1) == null <==> k == |s| - 1)
            && (k < |s| - 1 ==> At(s, k + 1) == s[k + 1])
            && (0 < k ==> At(s, k - 1) == s[k - 1])
  {
    if |s| > 1 {
      RemovedAt(s, k, 0);
      RemovedAt(s, k, |s| - 2);
    }
  }

  lemma DetachedHead(parent: Item, s: seq<Item>, k: nat, m: Links, n: Links, closed: bool)
    requires k < |s| && Snapshot(s, m, n, closed) && s[0] in n && s[k] in n
    requires Bypassed(parent.child, s, k, m, n) && parent.items == RemoveAt(s, k)
    ensures parent.child == At(parent.items, 0)
    ensures parent.items != [] ==>
      parent.items[0].prev == null || (parent.Closed() && parent.items[0].prev in parent.items)
    ensures closed ==> parent.Closed()
  {
    RemovedEnds(s, k);
    hide Distinct, NextLinks, PrevLinks, NextsOf, PrevsOf, NextKept, PrevKept, RemoveAt, At, Item.Chain;
  }

  lemma BypassedDetaches(parent: Item, s: seq<Item>, k: nat, m: Links, n: Links, closed: bool)
    requires k < |s| && Snapshot(s, m, n, closed) && s[0] in n && s[k] in n
    requires Bypassed(parent.child, s, k, m, n) && parent.items == RemoveAt(s, k)
    ensures parent.Chain() && (closed ==> parent.Closed())
  {
    hide Distinct, NextLinks, PrevLinks, NextsOf, PrevsOf, NextKept, PrevKept, RemoveAt, At, Item.Closed;
    DetachKeepsNext(s, m, k);
    DetachKeepsPrev(s, n, k);
    RemoveKeepsDistinct(s, k);
    DetachedHead(parent, s, k, m, n, closed);
  }

  /** Child k of s, its neighbours and the parent's child pointer before an operation. */
  ghost predicate Linked(child: Item?, s: seq<Item>, k: nat)
    requires k < |s|
    reads s`next, s`prev
  {
    && child == s[0]
    && s[k].next == At(s, k + 1)
    && (k > 0 ==> s[k].prev == s[k - 1] && s[k] != s[0] && s[k - 1] != s[k])
    && (k + 1 < |s| ==> s[k + 1] != s[k] && s[k + 1] != s[0])
    && (0 < k && k + 1 < |s| ==> s[k - 1] != s[k + 1])
  }

  /** The links of a chain, as a snapshot for the operations to come. */
  ghost predicate Snapshot(s: seq<Item>, m: Links, n: Links, closed: bool) {
    && Distinct(s) && NextsOf(s, m) && PrevsOf(s, n)
    && (s != [] ==> s[0] in n && (n[s[0]] == null || n[s[0]] == s[|s| - 1]))
    && (closed <==> s == [] || n[s[0]] == s[|s| - 1])
  }

  lemma ChainSnapshot(parent: Item)
    requires parent.Chain()
    ensures var s := parent.items;
            Snapshot(s, Nexts(s), Prevs(s), parent.Closed()) && parent.child == At(s, 0)
    ensures forall i :: 0 <= i < |parent.items| ==> parent.items[i] in Nodes(parent, null)
  {
  }

  lemma ChainLinked(parent: Item, k: nat)
    requires parent.Chain() && k < |parent.items|
    ensures var s := parent.items; Linked(parent.child, s, k) && s[k] in Prevs(s) && s[0] in Prevs(s)
    ensures |parent.items| > 1 ==> parent.items[0].prev != parent.items[0]
  {
  }

  /** The pointer surgery of a detachment. */
  method Bypass(parent: Item, item: Item, ghost s: seq<Item>, ghost k: nat, ghost nodes: set<Item>)
    requires k < |s| && s[k] == item && Linked(parent.child, s, k)
    requires forall i :: 0 <= i < |s| ==> s[i] in nodes
    modifies parent`child, nodes`next, nodes`prev
    ensures Bypassed(parent.child, s, k, old(Nexts(s)), old(Prevs(s)))
    ensures item.next == null && item.prev == null
  {
    if item != parent.child {
      item.prev.next := item.next;
    }
    if item.next != null {
      item.next.prev := item.prev;
    }
    if item == parent.child {
      parent.child := item.next;
    } else if item.next == null {
      parent.child.prev := item.prev;
    }
    item.prev := null;
    item.next := null;
  }

  /** Takes the k-th child, item, out of the list. */
  method Unlink(parent: Item, item: Item, ghost k: nat)
    requires parent.Chain() && k < |parent.items| && parent.items[k] == item
    modifies parent`child, parent`items, Nodes(parent, null)`next, Nodes(parent, null)`prev
    ensures parent.Chain() && parent.items == RemoveAt(old(parent.items), k)
    ensures old(parent.Closed()) ==> parent.Closed()
    ensures item.next == null && item.prev == null
  {
    hide *;
    ghost var s, closed := parent.items, parent.Closed();
    ghost var nexts, prevs, nodes := Nexts(s), Prevs(s), Nodes(parent, null);
    ChainSnapshot(parent);
    ChainLinked(parent, k);
    parent.items := RemoveAt(s, k);
    Bypass(parent, item, s, k, nodes);
    BypassedDetaches(parent, s, k, nexts, prevs, closed);
  }

  /** Detaches item; an item that is not linked anywhere is refused. */
  method DetachItemViaPointer(parent: Item?, item: Item?) returns (r: Item?)
    requires parent != null ==> parent.Chain()
    requires parent != null && item != null ==> item in parent.items || item.prev == null
    modifies Owner(parent)`child, Owner(parent)`items, Nodes(parent, item)`next, Nodes(parent, item)`prev
    ensures r == if parent != null && item != null && item in old(parent.items) then item else null
    ensures r != null ==> r.next == null && r.prev == null
    ensures parent != null ==> parent.Chain() && (old(parent.Closed()) ==> parent.Closed())
    ensures parent != null ==> Without(old(parent.items), parent.items, r)
  {
    if parent == null || item == null || (item != parent.child && item.prev == null) {
      return null;
    }
    ghost var k :| 0 <= k < |parent.items| && parent.items[k] == item;
    Unlink(parent, item, k);
    r := item;
  }

  /** after is before with r taken out of its one place, or before itself when there is no r. */
  ghost predicate Without(before: seq<Item>, after: seq<Item>, r: Item?) {
    if r == null then after == before
    else exists k :: 0 <= k < |before| && before[k] == r && after == RemoveAt(before, k)
  }

  // ----- adding a child -----

  lemma InsertedAt(s: seq<Item>, k: nat, x: Item, i: nat)
    requires k <= |s| && i <= |s|
    ensures InsertAt(s, k, x)[i] == if i < k then s[i] else if i == k then x else s[i - 1]
  {
  }

  lemma InsertKeepsDistinct(s: seq<Item>, k: nat, x: Item)
    requires k <= |s| && Distinct(s) && x !in s
    ensures Distinct(InsertAt(s, k, x))
  {
    var t := InsertAt(s, k, x);
    forall i, j | 0 <= i < j < |t|
      ensures t[i] != t[j]
    {
      InsertedAt(s, k, x, i);
      InsertedAt(s, k, x, j);
    }
  }

  /** What linking x in front of child k of the list s has to achieve; m and n are the links from before. */
  ghost predicate Spliced(child: Item?, s: seq<Item>, k: nat, x: Item, m: Links, n: Links)
    requires k <= |s| && (s != [] ==> s[0] in n)
    reads s`next, s`prev, x`next, x`prev
  {
    && NextKept(s, m, At(s, k - 1), null) && PrevKept(s, n, At(s, k), At(s, 0), null)
    && x.next == At(s, k)
    && (k > 0 ==> s[k - 1].next == x && x.prev == s[k - 1])
    && (k < |s| ==> s[k].prev == x)
    && (child == if k == 0 then x else s[0])
    && (s == [] ==> x.prev == x)
    && (s != [] && k == 0 ==> x.prev == n[s[0]])
    && (0 < k < |s| ==> s[0].prev == n[s[0]])
    && (0 < k == |s| ==> s[0].prev == x)
  }

  lemma InsertKeepsNext(s: seq<Item>, m: Links, n: Links, k: nat, x: Item, child: Item?)
    requires k <= |s| && Distinct(s) && NextsOf(s, m) && (s != [] ==> s[0] in n) && Spliced(child, s, k, x, m, n)
    ensures NextLinks(InsertAt(s, k, x))
  {
    var t := InsertAt(s, k, x);
    forall i | 0 <= i < |t|
      ensures t[i].next == At(t, i + 1)
    {
      InsertedAt(s, k, x, i);
      if i + 1 < |t| {
        InsertedAt(s, k, x, i + 1);
      }
    }
  }

  lemma InsertKeepsPrev(s: seq<Item>, m: Links, n: Links, k: nat, x: Item, child: Item?)
    requires k <= |s| && Distinct(s) && PrevsOf(s, n) && (s != [] ==> s[0] in n) && Spliced(child, s, k, x, m, n)
    ensures PrevLinks(InsertAt(s, k, x))
  {
    var t := InsertAt(s, k, x);
    forall i | 0 < i < |t|
      ensures t[i].prev == At(t, i - 1)
    {
      InsertedAt(s, k, x, i);
      InsertedAt(s, k, x, i - 1);
    }
  }

  lemma SplicedHead(parent: Item, s: seq<Item>, k: nat, x: Item, m: Links, n: Links, closed: bool)
    requires k <= |s| && Snapshot(s, m, n, closed) && (s != [] ==> s[0] in n)
    requires k == |s| ==> closed
    requires Spliced(parent.child, s, k, x, m, n) && parent.items == InsertAt(s, k, x)
    ensures parent.child == At(parent.items, 0)
    ensures parent.items[0].prev == null || (parent.Closed() && parent.items[0].prev in parent.items)
    ensures parent.Closed() == closed
  {
    InsertedAt(s, k, x, 0);
    InsertedAt(s, k, x, |s|);
    hide Distinct, NextLinks, PrevLinks, NextsOf, PrevsOf, NextKept, PrevKept, InsertAt, Item.Chain;
  }

  lemma SplicedInserts(parent: Item, s: seq<Item>, k: nat, x: Item, m: Links, n: Links, closed: bool)
    requires k <= |s| && x !in s && Snapshot(s, m, n, closed) && (s != [] ==> s[0] in n)
    requires k == |s| ==> closed
    requires Spliced(parent.child, s, k, x, m, n) && parent.items == InsertAt(s, k, x)
    ensures parent.Chain() && parent.Closed() == closed
  {
    hide Distinct, NextLinks, PrevLinks, NextsOf, PrevsOf, NextKept, PrevKept, At, Item.Closed, Spliced;
    InsertKeepsNext(s, m, n, k, x, parent.child);
    InsertKeepsPrev(s, m, n, k, x, parent.child);
    InsertKeepsDistinct(s, k, x);
    SplicedHead(parent, s, k, x, m, n, closed);
  }

  method SuffixObject(prev: Item, item: Item)
    modifies prev`next, item`prev
    ensures prev.next == item && item.prev == prev
  {
    prev.next := item;
    item.prev := prev;
  }

  /** The pointer surgery of an append to a list whose first prev is its last child. */
  method LinkLast(parent: Item, item: Item, ghost s: seq<Item>, ghost nodes: set<Item>)
    requires parent.child == At(s, 0) && item !in s && item.next == null
    requires s != [] ==> s[0].prev == s[|s| - 1]
    requires item in nodes && forall i :: 0 <= i < |s| ==> s[i] in nodes
    modifies parent`child, nodes`next, nodes`prev
    ensures Spliced(parent.child, s, |s|, item, old(Nexts(s)), old(Prevs(s)))
  {
    var child := parent.child;
    if child == null {
      parent.child := item;
      item.prev := item;
      item.next := null;
    } else if child.prev != null {
      SuffixObject(child.prev, item);
      parent.child.prev := item;
    }
  }

  /**
   The item goes behind the child t that the first child's prev points to, whatever followed
   t is cut off, and the result is true; where that prev is null nothing is added at all.
   It appends if and only if t is the last child.
   */
  method AddItemToArray(parent: Item?, item: Item?) returns (ok: bool)
    requires parent != null ==> parent.Loose()
    requires parent != null && item != null ==> item !in parent.items
    requires item != null ==> item.next == null
    modifies Owner(parent)`child, Owner(parent)`items, Nodes(parent, item)`next, Nodes(parent, item)`prev
    ensures ok == (item != null && parent != null && parent != item)
    ensures parent != null ==> parent.Loose() && (old(parent.Closed()) ==> parent.Closed())
    ensures ok && old(parent.items) == [] ==> parent.items == [item]
    ensures ok ==> forall i :: 0 <= i < |old(parent.items)| && old(parent.items)[i] == old(First(parent).prev) ==>
              parent.items == old(parent.items)[..i + 1] + [item]
    ensures ok && old(parent.items) != [] && old(First(parent).prev) == null ==>
              parent.items == old(parent.items) && First(parent).prev == null
    ensures ok && (old(parent.items) == [] || old(First(parent).prev) != null) ==> parent.Closed()
    ensures ok ==> (parent.items == old(parent.items) + [item] <==> old(parent.Closed()))
    ensures parent != null && !ok ==> parent.items == old(parent.items) && parent.Closed() == old(parent.Closed())
    ensures !ok && parent != null && old(parent.Chain()) ==> parent.Chain()
    ensures !ok && item != null ==> unchanged(item)
  {
    if item == null || parent == null || parent == item {
      return false;
    }
    ok := true;
    if parent.child == null || parent.child.prev != null {
      ghost var i :| 0 <= i <= |parent.items| && (i < |parent.items| ==> parent.items[i] == First(parent).prev)
                     && (i == |parent.items| ==> parent.items == []);
      Append(parent, item, i);
    }
  }

  /** The first child, or the parent itself when there is none. */
  ghost function First(parent: Item?): (r: Item)
    requires parent != null
    reads parent
  {
    if parent.items == [] then parent else parent.items[0]
  }

  /** The children up to child i. */
  ghost function UpTo(s: seq<Item>, i: nat): seq<Item>
    requires i <= |s|
  {
    if s == [] then [] else s[..Min(i + 1, |s|)]
  }

  ghost function Min(a: nat, b: nat): nat {
    if a <= b then a else b
  }

  /** The next pointers of s, as if its last child were the last one of the list. */
  ghost function CutNexts(s: seq<Item>, m: Links): (r: Links) {
    if s == [] then m else m[s[|s| - 1] := null]
  }

  lemma CutSnapshot(parent: Item, item: Item, i: nat)
    requires parent.Loose() && item !in parent.items && i <= |parent.items|
    requires i < |parent.items| ==> parent.items[i] == First(parent).prev
    requires i == |parent.items| ==> parent.items == []
    ensures var s := UpTo(parent.items, i);
            Snapshot(s, CutNexts(s, Nexts(s)), Prevs(s), true) && parent.child == At(s, 0) && item !in s &&
            (s != [] ==> s[0].prev == s[|s| - 1] && s[0] in Prevs(s)) && InsertAt(s, |s|, item) == s + [item]
    ensures item in Nodes(parent, item)
    ensures forall j :: 0 <= j < |UpTo(parent.items, i)| ==> UpTo(parent.items, i)[j] in Nodes(parent, item)
  {
    var all := parent.items;
    var s := UpTo(all, i);
    UpToFacts(all, i);
    NodesHold(parent, item);
    InsertLast(s, item);
    FrontEnds(parent, s, item);
    hide *;
    hide Item.Loose;
    FrontSnapshot(parent, s);
  }

  lemma InsertLast(s: seq<Item>, x: Item)
    ensures InsertAt(s, |s|, x) == s + [x]
  {
  }

  lemma FrontEnds(parent: Item, s: seq<Item>, item: Item)
    requires parent.child == At(parent.items, 0) && item !in parent.items && |s| <= |parent.items|
    requires s == parent.items[..|s|] && (s == [] <==> parent.items == [])
    requires s != [] ==> s[|s| - 1] == parent.items[0].prev
    ensures parent.child == At(s, 0) && item !in s && (s != [] ==> s[0].prev == s[|s| - 1] && s[0] in Prevs(s))
  {
    if s != [] {
      assert s[0] in s && s[0] == parent.items[0];
    }
  }

  lemma FrontSnapshot(parent: Item, s: seq<Item>)
    requires parent.Loose() && |s| <= |parent.items| && s == parent.items[..|s|]
    requires s != [] ==> s[0].prev == s[|s| - 1] && s[0] in Prevs(s)
    ensures Snapshot(s, CutNexts(s, Nexts(s)), Prevs(s), true)
  {
    hide NextLinks, PrevLinks, NextsOf, PrevsOf, CutNexts, Distinct, At, Nexts;
    FrontDistinct(parent.items, s);
    FrontNexts(parent.items, s);
    FrontPrevs(parent.items, s);
  }

  lemma UpToFacts(all: seq<Item>, i: nat)
    requires i <= |all| && (i == |all| ==> all == [])
    ensures var s := UpTo(all, i);
      && s == all[..|s|] && (forall j :: 0 <= j < |s| ==> s[j] == all[j])
      && (s == [] <==> all == []) && (s != [] ==> |s| == i + 1)
  {
  }

  lemma FrontDistinct(all: seq<Item>, s: seq<Item>)
    requires Distinct(all) && |s| <= |all| && s == all[..|s|]
    ensures Distinct(s)
  {
  }

  lemma FrontNexts(all: seq<Item>, s: seq<Item>)
    requires Distinct(s) && NextLinks(all) && |s| <= |all| && s == all[..|s|]
    ensures NextsOf(s, CutNexts(s, Nexts(s)))
  {
    forall j | 0 <= j < |s|
      ensures s[j] in CutNexts(s, Nexts(s)) && CutNexts(s, Nexts(s))[s[j]] == At(s, j + 1)
    {
      assert s[j] in s && s[j] == all[j] && all[j].next == At(all, j + 1);
      CutNext(s, Nexts(s), j);
    }
  }

  lemma CutNext(s: seq<Item>, m: Links, j: nat)
    requires j < |s| && s[j] in m && (j < |s| - 1 ==> s[j] != s[|s| - 1] && m[s[j]] == s[j + 1])
    ensures s[j] in CutNexts(s, m) && CutNexts(s, m)[s[j]] == At(s, j + 1)
  {
  }

  lemma FrontPrevs(all: seq<Item>, s: seq<Item>)
    requires PrevLinks(all) && |s| <= |all| && s == all[..|s|]
    ensures PrevsOf(s, Prevs(s))
  {
    forall j | 0 < j < |s|
      ensures s[j] in Prevs(s) && Prevs(s)[s[j]] == At(s, j - 1)
    {
      assert s[j] in s && s[j] == all[j] && s[j - 1] == all[j - 1];
    }
  }

  /** For the append it does not matter what the last child's next was. */
  lemma CutSplice(child: Item?, s: seq<Item>, x: Item, m: Links, n: Links)
    requires (s != [] ==> s[0] in n) && Spliced(child, s, |s|, x, m, n)
    ensures Spliced(child, s, |s|, x, CutNexts(s, m), n)
  {
  }

  method Append(parent: Item, item: Item, ghost i: nat)
    requires parent.Loose() && item !in parent.items && item.next == null && i <= |parent.items|
    requires i < |parent.items| ==> parent.items[i] == First(parent).prev
    requires i == |parent.items| ==> parent.items == []
    modifies parent`child, parent`items, Nodes(parent, item)`next, Nodes(parent, item)`prev
    ensures parent.Chain() && parent.Closed() && parent.items == UpTo(old(parent.items), i) + [item]
  {
    hide *;
    ghost var s := UpTo(parent.items, i);
    ghost var nexts, prevs, nodes := Nexts(s), Prevs(s), Nodes(parent, item);
    CutSnapshot(parent, item, i);
    parent.items := InsertAt(s, |s|, item);
    LinkLast(parent, item, s, nodes);
    CutSplice(parent.child, s, item, nexts, prevs);
    SplicedInserts(parent, s, |s|, item, CutNexts(s, nexts), prevs, true);
  }

  /** The pointer surgery of an insertion in front of the child after. */
  method LinkBefore(parent: Item, after: Item, item: Item, ghost s: seq<Item>, ghost k: nat, ghost nodes: set<Item>)
    requires k < |s| && s[k] == after && Linked(parent.child, s, k) && item !in s
    requires item in nodes && forall i :: 0 <= i < |s| ==> s[i] in nodes
    modifies parent`child, nodes`next, nodes`prev
    ensures Spliced(parent.child, s, k, item, old(Nexts(s)), old(Prevs(s)))
  {
    item.next := after;
    item.prev := after.prev;
    after.prev := item;
    if after == parent.child {
      parent.child := item;
    } else {
      item.prev.next := item;
    }
  }

  /** Puts item in front of child k. */
  method Insert(parent: Item, after: Item, item: Item, ghost k: nat)
    requires parent.Chain() && k < |parent.items| && parent.items[k] == after && item !in parent.items
    modifies parent`child, parent`items, Nodes(parent, item)`next, Nodes(parent, item)`prev
    ensures parent.Chain() && parent.Closed() == old(parent.Closed())
    ensures parent.items == InsertAt(old(parent.items), k, item)
  {
    hide *;
    ghost var s, closed := parent.items, parent.Closed();
    ghost var nexts, prevs, nodes := Nexts(s), Prevs(s), Nodes(parent, item);
    ChainSnapshot(parent);
    ChainLinked(parent, k);
    NodesHold(parent, item);
    parent.items := InsertAt(s, k, item);
    LinkBefore(parent, after, item, s, k, nodes);
    SplicedInserts(parent, s, k, item, nexts, prevs, closed);
  }

  lemma NodesHold(parent: Item, item: Item)
    ensures item in Nodes(parent, item)
    ensures forall i :: 0 <= i < |parent.items| ==> parent.items[i] in Nodes(parent, item)
  {
  }

  /** Inserts before child number which; past the end it appends. */
  method InsertItemInArray(parent: Item?, which: int, item: Item?) returns (ok: bool)
    requires parent != null ==> parent.Chain()
    requires parent != null && item != null ==> item !in parent.items
    requires item != null ==> item.next == null
    modifies Owner(parent)`child, Owner(parent)`items, Nodes(parent, item)`next, Nodes(parent, item)`prev
    ensures parent != null ==> parent.Chain() && parent.Closed() == old(parent.Closed())
    ensures parent == null || item == null || which < 0 ==> !ok
    ensures !ok && item != null ==> unchanged(item)
    ensures parent != null && item != null && 0 <= which < |old(parent.items)| ==>
              ok && parent.items == InsertAt(old(parent.items), which, item)
    ensures parent != null && item != null && which >= |old(parent.items)| ==> ok == (item != parent)
    ensures parent != null && ok && which >= |old(parent.items)| && old(parent.Closed()) ==>
              parent.items == old(parent.items) + [item]
    ensures parent != null && (!ok || (which >= |old(parent.items)| && !old(parent.Closed()))) ==>
              parent.items == old(parent.items)
  {
    if which < 0 || item == null {
      return false;
    }
    var after := GetArrayItem(parent, which);
    if after == null {
      ok := AddItemToArray(parent, item);
      return;
    }
    ChainLinked(parent, which);
    ok := true;
    if after != parent.child && after.prev == null {
      assert false;
    } else {
      Insert(parent, after, item, which);
    }
  }

  // ----- replacing a child -----

  lemma ReplaceKeepsDistinct(s: seq<Item>, k: nat, x: Item)
    requires k < |s| && Distinct(s) && x !in s
    ensures Distinct(s[k := x])
  {
  }

  /** What putting x in the place of child k of the list s has to achieve; m and n are the links from before. */
  ghost predicate Swapped(child: Item?, s: seq<Item>, k: nat, x: Item, m: Links, n: Links)
    requires k < |s| && s[0] in n
    reads s`next, s`prev, x`next, x`prev
  {
    && NextKept(s, m, s[k], At(s, k - 1)) && PrevKept(s, n, s[k], At(s, k + 1), s[0])
    && x.next == At(s, k + 1)
    && (k > 0 ==> s[k - 1].next == x && x.prev == s[k - 1])
    && (k + 1 < |s| ==> s[k + 1].prev == x)
    && (child == if k == 0 then x else s[0])
    && (0 == k == |s| - 1 ==> x.prev == if n[s[0]] == s[0] then x else n[s[0]])
    && (0 == k < |s| - 1 ==> x.prev == n[s[0]])
    && (0 < k < |s| - 1 ==> s[0].prev == n[s[0]])
    && (0 < k == |s| - 1 ==> s[0].prev == x)
  }

  lemma SwapKeepsNext(s: seq<Item>, m: Links, n: Links, k: nat, x: Item, child: Item?)
    requires k < |s| && Distinct(s) && NextsOf(s, m) && s[0] in n && Swapped(child, s, k, x, m, n)
    ensures NextLinks(s[k := x])
  {
    var t := s[k := x];
    forall i | 0 <= i < |t|
      ensures t[i].next == At(t, i + 1)
    {
      assert i != k ==> t[i] == s[i];
      assert i + 1 < |t| && i + 1 != k ==> t[i + 1] == s[i + 1];
    }
  }

  lemma SwapKeepsPrev(s: seq<Item>, m: Links, n: Links, k: nat, x: Item, child: Item?)
    requires k < |s| && Distinct(s) && PrevsOf(s, n) && s[0] in n && Swapped(child, s, k, x, m, n)
    ensures PrevLinks(s[k := x])
  {
    var t := s[k := x];
    forall i | 0 < i < |t|
      ensures t[i].prev == At(t, i - 1)
    {
      assert i != k ==> t[i] == s[i];
      assert i - 1 != k ==> t[i - 1] == s[i - 1];
    }
  }

  lemma SwappedHead(parent: Item, s: seq<Item>, k: nat, x: Item, m: Links, n: Links, closed: bool)
    requires k < |s| && Snapshot(s, m, n, closed) && s[0] in n
    requires Swapped(parent.child, s, k, x, m, n) && parent.items == s[k := x]
    ensures parent.child == At(parent.items, 0)
    ensures parent.items[0].prev == null || (parent.Closed() && parent.items[0].prev in parent.items)
    ensures closed ==> parent.Closed()
  {
    hide Distinct, NextLinks, PrevLinks, NextsOf, PrevsOf, NextKept, PrevKept, Item.Chain;
  }

  lemma SwappedReplaces(parent: Item, s: seq<Item>, k: nat, x: Item, m: Links, n: Links, closed: bool)
    requires k < |s| && x !in s && Snapshot(s, m, n, closed) && s[0] in n
    requires Swapped(parent.child, s, k, x, m, n) && parent.items == s[k := x]
    ensures parent.Chain() && (closed ==> parent.Closed())
  {
    hide Distinct, NextLinks, PrevLinks, NextsOf, PrevsOf, NextKept, PrevKept, At, Item.Closed, Swapped;
    SwapKeepsNext(s, m, n, k, x, parent.child);
    SwapKeepsPrev(s, m, n, k, x, parent.child);
    ReplaceKeepsDistinct(s, k, x);
    SwappedHead(parent, s, k, x, m, n, closed);
  }

  /** The pointer surgery of a replacement. */
  method Substitute(parent: Item, item: Item, replacement: Item, ghost s: seq<Item>, ghost k: nat,
                    ghost nodes: set<Item>)
    requires k < |s| && s[k] == item && Linked(parent.child, s, k) && replacement !in s
    requires |s| > 1 ==> s[0].prev != s[0]
    requires replacement in nodes && forall i :: 0 <= i < |s| ==> s[i] in nodes
    modifies parent`child, nodes`next, nodes`prev
    ensures Swapped(parent.child, s, k, replacement, old(Nexts(s)), old(Prevs(s)))
    ensures item.next == null && item.prev == null
  {
    replacement.next := item.next;
    replacement.prev := item.prev;
    if replacement.next != null {
      replacement.next.prev := replacement;
    }
    if parent.child == item {
      if parent.child.prev == parent.child {
        replacement.prev := replacement;
      }
      parent.child := replacement;
    } else {
      if replacement.prev != null {
        replacement.prev.next := replacement;
      }
      if replacement.next == null {
        parent.child.prev := replacement;
      }
    }
    item.next := null;
    item.prev := null;
  }

  /** Puts replacement in the place of child k. */
  method Replace(parent: Item, item: Item, replacement: Item, ghost k: nat)
    requires parent.Chain() && k < |parent.items| && parent.items[k] == item && replacement !in parent.items
    modifies parent`child, parent`items, Nodes(parent, replacement)`next, Nodes(parent, replacement)`prev
    ensures parent.Chain() && (old(parent.Closed()) ==> parent.Closed())
    ensures parent.items == old(parent.items)[k := replacement]
    ensures item.next == null && item.prev == null
  {
    hide *;
    ghost var s, closed := parent.items, parent.Closed();
    ghost var nexts, prevs, nodes := Nexts(s), Prevs(s), Nodes(parent, replacement);
    ChainSnapshot(parent);
    ChainLinked(parent, k);
    NodesHold(parent, replacement);
    parent.items := s[k := replacement];
    Substitute(parent, item, replacement, s, k, nodes);
    SwappedReplaces(parent, s, k, replacement, nexts, prevs, closed);
  }

  ghost predicate Replaced(before: seq<Item>, after: seq<Item>, item: Item, replacement: Item) {
    exists k :: 0 <= k < |before| && before[k] == item && after == before[k := replacement]
  }

  method ReplaceItemViaPointer(parent: Item?, item: Item?, replacement: Item?) returns (ok: bool)
    requires parent != null ==> parent.Chain()
    requires parent != null && item != null ==> item in parent.items
    requires parent != null && replacement != null && replacement != item ==> replacement !in parent.items
    modifies Owner(parent)`child, Owner(parent)`items
    modifies Nodes(parent, replacement)`next, Nodes(parent, replacement)`prev
    ensures ok == (parent != null && item != null && replacement != null)
    ensures parent != null ==> parent.Chain() && (old(parent.Closed()) ==> parent.Closed())
    ensures parent != null && !ok ==> parent.items == old(parent.items)
    ensures !ok && replacement != null ==> unchanged(replacement)
    ensures ok ==> Replaced(old(parent.items), parent.items, item, replacement)
    ensures ok && replacement != item ==> item.next == null && item.prev == null
  {
    if parent == null || parent.child == null || replacement == null || item == null {
      return false;
    }
    ghost var s := parent.items;
    ghost var k :| 0 <= k < |s| && s[k] == item;
    ok := true;
    if replacement == item {
      assert s == s[k := replacement];
    } else {
      Replace(parent, item, replacement, k);
    }
  }

  // ----- whole runs of edits -----

  method DetachItemFromArray(parent: Item, which: int) returns (r: Item?)
    requires parent.Valid()
    modifies parent`child, parent`items, Nodes(parent, null)`next, Nodes(parent, null)`prev
    ensures parent.Valid() && parent.items == Apply(old(parent.items), DetachAt(which))
    ensures r == At(old(parent.items), which)
    ensures 0 <= which < |old(parent.items)| ==>
              parent.items == old(parent.items)[..which] + old(parent.items)[which + 1..]
    ensures !(0 <= which < |old(parent.items)|) ==> parent.items == old(parent.items)
    ensures r != null ==> r.next == null && r.prev == null
  {
    ghost var s := parent.items;
    assert Distinct(s);
    hide Item.Loose, Distinct, NextLinks, PrevLinks, Without;
    if which < 0 {
      return null;
    }
    var item := GetArrayItem(parent, which);
    r := DetachItemViaPointer(parent, item);
    WithoutAt(s, parent.items, r, which);
  }

  lemma WithoutAt(before: seq<Item>, after: seq<Item>, r: Item?, which: nat)
    requires Distinct(before) && Without(before, after, r) && r == At(before, which)
    ensures after == if which < |before| then RemoveAt(before, which) else before
  {
  }

  method ReplaceItemInArray(parent: Item, which: int, item: Item) returns (ok: bool)
    requires parent.Valid() && item !in parent.items
    modifies parent`child, parent`items, Nodes(parent, item)`next, Nodes(parent, item)`prev
    ensures parent.Valid() && parent.items == Apply(old(parent.items), ReplaceAt(which, item))
    ensures ok == (0 <= which < |old(parent.items)|)
    ensures parent.items == if ok then old(parent.items)[which := item] else old(parent.items)
    ensures ok ==> old(parent.items)[which].next == null
    ensures !ok ==> unchanged(item)
  {
    if which < 0 {
      return false;
    }
    var current := GetArrayItem(parent, which);
    ok := ReplaceItemViaPointer(parent, current, item);
  }

  datatype Edit =
    | Add(item: Item)
    | InsertBefore(which: int, item: Item)
    | DetachAt(which: int)
    | ReplaceAt(which: int, item: Item)

  /** What an edit does to the sequence of children. */
  ghost function Apply(s: seq<Item>, e: Edit): (t: seq<Item>) {
    match e
    case Add(x) => s + [x]
    case InsertBefore(which, x) =>
      if which < 0 then s else if which < |s| then InsertAt(s, which, x) else s + [x]
    case DetachAt(which) => if 0 <= which < |s| then RemoveAt(s, which) else s
    case ReplaceAt(which, x) => if 0 <= which < |s| then s[which := x] else s
  }

  ghost function ApplyAll(s: seq<Item>, edits: seq<Edit>): (t: seq<Item>)
    decreases |edits|
  {
    if edits == [] then s else ApplyAll(Apply(s, edits[0]), edits[1..])
  }

  /** No edit brings in a node that is already in the list at that point. */
  ghost predicate Fits(s: seq<Item>, edits: seq<Edit>)
    decreases |edits|
  {
    edits == [] || ((edits[0].DetachAt? || edits[0].item !in s) && Fits(Apply(s, edits[0]), edits[1..]))
  }

  ghost predicate Unlinked(pool: set<Item>, s: seq<Item>)
    reads pool
  {
    forall o :: o in pool && o !in s ==> o.next == null
  }

  /** An edit brings in at most its own node, and takes out at most the child it names. */
  lemma ApplyMembers(s: seq<Item>, e: Edit, o: Item)
    ensures o in Apply(s, e) ==> o in s || (!e.DetachAt? && o == e.item)
    ensures o in s && o !in Apply(s, e) ==> (e.DetachAt? || e.ReplaceAt?) && 0 <= e.which < |s| && o == s[e.which]
  {
    if o in s {
      var i :| 0 <= i < |s| && s[i] == o;
      KeptAt(s, e, i);
    }
  }

  /** Where child i is after the edit, unless the edit names it. */
  lemma KeptAt(s: seq<Item>, e: Edit, i: nat)
    requires i < |s|
    ensures ((e.DetachAt? || e.ReplaceAt?) && e.which == i) || s[i] in Apply(s, e)
  {
    var t := Apply(s, e);
    match e
    case Add(x) => assert t[i] == s[i];
    case InsertBefore(which, x) =>
      if 0 <= which < |s| {
        InsertedAt(s, which, x, if i < which then i else i + 1);
      } else if which >= |s| {
        assert t[i] == s[i];
      }
    case DetachAt(which) =>
      if 0 <= which < |s| && i != which {
        RemovedAt(s, which, if i < which then i else i - 1);
      }
    case ReplaceAt(which, x) =>
      if 0 <= which < |s| && i != which {
        assert t[i] == s[i];
      }
  }

  /** The nodes an operation may touch are all in the pool. */
  lemma NodesInPool(parent: Item, item: Item?, pool: set<Item>)
    requires forall o :: o in parent.items ==> o in pool
    requires item != null ==> item in pool
    ensures Nodes(parent, item) <= pool && Owner(parent) == {parent}
    ensures forall o :: o in Nodes(parent, item) <==> o in parent.items || o == item
  {
  }

  lemma StillUnlinked(s: seq<Item>, e: Edit, pool: set<Item>)
    requires forall o :: o in s ==> o in pool
    requires e.DetachAt? || e.item in pool
    requires Untouched(pool, s, if e.DetachAt? then null else e.item)
    requires (e.DetachAt? || e.ReplaceAt?) && 0 <= e.which < |s| ==> s[e.which].next == null
    requires !e.DetachAt? && e.item !in Apply(s, e) ==> e.item.next == null
    ensures Unlinked(pool, Apply(s, e))
    ensures forall o :: o in Apply(s, e) ==> o in pool
  {
    forall o | o in pool
      ensures o !in Apply(s, e) ==> o.next == null
    {
      ApplyMembers(s, e, o);
    }
    forall o | o in Apply(s, e)
      ensures o in pool
    {
      ApplyMembers(s, e, o);
    }
  }

  /** Outside the list and the given node, nothing in the pool is linked to a successor. */
  ghost predicate Untouched(pool: set<Item>, s: seq<Item>, x: Item?)
    reads pool
  {
    forall o :: o in pool && o !in s && o != x ==> o.next == null
  }

  method PerformEntry(parent: Item, edit: Edit, ghost pool: set<Item>)
    requires parent.Valid() && parent !in pool && Unlinked(pool, parent.items)
    requires forall o :: o in parent.items ==> o in pool
    requires (edit.Add? || edit.InsertBefore?) && edit.item in pool && edit.item !in parent.items
    modifies parent`child, parent`items, pool`next, pool`prev
    ensures parent.Valid() && parent.items == Apply(old(parent.items), edit)
    ensures Untouched(pool, old(parent.items), edit.item)
    ensures edit.item !in parent.items ==> edit.item.next == null
  {
    NodesInPool(parent, edit.item, pool);
    hide Item.Loose, Item.Chain, Item.Closed, InsertAt, RemoveAt, Nodes, Owner;
    if edit.Add? {
      var _ := AddItemToArray(parent, edit.item);
    } else {
      var _ := InsertItemInArray(parent, edit.which, edit.item);
    }
  }

  lemma ReplacedIn(s: seq<Item>, which: int, item: Item)
    ensures 0 <= which < |s| ==> item in Apply(s, ReplaceAt(which, item))
  {
    assert 0 <= which < |s| ==> s[which := item][which] == item;
  }

  method PerformReplace(parent: Item, which: int, item: Item, ghost pool: set<Item>)
    requires parent.Valid() && parent !in pool && Unlinked(pool, parent.items)
    requires forall o :: o in parent.items ==> o in pool
    requires item in pool && item !in parent.items
    modifies parent`child, parent`items, pool`next, pool`prev
    ensures parent.Valid() && parent.items == Apply(old(parent.items), ReplaceAt(which, item))
    ensures Untouched(pool, old(parent.items), item)
    ensures 0 <= which < |old(parent.items)| ==> old(parent.items)[which].next == null
    ensures item !in parent.items ==> item.next == null
  {
    ghost var s := parent.items;
    NodesInPool(parent, item, pool);
    ReplacedIn(s, which, item);
    hide Item.Loose, Item.Chain, Item.Closed, InsertAt, RemoveAt, Nodes, Owner, Apply, At;
    var ok := ReplaceItemInArray(parent, which, item);
  }

  method PerformDetach(parent: Item, which: int, ghost pool: set<Item>)
    requires parent.Valid() && parent !in pool && Unlinked(pool, parent.items)
    requires forall o :: o in parent.items ==> o in pool
    modifies parent`child, parent`items, pool`next, pool`prev
    ensures parent.Valid() && parent.items == Apply(old(parent.items), DetachAt(which))
    ensures Untouched(pool, old(parent.items), null)
    ensures 0 <= which < |old(parent.items)| ==> old(parent.items)[which].next == null
  {
    NodesInPool(parent, null, pool);
    hide Item.Loose, Item.Chain, Item.Closed, InsertAt, RemoveAt, Nodes, Owner;
    var r := DetachItemFromArray(parent, which);
  }

  method Perform(parent: Item, edit: Edit, ghost pool: set<Item>)
    requires parent.Valid() && parent !in pool && Unlinked(pool, parent.items)
    requires forall o :: o in parent.items ==> o in pool
    requires edit.DetachAt? || (edit.item in pool && edit.item !in parent.items)
    modifies parent`child, parent`items, pool`next, pool`prev
    ensures parent.Valid() && parent.items == Apply(old(parent.items), edit) && Unlinked(pool, parent.items)
    ensures forall o :: o in parent.items ==> o in pool
  {
    ghost var s := parent.items;
    hide *;
    match edit {
      case DetachAt(which) => PerformDetach(parent, which, pool);
      case ReplaceAt(which, x) => PerformReplace(parent, which, x, pool);
      case _ => PerformEntry(parent, edit, pool);
    }
    StillUnlinked(s, edit, pool);
  }

  /** Whatever edits are made one after another, the heap list implements the sequence of children. */
  method PerformAll(parent: Item, edits: seq<Edit>, ghost pool: set<Item>)
    requires parent.Valid() && parent !in pool && Unlinked(pool, parent.items)
    requires forall o :: o in parent.items ==> o in pool
    requires forall e :: e in edits ==> e.DetachAt? || e.item in pool
    requires Fits(parent.items, edits)
    modifies parent`child, parent`items, pool`next, pool`prev
    ensures parent.Valid() && parent.items == ApplyAll(old(parent.items), edits)
  {
    ghost var before := parent.items;
    for i := 0 to |edits|
      invariant parent.Valid() && Unlinked(pool, parent.items)
      invariant forall o :: o in parent.items ==> o in pool
      invariant Fits(parent.items, edits[i..])
      invariant ApplyAll(parent.items, edits[i..]) == ApplyAll(before, edits)
    {
      Perform(parent, edits[i], pool);
    }
  }
}
