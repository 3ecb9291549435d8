/** Pointers into parsed documents: the tree that cJSON builds for a value, and pointers to its nodes. */
module JsonDocument {
  import opened CText
  import opened JsonTree
  import opened JsonAccepted
  import opened PointerTokens
  import opened JsonPointer
  import opened Words

  /** The number of nodes of a value. */
  function Size(v: Json): (n: nat)
    ensures n > 0
    decreases v, Width(v) + 1
  {
    1 + match v
        case Array(items) => SizeFrom(v, 0)
        case Object(members) => SizeFrom(v, 0)
        case _ => 0
  }

  /** Child i of an array or object. */
  function Child(v: Json, i: nat): (c: Json)
    requires i < Width(v)
    ensures c < v
  {
    if v.Array? then v.items[i] else v.members[i].value
  }

  function SizeFrom(v: Json, i: nat): nat
    requires i <= Width(v)
    decreases v, Width(v) - i
  {
    if i == Width(v) then 0 else Size(Child(v, i)) + SizeFrom(v, i + 1)
  }

  function KindOf(v: Json): Kind {
    match v
    case Array(_) => Kind.Array
    case Object(_) => Kind.Object
    case _ => Scalar
  }

  /** The nodes of a value, numbered in document order from id on. */
  function TreeOf(v: Json, name: Option<string>, id: nat): (t: TreeNode)
    ensures t.id == id && t.name == name && t.kind == KindOf(v) && |t.items| == Width(v)
    decreases v, Width(v) + 1
  {
    TreeNode(id, KindOf(v), name, TreesFrom(v, 0, id + 1))
  }

  function NameOf(v: Json, i: nat): Option<string>
    requires i < Width(v)
  {
    if v.Object? then Some(v.members[i].key) else None
  }

  function TreesFrom(v: Json, i: nat, id: nat): (ts: seq<TreeNode>)
    requires i <= Width(v)
    ensures |ts| == Width(v) - i
    decreases v, Width(v) - i
  {
    if i == Width(v) then []
    else [TreeOf(Child(v, i), NameOf(v, i), id)] + TreesFrom(v, i + 1, id + Size(Child(v, i)))
  }

  /** The number of the first node of child j, when those from child i on start at id. */
  function Start(v: Json, i: nat, j: nat, id: nat): (n: nat)
    requires i <= j <= Width(v)
    ensures n >= id
    decreases j - i
  {
    if i == j then id else Start(v, i + 1, j, id + Size(Child(v, i)))
  }

  lemma {:induction false} TreeAt(v: Json, i: nat, j: nat, id: nat)
    requires i <= j < Width(v)
    ensures TreesFrom(v, i, id)[j - i] == TreeOf(Child(v, j), NameOf(v, j), Start(v, i, j, id))
    ensures Start(v, i, j, id) + Size(Child(v, j)) <= id + SizeFrom(v, i)
    decreases j - i
  {
    hide TreeOf, Size;
    if i < j {
      TreeAt(v, i + 1, j, id + Size(Child(v, i)));
    }
  }

  /** Earlier children have lower numbers. */
  lemma {:induction false} StartGrows(v: Json, i: nat, j: nat, k: nat, id: nat)
    requires i <= j < k < Width(v)
    ensures Start(v, i, j, id) + Size(Child(v, j)) <= Start(v, i, k, id)
    decreases j - i
  {
    hide Size;
    if i < j {
      StartGrows(v, i + 1, j, k, id + Size(Child(v, i)));
    }
  }

  // ----- the numbers are addresses -----

  /** All nodes of a value have their numbers in its range. */
  lemma {:induction false} IdsWithin(v: Json, name: Option<string>, id: nat, a: TreeNode)
    requires In(a, TreeOf(v, name, id))
    ensures id <= a.id < id + Size(v)
    decreases v
  {
    var t := TreeOf(v, name, id);
    if a != t {
      var i :| 0 <= i < |t.items| && In(a, t.items[i]);
      TreeAt(v, 0, i, id + 1);
      IdsWithin(Child(v, i), NameOf(v, i), Start(v, 0, i, id + 1), a);
    }
  }

  /** A node below the root belongs to a child, and has a number in that child's range. */
  lemma ChildHolds(v: Json, name: Option<string>, id: nat, a: TreeNode) returns (i: nat)
    requires In(a, TreeOf(v, name, id)) && a != TreeOf(v, name, id)
    ensures i < Width(v) && In(a, TreeOf(Child(v, i), NameOf(v, i), Start(v, 0, i, id + 1)))
    ensures id < Start(v, 0, i, id + 1) <= a.id < Start(v, 0, i, id + 1) + Size(Child(v, i))
  {
    var t := TreeOf(v, name, id);
    i :| 0 <= i < |t.items| && In(a, t.items[i]);
    TreeAt(v, 0, i, id + 1);
    IdsWithin(Child(v, i), NameOf(v, i), Start(v, 0, i, id + 1), a);
  }

  lemma {:induction false} SameNumberSameNode(v: Json, name: Option<string>, id: nat, a: TreeNode, b: TreeNode)
    requires In(a, TreeOf(v, name, id)) && In(b, TreeOf(v, name, id)) && a.id == b.id
    ensures a == b
    decreases v
  {
    hide TreeOf, Size, Start, NameOf, In;
    var t := TreeOf(v, name, id);
    var i, j := 0, 0;
    if a != t {
      i := ChildHolds(v, name, id, a);
    }
    if b != t {
      j := ChildHolds(v, name, id, b);
    }
    if a != t && b != t {
      if i < j {
        StartGrows(v, 0, i, j, id + 1);
      } else if j < i {
        StartGrows(v, 0, j, i, id + 1);
      }
      SameNumberSameNode(Child(v, i), NameOf(v, i), Start(v, 0, i, id + 1), a, b);
    }
  }

  // ----- the tree is what pointers expect -----

  /** No two keys of an object are alike, and arrays have a 32-bit length. */
  ghost predicate KeysDiffer(v: Json, caseSensitive: bool) {
    match v
    case Array(items) => |items| <= U32_MODULUS && forall i :: 0 <= i < |items| ==> KeysDiffer(items[i], caseSensitive)
    case Object(members) =>
      && (forall i, j :: 0 <= j < i < |members| ==> !Alike(members[i].key, members[j].key, caseSensitive))
      && (forall i :: 0 <= i < |members| ==> KeysDiffer(members[i].value, caseSensitive))
    case _ => true
  }

  lemma {:induction false} TreeIsNamed(v: Json, name: Option<string>, id: nat)
    requires Clean(v) && (name.Some? ==> Text(name.value))
    ensures Named(TreeOf(v, name, id)) && NamesAreText(TreeOf(v, name, id))
    decreases v
  {
    var t := TreeOf(v, name, id);
    forall i | 0 <= i < |t.items|
      ensures (t.kind.Object? ==> t.items[i].name.Some?) && Named(t.items[i]) && NamesAreText(t.items[i])
    {
      TreeAt(v, 0, i, id + 1);
      TreeIsNamed(Child(v, i), NameOf(v, i), Start(v, 0, i, id + 1));
    }
  }

  lemma {:induction false} TreeIsWellFormed(v: Json, name: Option<string>, id: nat, caseSensitive: bool)
    requires KeysDiffer(v, caseSensitive)
    ensures WellFormed(TreeOf(v, name, id), caseSensitive)
    decreases v
  {
    var t := TreeOf(v, name, id);
    forall i | 0 <= i < |t.items|
      ensures WellFormed(t.items[i], caseSensitive) && t.items[i].name == NameOf(v, i)
    {
      TreeAt(v, 0, i, id + 1);
      TreeIsWellFormed(Child(v, i), NameOf(v, i), Start(v, 0, i, id + 1), caseSensitive);
    }
  }

  lemma {:induction false} PointerIsText(item: TreeNode, target: int)
    requires Named(item) && NamesAreText(item) && PointerTo(item, target).Some?
    ensures Text(PointerTo(item, target).value)
    decreases item, |item.items| + 2
  {
    if item.id != target {
      SearchIsText(item, 0, target);
    }
  }

  lemma {:induction false} SearchIsText(item: TreeNode, i: nat, target: int)
    requires Named(item) && NamesAreText(item) && i <= |item.items| && Search(item, i, target).Some?
    ensures Text(Search(item, i, target).value)
    decreases item, 1 + |item.items| - i
  {
    var child := item.items[i];
    if PointerTo(child, target).Some? {
      PointerIsText(child, target);
      DecimalRoundTrip(i);
      if item.kind.Object? {
        EscapeSlashFree(child.name.value);
      }
    } else {
      SearchIsText(item, i + 1, target);
    }
  }

  /**
   In the document parsed from any accepted text, every node has a pointer, and evaluating
   that leads to the node, as long as no object has two alike keys.
   */
  method PointerIntoDocument(content: string, requireNul: bool, reader: Reader, node: TreeNode, caseSensitive: bool)
    returns (r: Option<TreeNode>)
    requires ParseDocument(content, requireNul, reader).Good?
    requires KeysDiffer(ParseDocument(content, requireNul, reader).value, caseSensitive)
    requires In(node, TreeOf(ParseDocument(content, requireNul, reader).value, None, 0))
    ensures r == Some(node)
  {
    var v := ParseDocument(content, requireNul, reader).value;
    ParsedIsProper(SkipSpace(SkipBom(content)), 0, reader);
    var root := TreeOf(v, None, 0);
    TreeIsNamed(v, None, 0);
    TreeIsWellFormed(v, None, 0, caseSensitive);
    forall a, b | In(a, root) && In(b, root) && a.id == b.id
      ensures a == b
    {
      SameNumberSameNode(v, None, 0, a, b);
    }
    hide *;
    EveryNodeIsReached(root, node, caseSensitive);
    var pointer := FindPointerFromObjectTo(root, node.id);
    PointerIsText(root, node.id);
    r := GetItemFromPointer(root, pointer.value, caseSensitive);
  }
}
