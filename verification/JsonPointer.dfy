/** JSON Pointers for the nodes of a tree: building the pointer of a node, and following a pointer to a node. */
module JsonPointer {
  import opened CText
  import opened PointerTokens
  import opened Words

  datatype Kind = Array | Object | Scalar

  /** A cJSON node: id stands for its address, name for the string member. */
  datatype TreeNode = TreeNode(id: int, kind: Kind, name: Option<string>, items: seq<TreeNode>)

  // ----- following a pointer -----

  /** The first of the children, from i on, whose name the token stands for. */
  function FirstMatch(items: seq<TreeNode>, i: nat, token: string, caseSensitive: bool): (r: Option<TreeNode>)
    requires i <= |items|
    decreases |items| - i
  {
    if i == |items| then None
    else if items[i].name.Some? && Matches(token, items[i].name.value, caseSensitive) then Some(items[i])
    else FirstMatch(items, i + 1, token, caseSensitive)
  }

  ghost function ChildAt(items: seq<TreeNode>, i: nat): (r: Option<TreeNode>) {
    if i < |items| then Some(items[i]) else None
  }

  /** The node one token leads to. */
  ghost function Step(item: TreeNode, token: string, caseSensitive: bool): (r: Option<TreeNode>) {
    match item.kind
    case Array => if IndexOf(token).Some? then ChildAt(item.items, IndexOf(token).value) else None
    case Object => FirstMatch(item.items, 0, token, caseSensitive)
    case Scalar => None
  }

  /** The node a pointer leads to: one step per token. */
  ghost function Follow(item: TreeNode, pointer: string, caseSensitive: bool): (r: Option<TreeNode>)
    decreases |pointer|
  {
    if pointer == "" || pointer[0] != '/' then Some(item)
    else
      var token := Token(pointer[1..]);
      var next := Step(item, token, caseSensitive);
      if next.None? then None else Follow(next.value, pointer[1 + |token|..], caseSensitive)
  }

  ghost predicate NamesAreText(item: TreeNode) {
    (item.name.Some? ==> Text(item.name.value)) &&
    forall i :: 0 <= i < |item.items| ==> NamesAreText(item.items[i])
  }

  method GetArrayItem(item: TreeNode, index: nat) returns (r: Option<TreeNode>)
    ensures r == ChildAt(item.items, index)
  {
    var child: nat, left: nat := 0, index;
    while child < |item.items| && left > 0
      invariant child + left == index
    {
      child, left := child + 1, left - 1;
    }
    r := if child < |item.items| then Some(item.items[child]) else None;
  }

  method GetMember(item: TreeNode, pointer: string, p: nat, caseSensitive: bool) returns (r: Option<TreeNode>)
    requires p <= |pointer| && Text(pointer) && NamesAreText(item)
    ensures r == FirstMatch(item.items, 0, Token(pointer[p..]), caseSensitive)
    ensures r.Some? ==> NamesAreText(r.value)
  {
    var i := 0;
    while i < |item.items|
      invariant i <= |item.items|
      invariant FirstMatch(item.items, i, Token(pointer[p..]), caseSensitive) ==
                FirstMatch(item.items, 0, Token(pointer[p..]), caseSensitive)
    {
      assert NamesAreText(item.items[i]);
      var same := ComparePointers(item.items[i].name, pointer, p, caseSensitive);
      if same {
        return Some(item.items[i]);
      }
      i := i + 1;
    }
    r := None;
  }

  method SkipToken(pointer: string, p: nat) returns (q: nat)
    requires p <= |pointer| && Text(pointer)
    ensures q == p + |Token(pointer[p..])|
  {
    q := p;
    while CharAt(pointer, q) != '\0' && CharAt(pointer, q) != '/'
      invariant p <= q <= |pointer|
      invariant p + |Token(pointer[p..])| == q + |Token(pointer[q..])|
      decreases |pointer| - q
    {
      q := q + 1;
    }
  }

  /** Where the token at position p leads from a node; None when it leads nowhere. */
  method FollowToken(here: TreeNode, pointer: string, p: nat, caseSensitive: bool) returns (r: Option<TreeNode>)
    requires p <= |pointer| && Text(pointer) && NamesAreText(here)
    ensures r == Step(here, Token(pointer[p..]), caseSensitive)
    ensures r.Some? ==> NamesAreText(r.value)
  {
    hide Token, IndexOf, FirstMatch;
    match here.kind {
      case Array =>
        var index := DecodeArrayIndex(pointer, p);
        if index.None? {
          return None;
        }
        r := GetArrayItem(here, index.value);
      case Object =>
        r := GetMember(here, pointer, p, caseSensitive);
      case Scalar =>
        r := None;
    }
  }

  lemma FollowUnfold(item: TreeNode, pointer: string, p: nat, caseSensitive: bool)
    requires p < |pointer| && pointer[p] == '/'
    ensures var token := Token(pointer[p + 1..]);
            var next := Step(item, token, caseSensitive);
            p + 1 + |token| <= |pointer| &&
            Follow(item, pointer[p..], caseSensitive) ==
            if next.None? then None else Follow(next.value, pointer[p + 1 + |token|..], caseSensitive)
  {
    hide Step, Token;
    var s := pointer[p..];
    assert s[1..] == pointer[p + 1..];
    var token := Token(pointer[p + 1..]);
    assert s[1 + |token|..] == pointer[p + 1 + |token|..];
  }

  ghost function FollowFrom(item: Option<TreeNode>, pointer: string, p: nat, caseSensitive: bool): (r: Option<TreeNode>)
    requires p <= |pointer|
  {
    if item.None? then None else Follow(item.value, pointer[p..], caseSensitive)
  }

  method GetItemFromPointer(root: TreeNode, pointer: string, caseSensitive: bool) returns (r: Option<TreeNode>)
    requires Text(pointer) && NamesAreText(root)
    ensures r == Follow(root, pointer, caseSensitive)
    ensures pointer == "" || pointer[0] != '/' ==> r == Some(root)
  {
    NoSlashIsRoot(root, pointer, caseSensitive);
    hide Step, Token, Follow, NamesAreText;
    var current := Some(root);
    var p := 0;
    assert pointer[0..] == pointer;
    while p < |pointer| && pointer[p] == '/' && current.Some?
      invariant p <= |pointer|
      invariant current.Some? ==> NamesAreText(current.value)
      invariant FollowFrom(current, pointer, p, caseSensitive) == Follow(root, pointer, caseSensitive)
      decreases |pointer| - p
    {
      FollowUnfold(current.value, pointer, p, caseSensitive);
      current := FollowToken(current.value, pointer, p + 1, caseSensitive);
      p := SkipToken(pointer, p + 1);
    }
    r := current;
    if current.Some? {
      FollowEnd(current.value, pointer, p, caseSensitive);
    }
  }

  /** Whatever does not start with a slash leads to the whole document, like the empty pointer. */
  lemma NoSlashIsRoot(item: TreeNode, pointer: string, caseSensitive: bool)
    ensures pointer == "" || pointer[0] != '/' ==> Follow(item, pointer, caseSensitive) == Some(item)
  {
  }

  lemma FollowEnd(item: TreeNode, pointer: string, p: nat, caseSensitive: bool)
    requires p <= |pointer| && (p == |pointer| || pointer[p] != '/')
    ensures Follow(item, pointer[p..], caseSensitive) == Some(item)
  {
  }

  // ----- where tokens lead -----

  /** In an array a token is the index of a child, modulo 2^32; in an object it denotes the first child it can. */
  ghost predicate Leads(item: TreeNode, token: string, i: nat, caseSensitive: bool) {
    i < |item.items| &&
    match item.kind
    case Array => IndexOf(token) == Some(i)
    case Object => Called(item.items[i], token, caseSensitive)
      && forall k :: 0 <= k < i ==> !Called(item.items[k], token, caseSensitive)
    case Scalar => false
  }

  ghost predicate Called(node: TreeNode, token: string, caseSensitive: bool) {
    node.name.Some? && Denotes(token, node.name.value, caseSensitive)
  }

  /** A pointer leads to a node if and only if its first token leads to a child and the rest on from there. */
  lemma FollowIff(item: TreeNode, token: string, rest: string, node: TreeNode, caseSensitive: bool)
    requires '/' !in token && (rest == "" || rest[0] == '/')
    ensures Follow(item, "", caseSensitive) == Some(item)
    ensures Follow(item, "/" + token + rest, caseSensitive) == Some(node) <==>
            exists i: nat ::
              Leads(item, token, i, caseSensitive) && Follow(item.items[i], rest, caseSensitive) == Some(node)
  {
    FollowOne(item, token, rest, caseSensitive);
    NoSlashIsRoot(item, "", caseSensitive);
    hide Step, Leads, Follow;
    if Step(item, token, caseSensitive).Some? {
      var i := StepLeads(item, token, caseSensitive);
    } else {
      StepFails(item, token, caseSensitive);
    }
  }

  lemma StepLeads(item: TreeNode, token: string, caseSensitive: bool) returns (i: nat)
    requires '/' !in token && Step(item, token, caseSensitive).Some?
    ensures i < |item.items| && Leads(item, token, i, caseSensitive)
    ensures Step(item, token, caseSensitive) == Some(item.items[i])
    ensures forall j: nat :: Leads(item, token, j, caseSensitive) ==> j == i
  {
    hide FirstMatch, Called, IndexOf;
    if item.kind.Array? {
      i := IndexOf(token).value;
    } else {
      i := FirstCalled(item.items, 0, token, caseSensitive);
    }
  }

  lemma StepFails(item: TreeNode, token: string, caseSensitive: bool)
    requires '/' !in token && Step(item, token, caseSensitive).None?
    ensures forall i: nat :: !Leads(item, token, i, caseSensitive)
  {
    hide FirstMatch, Called, IndexOf;
    NoneCalled(item.items, 0, token, caseSensitive);
  }

  lemma {:induction false} FirstCalled(items: seq<TreeNode>, from: nat, token: string, caseSensitive: bool)
    returns (i: nat)
    requires from <= |items| && '/' !in token && FirstMatch(items, from, token, caseSensitive).Some?
    ensures from <= i < |items| && FirstMatch(items, from, token, caseSensitive) == Some(items[i])
    ensures Called(items[i], token, caseSensitive)
    ensures forall k :: from <= k < i ==> !Called(items[k], token, caseSensitive)
    decreases |items| - from
  {
    hide Matches, Denotes;
    i := from;
    if items[from].name.Some? {
      MatchesIff(token, items[from].name.value, caseSensitive);
    }
    if !Called(items[from], token, caseSensitive) {
      i := FirstCalled(items, from + 1, token, caseSensitive);
    }
  }

  lemma {:induction false} NoneCalled(items: seq<TreeNode>, from: nat, token: string, caseSensitive: bool)
    requires from <= |items| && '/' !in token
    ensures FirstMatch(items, from, token, caseSensitive).None? ==>
      forall k :: from <= k < |items| ==> !Called(items[k], token, caseSensitive)
    decreases |items| - from
  {
    hide Matches, Denotes;
    if from < |items| {
      if items[from].name.Some? {
        MatchesIff(token, items[from].name.value, caseSensitive);
      }
      NoneCalled(items, from + 1, token, caseSensitive);
    }
  }

  // ----- building the pointer of a node -----

  /** Every member of an object has a name. */
  ghost predicate Named(item: TreeNode) {
    forall i :: 0 <= i < |item.items| ==> (item.kind.Object? ==> item.items[i].name.Some?) && Named(item.items[i])
  }

  /** The pointer from item to the first node with the address target, in document order. */
  function PointerTo(item: TreeNode, target: int): (r: Option<string>)
    requires Named(item)
    decreases item, |item.items| + 2
  {
    if item.id == target then Some("") else Search(item, 0, target)
  }

  function Search(item: TreeNode, i: nat, target: int): (r: Option<string>)
    requires Named(item) && i <= |item.items|
    decreases item, 1 + |item.items| - i
  {
    if i == |item.items| then None
    else
      var rest := PointerTo(item.items[i], target);
      if rest.None? then Search(item, i + 1, target)
      else match item.kind
        case Array => Some("/" + Decimal(i) + rest.value)
        case Object => Some("/" + Escape(item.items[i].name.value) + rest.value)
        case Scalar => None
  }

  /** Slash, escaped name and the rest, in a buffer that has just the room for it. */
  method JoinMember(name: string, rest: string) returns (full: string)
    ensures full == "/" + Escape(name) + rest
  {
    var length := PointerEncodedLength(name);
    var buffer := new char[|rest| + length + 2];
    buffer[0] := '/';
    EncodeStringAsPointer(buffer, 1, name);
    ghost var done := buffer[..];
    assert done[..1] == "/" && done[1..1 + length] == Escape(name);
    var i := 0;
    while i < |rest|
      invariant i <= |rest| && buffer[..1 + length] == done[..1 + length]
      invariant buffer[1 + length..1 + length + i] == rest[..i]
    {
      buffer[1 + length + i] := rest[i];
      i := i + 1;
    }
    buffer[1 + length + |rest|] := '\0';
    full := buffer[..1 + length + |rest|];
    JoinThree(full, done, length, rest);
  }

  lemma JoinThree(full: string, done: string, length: nat, rest: string)
    requires 1 + length <= |done| && |full| == 1 + length + |rest|
    requires full[..1 + length] == done[..1 + length] && full[1 + length..] == rest
    ensures full == done[..1] + done[1..1 + length] + rest
  {
    assert full == full[..1 + length] + full[1 + length..];
    assert done[..1 + length] == done[..1] + done[1..1 + length];
  }

  method FindPointerFromObjectTo(item: TreeNode, target: int) returns (r: Option<string>)
    requires Named(item)
    ensures r == PointerTo(item, target)
    decreases item
  {
    if item.id == target {
      return Some("");
    }
    var i := 0;
    while i < |item.items|
      invariant i <= |item.items| && Search(item, i, target) == Search(item, 0, target)
    {
      var child := item.items[i];
      var rest := FindPointerFromObjectTo(child, target);
      if rest.Some? {
        match item.kind {
          case Array =>
            return Some("/" + Decimal(i) + rest.value);
          case Object =>
            var full := JoinMember(child.name.value, rest.value);
            return Some(full);
          case Scalar =>
            return None;
        }
      }
      i := i + 1;
    }
    r := None;
  }

  // ----- building and following are inverse -----

  /** The first node with the address target, in document order. */
  ghost function Locate(item: TreeNode, target: int): (r: Option<TreeNode>)
    decreases item, |item.items| + 2
  {
    if item.id == target then Some(item) else LocateFrom(item, 0, target)
  }

  ghost function LocateFrom(item: TreeNode, i: nat, target: int): (r: Option<TreeNode>)
    requires i <= |item.items|
    decreases item, 1 + |item.items| - i
  {
    if i == |item.items| then None
    else
      var found := Locate(item.items[i], target);
      if found.Some? then found else LocateFrom(item, i + 1, target)
  }

  /** Names of object members are pairwise different, for the comparison in use. */
  ghost predicate NamesDiffer(items: seq<TreeNode>, caseSensitive: bool) {
    forall i, j :: 0 <= j < i < |items| && items[i].name.Some? && items[j].name.Some? ==>
      !Alike(items[i].name.value, items[j].name.value, caseSensitive)
  }

  /** What a JSON tree in memory looks like: keys differ, arrays have a 32-bit length, scalars have no children. */
  ghost predicate WellFormed(item: TreeNode, caseSensitive: bool) {
    (item.kind.Array? ==> |item.items| <= U32_MODULUS) &&
    (item.kind.Object? ==> NamesDiffer(item.items, caseSensitive)) &&
    (item.kind.Scalar? ==> item.items == []) &&
    forall i :: 0 <= i < |item.items| ==> WellFormed(item.items[i], caseSensitive)
  }

  /** The token of child i leads to the first child whose name is alike. */
  lemma {:induction false} FirstMatchOfEscape(items: seq<TreeNode>, from: nat, i: nat, caseSensitive: bool)
    requires from <= i < |items| && items[i].name.Some?
    requires forall j :: from <= j < i && items[j].name.Some? ==>
               !Alike(items[i].name.value, items[j].name.value, caseSensitive)
    ensures FirstMatch(items, from, Escape(items[i].name.value), caseSensitive) == Some(items[i])
    decreases i - from
  {
    EscapeRoundTrip(items[i].name.value);
    if from < i {
      FirstMatchOfEscape(items, from + 1, i, caseSensitive);
    }
  }

  lemma {:induction false} FirstMatchIsEarlier(items: seq<TreeNode>, from: nat, j: nat, i: nat, caseSensitive: bool)
    requires from <= j < i < |items| && items[i].name.Some? && items[j].name.Some?
    requires Alike(items[i].name.value, items[j].name.value, caseSensitive)
    ensures exists k :: from <= k <= j &&
              FirstMatch(items, from, Escape(items[i].name.value), caseSensitive) == Some(items[k])
    decreases j - from
  {
    EscapeRoundTrip(items[i].name.value);
    if from < j &&
       !(items[from].name.Some? && Matches(Escape(items[i].name.value), items[from].name.value, caseSensitive)) {
      FirstMatchIsEarlier(items, from + 1, j, i, caseSensitive);
    }
  }

  /** A member's pointer leads to it if and only if no earlier sibling has an alike name. */
  lemma MemberReachedIff(item: TreeNode, i: nat, caseSensitive: bool)
    requires item.kind.Object? && i < |item.items| && item.items[i].name.Some?
    requires forall j :: 0 <= j < i ==> item.items[j] != item.items[i]
    ensures Follow(item, "/" + Escape(item.items[i].name.value), caseSensitive) == Some(item.items[i]) <==>
            forall j :: 0 <= j < i && item.items[j].name.Some? ==>
              !Alike(item.items[i].name.value, item.items[j].name.value, caseSensitive)
  {
    var items, e := item.items, Escape(item.items[i].name.value);
    EscapeSlashFree(items[i].name.value);
    FollowOne(item, e, "", caseSensitive);
    assert e + "" == e && "/" + e + "" == "/" + e;
    if j :| 0 <= j < i && items[j].name.Some? && Alike(items[i].name.value, items[j].name.value, caseSensitive) {
      FirstMatchIsEarlier(items, 0, j, i, caseSensitive);
    } else {
      FirstMatchOfEscape(items, 0, i, caseSensitive);
    }
  }

  /** Following a token and what comes after it. */
  lemma FollowOne(item: TreeNode, token: string, rest: string, caseSensitive: bool)
    requires '/' !in token && (rest == "" || rest[0] == '/')
    ensures Follow(item, "/" + token + rest, caseSensitive) ==
            var next := Step(item, token, caseSensitive);
            if next.None? then None else Follow(next.value, rest, caseSensitive)
  {
    hide Step;
    var s := "/" + token + rest;
    TokenOfConcat(token, rest);
    assert s[1..] == token + rest;
    assert s[1 + |token|..] == rest;
  }

  lemma PointerStartsWithSlash(item: TreeNode, target: int, i: nat)
    requires Named(item) && i <= |item.items|
    ensures Search(item, i, target).Some? ==> Search(item, i, target).value != "" && Search(item, i, target).value[0] == '/'
    ensures var p := PointerTo(item, target); p.Some? ==> p.value == "" || p.value[0] == '/'
  {
    SearchStartsWithSlash(item, target, 0);
    SearchStartsWithSlash(item, target, i);
  }

  lemma {:induction false} SearchStartsWithSlash(item: TreeNode, target: int, i: nat)
    requires Named(item) && i <= |item.items|
    ensures Search(item, i, target).Some? ==> Search(item, i, target).value != "" && Search(item, i, target).value[0] == '/'
    decreases |item.items| - i
  {
    if i < |item.items| {
      SearchStartsWithSlash(item, target, i + 1);
    }
  }

  /** The pointer that is built for a node leads to that node, and exists exactly when the node does. */
  lemma {:induction false} FindThenFollow(item: TreeNode, target: int, caseSensitive: bool)
    requires Named(item) && WellFormed(item, caseSensitive)
    ensures PointerTo(item, target).Some? <==> Locate(item, target).Some?
    ensures PointerTo(item, target).Some? ==>
              Follow(item, PointerTo(item, target).value, caseSensitive) == Locate(item, target)
    decreases item, 1
  {
    if item.id != target {
      SearchThenFollow(item, 0, target, caseSensitive);
    }
  }

  lemma {:induction false} SearchThenFollow(item: TreeNode, i: nat, target: int, caseSensitive: bool)
    requires Named(item) && WellFormed(item, caseSensitive) && i <= |item.items|
    ensures Search(item, i, target).Some? <==> LocateFrom(item, i, target).Some?
    ensures Search(item, i, target).Some? ==>
              Follow(item, Search(item, i, target).value, caseSensitive) == LocateFrom(item, i, target)
    decreases item, 0, |item.items| - i
  {
    if i < |item.items| {
      var child := item.items[i];
      FindThenFollow(child, target, caseSensitive);
      SearchThenFollow(item, i + 1, target, caseSensitive);
      PointerStartsWithSlash(child, target, 0);
      var rest := PointerTo(child, target);
      if rest.Some? {
        match item.kind {
          case Array =>
            IndexRoundTrip(i);
            FollowOne(item, Decimal(i), rest.value, caseSensitive);
          case Object =>
            EscapeSlashFree(child.name.value);
            FirstMatchOfEscape(item.items, 0, i, caseSensitive);
            FollowOne(item, Escape(child.name.value), rest.value, caseSensitive);
        }
      }
    }
  }

  ghost predicate In(node: TreeNode, item: TreeNode) {
    node == item || exists i :: 0 <= i < |item.items| && In(node, item.items[i])
  }

  /** Different nodes have different addresses. */
  ghost predicate UniqueIds(item: TreeNode) {
    forall a, b :: In(a, item) && In(b, item) && a.id == b.id ==> a == b
  }

  lemma {:induction false} LocateFinds(item: TreeNode, node: TreeNode)
    requires In(node, item)
    ensures var r := Locate(item, node.id); r.Some? && r.value.id == node.id && In(r.value, item)
    decreases item, 0
  {
    if item.id != node.id {
      var k :| 0 <= k < |item.items| && In(node, item.items[k]);
      LocateFromFinds(item, 0, k, node);
    }
  }

  lemma {:induction false} LocateFromFinds(item: TreeNode, i: nat, k: nat, node: TreeNode)
    requires i <= k < |item.items| && In(node, item.items[k])
    ensures var r := LocateFrom(item, i, node.id); r.Some? && r.value.id == node.id && In(r.value, item)
    decreases item, 0, |item.items| - i
  {
    LocatedIsIn(item.items[i], node.id);
    if i < k {
      LocateFromFinds(item, i + 1, k, node);
    } else {
      LocateFinds(item.items[i], node);
    }
  }

  lemma {:induction false} LocatedIsIn(item: TreeNode, target: int)
    ensures var r := Locate(item, target); r.Some? ==> r.value.id == target && In(r.value, item)
    decreases item, 1
  {
    LocatedFromIsIn(item, 0, target);
  }

  lemma {:induction false} LocatedFromIsIn(item: TreeNode, i: nat, target: int)
    requires i <= |item.items|
    ensures var r := LocateFrom(item, i, target); r.Some? ==> r.value.id == target && In(r.value, item)
    decreases item, 0, |item.items| - i
  {
    if i < |item.items| {
      LocatedIsIn(item.items[i], target);
      LocatedFromIsIn(item, i + 1, target);
    }
  }

  /** Every node of a tree with distinct keys is what its own pointer evaluates to. */
  lemma EveryNodeIsReached(root: TreeNode, node: TreeNode, caseSensitive: bool)
    requires Named(root) && WellFormed(root, caseSensitive) && UniqueIds(root) && In(node, root)
    ensures PointerTo(root, node.id).Some?
    ensures Follow(root, PointerTo(root, node.id).value, caseSensitive) == Some(node)
  {
    LocateFinds(root, node);
    FindThenFollow(root, node.id, caseSensitive);
  }
}
