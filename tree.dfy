/** The tree visualiser: nodes named by a running counter are added under a
    parent chosen by id, and the tree is walked in inorder, preorder or
    postorder, where only the first two children of a node take part. */
module TreeVisualizer {
  import opened Common
  import opened Text

  /** A tree node; a missing `children` array is the empty sequence. */
  datatype TreeNode = TreeNode(id: string, name: string, children: seq<TreeNode>)

  /** The traversal the visualiser animates. */
  datatype Order = Inorder | Preorder | Postorder

  // ---------------------------------------------------------------------
  // Node ids from the counter

  function Digit(d: nat): char
    requires d < 10
  {
    "0123456789"[d]
  }

  /** The counter written in decimal, as the template `${counter}` does. */
  function DecimalString(n: nat): (s: string)
    ensures |s| >= 1
  {
    if n < 10 then [Digit(n)] else DecimalString(n / 10) + [Digit(n % 10)]
  }

  /** The value of a string of decimal digits. */
  function DecimalValue(s: string): nat
  {
    if s == [] then 0
    else
      var c := s[|s| - 1];
      DecimalValue(s[..|s| - 1]) * 10 + (if '0' <= c <= '9' then (c as int - '0' as int) else 0)
  }

  /** Reading a counter id back gives the counter. */
  lemma {:induction false} DecimalRoundTrip(n: nat)
    ensures DecimalValue(DecimalString(n)) == n
  {
    if n >= 10 {
      DecimalRoundTrip(n / 10);
      var s := DecimalString(n);
      assert s[..|s| - 1] == DecimalString(n / 10);
    }
  }

  /** Different counters give different ids. */
  lemma DecimalInjective(a: nat, b: nat)
    requires DecimalString(a) == DecimalString(b)
    ensures a == b
  {
    DecimalRoundTrip(a);
    DecimalRoundTrip(b);
  }

  /** A fresh node: id and name are the counter, no children. */
  function Leaf(counter: nat): TreeNode
  {
    TreeNode(DecimalString(counter), DecimalString(counter), [])
  }

  // ---------------------------------------------------------------------
  // All nodes

  /** Every id in the tree, parents first, children in order. */
  function Ids(t: TreeNode): (r: seq<string>)
    ensures |r| >= 1 && r[0] == t.id
    decreases t, 1
  {
    [t.id] + IdsOf(t.children)
  }

  function IdsOf(ts: seq<TreeNode>): seq<string>
    decreases ts, 0
  {
    if ts == [] then [] else Ids(ts[0]) + IdsOf(ts[1..])
  }

  // ---------------------------------------------------------------------
  // Insertion

  /** `insert`: the first node in preorder whose id equals `parentId` gets
      `n` appended to its children; `None` when no node matches (the clone
      is then dropped). */
  function Insert(t: TreeNode, parentId: Option<string>, n: TreeNode): (r: Option<TreeNode>)
    ensures r.Some? ==> parentId.Some? && r.value.id == t.id && r.value.name == t.name
    decreases t, 1
  {
    if parentId == Some(t.id) then Some(TreeNode(t.id, t.name, t.children + [n]))
    else
      match InsertAmong(t.children, parentId, n)
      case Some(cs) => Some(TreeNode(t.id, t.name, cs))
      case None => None
  }

  /** `some` over the children: the first child that takes the node, later
      children untouched. */
  function InsertAmong(ts: seq<TreeNode>, parentId: Option<string>, n: TreeNode): (r: Option<seq<TreeNode>>)
    ensures r.Some? ==> parentId.Some?
    decreases ts, 0
  {
    if ts == [] then None
    else
      match Insert(ts[0], parentId, n)
      case Some(c) => Some([c] + ts[1..])
      case None =>
        match InsertAmong(ts[1..], parentId, n)
        case Some(cs) => Some([ts[0]] + cs)
        case None => None
  }

  /** Insertion succeeds exactly when some node carries the parent id. */
  lemma {:induction false} InsertFindsParent(t: TreeNode, parentId: Option<string>, n: TreeNode)
    ensures Insert(t, parentId, n).Some? <==> parentId.Some? && parentId.value in Ids(t)
    decreases t, 1
  {
    if parentId != Some(t.id) {
      InsertAmongFindsParent(t.children, parentId, n);
    }
  }

  lemma {:induction false} InsertAmongFindsParent(ts: seq<TreeNode>, parentId: Option<string>, n: TreeNode)
    ensures InsertAmong(ts, parentId, n).Some? <==> parentId.Some? && parentId.value in IdsOf(ts)
    decreases ts, 0
  {
    if ts != [] {
      InsertFindsParent(ts[0], parentId, n);
      InsertAmongFindsParent(ts[1..], parentId, n);
    }
  }

  /** A successful insertion adds the ids of `n` and nothing else. */
  lemma {:induction false} InsertAddsOne(t: TreeNode, parentId: Option<string>, n: TreeNode)
    requires Insert(t, parentId, n).Some?
    ensures multiset(Ids(Insert(t, parentId, n).value)) == multiset(Ids(t)) + multiset(Ids(n))
    decreases t, 2
  {
    if parentId == Some(t.id) {
      AppendChildAddsOne(t, n);
    } else {
      InsertAmongAddsOne(t.children, parentId, n);
    }
  }

  lemma AppendChildAddsOne(t: TreeNode, n: TreeNode)
    ensures multiset(Ids(TreeNode(t.id, t.name, t.children + [n]))) == multiset(Ids(t)) + multiset(Ids(n))
  {
    IdsOfAppend(t.children, [n]);
    assert IdsOf([n]) == Ids(n) by { assert [n][1..] == []; }
  }

  lemma {:induction false} InsertAmongAddsOne(ts: seq<TreeNode>, parentId: Option<string>, n: TreeNode)
    requires InsertAmong(ts, parentId, n).Some?
    ensures multiset(IdsOf(InsertAmong(ts, parentId, n).value)) == multiset(IdsOf(ts)) + multiset(Ids(n))
    decreases ts, 1
  {
    if Insert(ts[0], parentId, n).Some? {
      InsertIntoFirstAddsOne(ts, parentId, n);
    } else {
      InsertIntoRestAddsOne(ts, parentId, n);
    }
  }

  /** The case where the first tree takes the node. */
  lemma {:induction false} InsertIntoFirstAddsOne(ts: seq<TreeNode>, parentId: Option<string>, n: TreeNode)
    requires ts != [] && Insert(ts[0], parentId, n).Some?
    ensures InsertAmong(ts, parentId, n).Some?
    ensures multiset(IdsOf(InsertAmong(ts, parentId, n).value)) == multiset(IdsOf(ts)) + multiset(Ids(n))
    decreases ts, 0
  {
    var rest := ts[1..];
    var c := Insert(ts[0], parentId, n).value;
    InsertAddsOne(ts[0], parentId, n);
    assert IdsOf(ts) == Ids(ts[0]) + IdsOf(rest);
    IdsOfCons(c, rest);
    assert InsertAmong(ts, parentId, n).value == [c] + rest;
  }

  /** The case where a later tree takes the node. */
  lemma {:induction false} InsertIntoRestAddsOne(ts: seq<TreeNode>, parentId: Option<string>, n: TreeNode)
    requires ts != [] && Insert(ts[0], parentId, n).None? && InsertAmong(ts, parentId, n).Some?
    ensures multiset(IdsOf(InsertAmong(ts, parentId, n).value)) == multiset(IdsOf(ts)) + multiset(Ids(n))
    decreases ts, 0
  {
    var rest := ts[1..];
    InsertAmongAddsOne(rest, parentId, n);
    var cs := InsertAmong(rest, parentId, n).value;
    assert IdsOf(ts) == Ids(ts[0]) + IdsOf(rest);
    IdsOfCons(ts[0], cs);
    assert InsertAmong(ts, parentId, n).value == [ts[0]] + cs;
  }

  lemma IdsOfCons(c: TreeNode, rest: seq<TreeNode>)
    ensures multiset(IdsOf([c] + rest)) == multiset(Ids(c)) + multiset(IdsOf(rest))
  {
    var us := [c] + rest;
    assert us[0] == c && us[1..] == rest;
  }

  lemma {:induction false} IdsOfAppend(a: seq<TreeNode>, b: seq<TreeNode>)
    ensures IdsOf(a + b) == IdsOf(a) + IdsOf(b)
  {
    if a != [] {
      assert (a + b)[1..] == a[1..] + b;
      IdsOfAppend(a[1..], b);
    } else {
      assert a + b == b;
    }
  }

  /** The first node in preorder with id `x`. */
  function Find(t: TreeNode, x: string): Option<TreeNode>
    decreases t, 1
  {
    if t.id == x then Some(t) else FindAmong(t.children, x)
  }

  function FindAmong(ts: seq<TreeNode>, x: string): Option<TreeNode>
    decreases ts, 0
  {
    if ts == [] then None
    else if Find(ts[0], x).Some? then Find(ts[0], x)
    else FindAmong(ts[1..], x)
  }

  /** The node that receives `n` is the first one in preorder with the
      parent id: in the new tree that node is found first again, with `n`
      as its last child and everything else about it as before. */
  lemma {:induction false} InsertUnderFirstMatch(t: TreeNode, p: string, n: TreeNode)
    requires Insert(t, Some(p), n).Some?
    ensures Find(t, p).Some?
    ensures var q := Find(t, p).value;
      Find(Insert(t, Some(p), n).value, p) == Some(TreeNode(q.id, q.name, q.children + [n]))
    decreases t, 1
  {
    if p != t.id {
      InsertAmongFirstMatch(t.children, p, n);
    }
  }

  lemma {:induction false} InsertAmongFirstMatch(ts: seq<TreeNode>, p: string, n: TreeNode)
    requires InsertAmong(ts, Some(p), n).Some?
    ensures FindAmong(ts, p).Some?
    ensures var q := FindAmong(ts, p).value;
      FindAmong(InsertAmong(ts, Some(p), n).value, p) == Some(TreeNode(q.id, q.name, q.children + [n]))
    decreases ts, 0
  {
    var rest := ts[1..];
    match Insert(ts[0], Some(p), n)
    case Some(c) =>
      InsertUnderFirstMatch(ts[0], p, n);
      assert ([c] + rest)[0] == c;
    case None =>
      InsertFindsParent(ts[0], Some(p), n);
      FindIsPresent(ts[0], p);
      InsertAmongFirstMatch(rest, p, n);
      var cs := InsertAmong(rest, Some(p), n).value;
      assert ([ts[0]] + cs)[0] == ts[0] && ([ts[0]] + cs)[1..] == cs;
  }

  /** The first node in preorder with id `p` loses its last child; every
      other node, and the order of every list of children, stays as it is. */
  function RemoveLastUnder(t: TreeNode, p: string): TreeNode
    decreases t, 1
  {
    if t.id == p then
      TreeNode(t.id, t.name, if t.children == [] then [] else t.children[..|t.children| - 1])
    else TreeNode(t.id, t.name, RemoveLastAmong(t.children, p))
  }

  /** Only the first tree holding `p` is changed. */
  function RemoveLastAmong(ts: seq<TreeNode>, p: string): seq<TreeNode>
    decreases ts, 0
  {
    if ts == [] then []
    else if p in Ids(ts[0]) then [RemoveLastUnder(ts[0], p)] + ts[1..]
    else [ts[0]] + RemoveLastAmong(ts[1..], p)
  }

  /** A successful insertion is undone by removing the last child of the
      first node with the parent id: the insertion appends `n` there and
      leaves the rest of the tree, and the order of all children, alone. */
  lemma {:induction false} InsertUndone(t: TreeNode, p: string, n: TreeNode)
    requires Insert(t, Some(p), n).Some?
    ensures RemoveLastUnder(Insert(t, Some(p), n).value, p) == t
    decreases t, 1
  {
    if p == t.id {
      assert (t.children + [n])[..|t.children|] == t.children;
    } else {
      InsertAmongUndone(t.children, p, n);
    }
  }

  lemma {:induction false} InsertAmongUndone(ts: seq<TreeNode>, p: string, n: TreeNode)
    requires InsertAmong(ts, Some(p), n).Some?
    ensures RemoveLastAmong(InsertAmong(ts, Some(p), n).value, p) == ts
    decreases ts, 0
  {
    var rest := ts[1..];
    match Insert(ts[0], Some(p), n)
    case Some(c) =>
      InsertUnderFirstMatch(ts[0], p, n);
      FindIsPresent(c, p);
      InsertUndone(ts[0], p, n);
      var us := [c] + rest;
      assert us[0] == c && us[1..] == rest;
      assert ts == [ts[0]] + rest;
    case None =>
      InsertFindsParent(ts[0], Some(p), n);
      InsertAmongUndone(rest, p, n);
      var cs := InsertAmong(rest, Some(p), n).value;
      var us := [ts[0]] + cs;
      assert us[0] == ts[0] && us[1..] == cs;
      assert ts == [ts[0]] + rest;
  }

  /** A node with id `x` is found exactly when `x` is an id of the tree. */
  lemma {:induction false} FindIsPresent(t: TreeNode, x: string)
    ensures Find(t, x).Some? <==> x in Ids(t)
    decreases t, 1
  {
    if t.id != x {
      FindAmongIsPresent(t.children, x);
    }
  }

  lemma {:induction false} FindAmongIsPresent(ts: seq<TreeNode>, x: string)
    ensures FindAmong(ts, x).Some? <==> x in IdsOf(ts)
    decreases ts, 0
  {
    if ts != [] {
      FindIsPresent(ts[0], x);
      FindAmongIsPresent(ts[1..], x);
    }
  }

  // ---------------------------------------------------------------------
  // The visualiser's state

  /** The ids the counter has handed out before reaching `counter`. */
  function Issued(counter: nat): set<string>
  {
    set k | 1 <= k < counter :: DecimalString(k)
  }

  /** `root` and `counter` as the component keeps them. */
  class TreeEditor {
    var root: Option<TreeNode>
    var counter: nat

    /** The counter starts at 1 and there is a root once it has moved; every
        id in the tree was handed out by the counter, and no id is used
        twice. */
    ghost predicate Valid()
      reads this
    {
      && counter >= 1
      && (root.None? <==> counter == 1)
      && (root.Some? ==> NoDup(Ids(root.value)) && forall x :: x in Ids(root.value) ==> x in Issued(counter))
    }

    constructor()
      ensures Valid() && root == None && counter == 1
    {
      root := None;
      counter := 1;
    }

    /** `addNode`: the counter moves on every call; without a root the new
        node becomes the root whatever `parentId` is; otherwise it is added
        under the first node with that id, and nothing changes when no node
        has it. */
    method AddNode(parentId: Option<string>)
      requires Valid()
      modifies this
      ensures Valid()
      ensures counter == old(counter) + 1
      ensures old(root).None? ==> root == Some(Leaf(old(counter)))
      ensures old(root).Some? ==>
        root == (var r := Insert(old(root).value, parentId, Leaf(old(counter)));
                 if r.Some? then r else old(root))
    {
      var newNode := Leaf(counter);
      if root.None? {
        assert Ids(newNode) == [newNode.id];
        root := Some(newNode);
      } else {
        var cloned := Insert(root.value, parentId, newNode);
        if cloned.Some? {
          InsertKeepsIdsIssued(root.value, parentId, counter);
          root := cloned;
        }
      }
      counter := counter + 1;
    }
  }

  /** Inserting the counter's leaf into a tree whose ids were handed out
      once each keeps them so, with the counter moved on. */
  lemma InsertKeepsIdsIssued(t: TreeNode, parentId: Option<string>, counter: nat)
    requires counter >= 1
    requires NoDup(Ids(t)) && forall x :: x in Ids(t) ==> x in Issued(counter)
    requires Insert(t, parentId, Leaf(counter)).Some?
    ensures var u := Insert(t, parentId, Leaf(counter)).value;
      NoDup(Ids(u)) && forall x :: x in Ids(u) ==> x in Issued(counter + 1)
  {
    var n := Leaf(counter);
    var u := Insert(t, parentId, n).value;
    FreshId(counter);
    InsertAddsOne(t, parentId, n);
    assert Ids(n) == [n.id];
    assert n.id !in Ids(t);
    KeepsNoDup(Ids(t), Ids(u), n.id);
    forall x | x in Ids(u) ensures x in Issued(counter + 1) {
      if x == n.id {
        assert x == DecimalString(counter);
      } else {
        OtherWasThere(Ids(t), Ids(u), n.id, x);
        var k :| 1 <= k < counter && x == DecimalString(k);
      }
    }
  }

  /** The counter's next id is not among those handed out before. */
  lemma FreshId(counter: nat)
    ensures DecimalString(counter) !in Issued(counter)
  {
    if DecimalString(counter) in Issued(counter) {
      var k :| 1 <= k < counter && DecimalString(k) == DecimalString(counter);
      DecimalInjective(k, counter);
    }
  }

  /** Every element of `t` other than the added one was already in `s`. */
  lemma OtherWasThere(s: seq<string>, t: seq<string>, y: string, x: string)
    requires multiset(t) == multiset(s) + multiset{y}
    requires x in t && x != y
    ensures x in s
  {
    assert x in multiset(t);
  }

  /** Adding one element that was absent keeps a sequence free of
      repetitions. */
  lemma KeepsNoDup(s: seq<string>, t: seq<string>, x: string)
    requires NoDup(s) && x !in s && multiset(t) == multiset(s) + multiset{x}
    ensures NoDup(t)
  {
    NoDupCounts(s);
    forall y ensures multiset(t)[y] <= 1 {
      if y == x { assert multiset(s)[y] == 0; }
    }
    CountsNoDup(t);
  }

  lemma {:induction false} NoDupCounts(s: seq<string>)
    requires NoDup(s)
    ensures forall y :: multiset(s)[y] <= 1
  {
    if s != [] {
      var rest := s[1..];
      assert s == [s[0]] + rest;
      assert NoDup(rest) by {
        forall i, j | 0 <= i < j < |rest| ensures rest[i] != rest[j] {
          assert rest[i] == s[i + 1] && rest[j] == s[j + 1];
        }
      }
      NoDupCounts(rest);
      assert s[0] !in rest by {
        forall k | 0 <= k < |rest| ensures rest[k] != s[0] { assert rest[k] == s[k + 1]; }
      }
    }
  }

  lemma {:induction false} CountsNoDup(s: seq<string>)
    requires forall y :: multiset(s)[y] <= 1
    ensures NoDup(s)
  {
    if s != [] {
      var rest := s[1..];
      assert s == [s[0]] + rest;
      assert forall y :: multiset(rest)[y] <= multiset(s)[y];
      CountsNoDup(rest);
      assert multiset(rest)[s[0]] == 0;
      forall i, j | 0 <= i < j < |s| ensures s[i] != s[j] {
        if i == 0 {
          assert s[j] == rest[j - 1];
        } else {
          assert s[i] == rest[i - 1] && s[j] == rest[j - 1];
        }
      }
    }
  }

  // ---------------------------------------------------------------------
  // Traversals

  /** `inorder`: first child, node, second child. */
  function InorderIds(t: TreeNode): (r: seq<string>)
    ensures t.id in r
    decreases t
  {
    (if |t.children| > 0 then InorderIds(t.children[0]) else [])
    + [t.id]
    + (if |t.children| > 1 then InorderIds(t.children[1]) else [])
  }

  /** `preorder`: node, first child, second child. */
  function PreorderIds(t: TreeNode): (r: seq<string>)
    ensures |r| >= 1 && r[0] == t.id
    decreases t
  {
    [t.id]
    + (if |t.children| > 0 then PreorderIds(t.children[0]) else [])
    + (if |t.children| > 1 then PreorderIds(t.children[1]) else [])
  }

  /** `postorder`: first child, second child, node. */
  function PostorderIds(t: TreeNode): (r: seq<string>)
    ensures |r| >= 1 && r[|r| - 1] == t.id
    decreases t
  {
    (if |t.children| > 0 then PostorderIds(t.children[0]) else [])
    + (if |t.children| > 1 then PostorderIds(t.children[1]) else [])
    + [t.id]
  }

  /** The walk chosen by the algorithm's name, lower-cased: `inorder` and
      `preorder` pick those walks, and every other name falls through to
      postorder. */
  function OrderOf(name: string): (r: Order)
    ensures r == Inorder <==> ToLower(name) == "inorder"
    ensures r == Preorder <==> ToLower(name) == "preorder"
  {
    var lower := ToLower(name);
    if lower == "inorder" then Inorder
    else if lower == "preorder" then Preorder
    else Postorder
  }

  /** The choice depends only on the lower-cased name, so a name and its
      lower-cased form pick the same walk. */
  lemma OrderOfIgnoresCase(name: string)
    ensures OrderOf(ToLower(name)) == OrderOf(name)
  {
    ToLowerIdempotent(name);
  }

  /** The three names the component is given pick their own walks. */
  lemma PropNamesPickTheirWalks()
    ensures OrderOf("Inorder") == Inorder
    ensures OrderOf("Preorder") == Preorder
    ensures OrderOf("Postorder") == Postorder
  {
    assert ToLower("Inorder") == "inorder";
    assert ToLower("Preorder") == "preorder";
    assert ToLower("Postorder") != "inorder" && ToLower("Postorder") != "preorder";
  }

  /** The ids highlighted by the chosen traversal; nothing without a root.
      Whichever walk is chosen, it visits each node of the tree pruned to
      two children once, and preorder visits them parents first. */
  function Traverse(order: Order, root: Option<TreeNode>): (r: seq<string>)
    ensures root.None? ==> r == []
    ensures root.Some? ==> multiset(r) == multiset(Ids(Binary(root.value)))
    ensures root.Some? && order == Preorder ==> r == Ids(Binary(root.value))
  {
    match root
    case None => []
    case Some(t) =>
      TraversalsPermute(t);
      PreorderIsPrunedIds(t);
      match order
      case Inorder => InorderIds(t)
      case Preorder => PreorderIds(t)
      case Postorder => PostorderIds(t)
  }

  /** The tree the traversals see: every node keeps at most its first two
      children. */
  function Binary(t: TreeNode): (r: TreeNode)
    ensures r.id == t.id && |r.children| <= 2
    decreases t
  {
    TreeNode(t.id, t.name,
      (if |t.children| > 0 then [Binary(t.children[0])] else [])
      + (if |t.children| > 1 then [Binary(t.children[1])] else []))
  }

  /** Every node has at most two children. */
  predicate IsBinary(t: TreeNode)
    decreases t
  {
    |t.children| <= 2 && forall i :: 0 <= i < |t.children| ==> IsBinary(t.children[i])
  }

  /** Preorder lists exactly the nodes of the pruned tree, parents first:
      a third or later child, and everything below it, is never visited. */
  lemma {:induction false} PreorderIsPrunedIds(t: TreeNode)
    ensures PreorderIds(t) == Ids(Binary(t))
    decreases t
  {
    var b := Binary(t);
    if |t.children| == 0 {
      assert IdsOf(b.children) == [];
    } else if |t.children| == 1 {
      PreorderIsPrunedIds(t.children[0]);
      assert b.children == [Binary(t.children[0])];
      assert IdsOf(b.children) == Ids(Binary(t.children[0])) + IdsOf([]) by {
        assert b.children[1..] == [];
      }
    } else {
      PreorderIsPrunedIds(t.children[0]);
      PreorderIsPrunedIds(t.children[1]);
      var c0, c1 := Binary(t.children[0]), Binary(t.children[1]);
      assert b.children == [c0, c1];
      assert b.children[1..] == [c1] && [c1][1..] == [];
      assert IdsOf(b.children) == Ids(c0) + (Ids(c1) + IdsOf([]));
    }
  }

  /** The pruned tree is the tree itself when every node has at most two
      children, so then preorder visits every node. */
  lemma {:induction false} BinaryKeepsBinary(t: TreeNode)
    requires IsBinary(t)
    ensures Binary(t) == t
    decreases t
  {
    if |t.children| > 0 { BinaryKeepsBinary(t.children[0]); }
    if |t.children| > 1 { BinaryKeepsBinary(t.children[1]); }
    if |t.children| == 1 {
      assert t.children == [t.children[0]];
    } else if |t.children| == 2 {
      assert t.children == [t.children[0], t.children[1]];
    }
  }

  /** The ids of the node and of its first two subtrees, each as often as
      it occurs: what a traversal visits, without the order. */
  function VisitedBag(t: TreeNode): multiset<string>
    decreases t
  {
    multiset{t.id}
    + (if |t.children| > 0 then VisitedBag(t.children[0]) else multiset{})
    + (if |t.children| > 1 then VisitedBag(t.children[1]) else multiset{})
  }

  lemma {:induction false} InorderVisitsBag(t: TreeNode)
    ensures multiset(InorderIds(t)) == VisitedBag(t)
    decreases t
  {
    var l := if |t.children| > 0 then InorderIds(t.children[0]) else [];
    var r := if |t.children| > 1 then InorderIds(t.children[1]) else [];
    assert multiset(l) == (if |t.children| > 0 then VisitedBag(t.children[0]) else multiset{}) by {
      if |t.children| > 0 { InorderVisitsBag(t.children[0]); }
    }
    assert multiset(r) == (if |t.children| > 1 then VisitedBag(t.children[1]) else multiset{}) by {
      if |t.children| > 1 { InorderVisitsBag(t.children[1]); }
    }
    assert InorderIds(t) == l + [t.id] + r;
    BagOfThree(l, [t.id], r);
  }

  lemma {:induction false} PreorderVisitsBag(t: TreeNode)
    ensures multiset(PreorderIds(t)) == VisitedBag(t)
    decreases t
  {
    var l := if |t.children| > 0 then PreorderIds(t.children[0]) else [];
    var r := if |t.children| > 1 then PreorderIds(t.children[1]) else [];
    assert multiset(l) == (if |t.children| > 0 then VisitedBag(t.children[0]) else multiset{}) by {
      if |t.children| > 0 { PreorderVisitsBag(t.children[0]); }
    }
    assert multiset(r) == (if |t.children| > 1 then VisitedBag(t.children[1]) else multiset{}) by {
      if |t.children| > 1 { PreorderVisitsBag(t.children[1]); }
    }
    assert PreorderIds(t) == [t.id] + l + r;
    BagOfThree([t.id], l, r);
  }

  lemma {:induction false} PostorderVisitsBag(t: TreeNode)
    ensures multiset(PostorderIds(t)) == VisitedBag(t)
    decreases t
  {
    var l := if |t.children| > 0 then PostorderIds(t.children[0]) else [];
    var r := if |t.children| > 1 then PostorderIds(t.children[1]) else [];
    assert multiset(l) == (if |t.children| > 0 then VisitedBag(t.children[0]) else multiset{}) by {
      if |t.children| > 0 { PostorderVisitsBag(t.children[0]); }
    }
    assert multiset(r) == (if |t.children| > 1 then VisitedBag(t.children[1]) else multiset{}) by {
      if |t.children| > 1 { PostorderVisitsBag(t.children[1]); }
    }
    assert PostorderIds(t) == l + r + [t.id];
    BagOfThree(l, r, [t.id]);
  }

  lemma BagOfThree(a: seq<string>, b: seq<string>, c: seq<string>)
    ensures multiset(a + b + c) == multiset(a) + multiset(b) + multiset(c)
  {
  }

  /** The three traversals visit the same nodes, each as often: they are
      permutations of one another. */
  lemma TraversalsPermute(t: TreeNode)
    ensures multiset(InorderIds(t)) == multiset(PreorderIds(t))
    ensures multiset(PostorderIds(t)) == multiset(PreorderIds(t))
  {
    InorderVisitsBag(t);
    PreorderVisitsBag(t);
    PostorderVisitsBag(t);
  }

  /** Preorder starts at the root, postorder ends there, and inorder lists
      the walk below the first child, then the root, then the walk below
      the second child. */
  lemma RootPositions(t: TreeNode)
    ensures PreorderIds(t)[0] == t.id
    ensures PostorderIds(t)[|PostorderIds(t)| - 1] == t.id
    ensures var left := if |t.children| > 0 then InorderIds(t.children[0]) else [];
      var right := if |t.children| > 1 then InorderIds(t.children[1]) else [];
      && |left| < |InorderIds(t)| && InorderIds(t)[|left|] == t.id
      && InorderIds(t)[..|left|] == left && InorderIds(t)[|left| + 1..] == right
  {
    var left := if |t.children| > 0 then InorderIds(t.children[0]) else [];
    var right := if |t.children| > 1 then InorderIds(t.children[1]) else [];
    assert InorderIds(t) == left + [t.id] + right;
    SplitAround(left, t.id, right);
  }

  lemma SplitAround(l: seq<string>, x: string, r: seq<string>)
    ensures var s := l + [x] + r;
      |l| < |s| && s[|l|] == x && s[..|l|] == l && s[|l| + 1..] == r
  {
    var s := l + [x] + r;
    assert s[..|l|] == l;
    assert s[|l| + 1..] == r;
  }

  /** Pruning changes none of the three walks. */
  lemma {:induction false} TraversalsIgnorePruning(t: TreeNode)
    ensures InorderIds(Binary(t)) == InorderIds(t)
    ensures PreorderIds(Binary(t)) == PreorderIds(t)
    ensures PostorderIds(Binary(t)) == PostorderIds(t)
    decreases t
  {
    if |t.children| > 0 { TraversalsIgnorePruning(t.children[0]); }
    if |t.children| > 1 { TraversalsIgnorePruning(t.children[1]); }
  }
}
