/** Algorithem/tree/binary-tree/basic/binary.c: two builders that read one stream of labels and -1
    markers through a global cursor, three traversals, depth and leaf count. */
module BinaryTree {
  import opened Wrappers

  datatype Tree = Nil | Node(idx: int, left: Tree, right: Tree)

  const MARKER := -1

  // ---------- trees, independently of how they are built ----------

  function Preorder(t: Tree): seq<int> {
    match t case Nil => [] case Node(x, l, r) => [x] + Preorder(l) + Preorder(r)
  }

  function Inorder(t: Tree): seq<int> {
    match t case Nil => [] case Node(x, l, r) => Inorder(l) + [x] + Inorder(r)
  }

  function Postorder(t: Tree): seq<int> {
    match t case Nil => [] case Node(x, l, r) => Postorder(l) + Postorder(r) + [x]
  }

  function Depth(t: Tree): nat {
    match t case Nil => 0 case Node(_, l, r) => 1 + if Depth(l) >= Depth(r) then Depth(l) else Depth(r)
  }

  function Leaves(t: Tree): nat {
    match t
    case Nil => 0
    case Node(_, l, r) => (if l == Nil && r == Nil then 1 else 0) + Leaves(l) + Leaves(r)
  }

  function Mirror(t: Tree): Tree {
    match t case Nil => Nil case Node(x, l, r) => Node(x, Mirror(r), Mirror(l))
  }

  function MarkedLength(t: Tree): nat {
    match t case Nil => 1 case Node(_, l, r) => 1 + MarkedLength(l) + MarkedLength(r)
  }

  /** Preorder with a marker for every missing child. */
  function Marked(t: Tree): (m: seq<int>)
    ensures |m| == MarkedLength(t)
  {
    match t case Nil => [MARKER] case Node(x, l, r) => [x] + Marked(l) + Marked(r)
  }

  predicate NoMarkerLabel(t: Tree) {
    match t case Nil => true case Node(x, l, r) => x != MARKER && NoMarkerLabel(l) && NoMarkerLabel(r)
  }

  function Reverse(s: seq<int>): seq<int> {
    if s == [] then [] else Reverse(s[1..]) + [s[0]]
  }

  /** The values of a stretch of the stream, without the markers. */
  function Values(s: seq<int>): seq<int> {
    if s == [] then [] else (if s[0] == MARKER then [] else [s[0]]) + Values(s[1..])
  }

  // ---------- what the builders read ----------

  /** The tree at the front of s and what follows it, None if s ends before the tree does. */
  function Parse(s: seq<int>): (r: Option<(Tree, seq<int>)>)
    ensures r.Some? ==> |r.value.1| < |s|
    decreases |s|
  {
    if s == [] then None
    else if s[0] == MARKER then Some((Nil, s[1..]))
    else
      match Parse(s[1..])
      case None => None
      case Some((l, rest)) =>
        match Parse(rest)
        case None => None
        case Some((r, rest')) => Some((Node(s[0], l, r), rest'))
  }

  lemma SubParses(s: seq<int>)
    requires Parse(s).Some? && s[0] != MARKER
    ensures Parse(s[1..]).Some? && Parse(Parse(s[1..]).value.1).Some?
    ensures var (l, rest) := Parse(s[1..]).value;
            var (r, rest') := Parse(rest).value;
            Parse(s).value == (Node(s[0], l, r), rest')
  {
  }

  /** Markers minus values. */
  function Excess(s: seq<int>): int {
    if s == [] then 0 else (if s[0] == MARKER then 1 else -1) + Excess(s[1..])
  }

  /** n is the length of the shortest stretch at the front of s with one marker more than values. */
  ghost predicate FirstExcess(s: seq<int>, n: nat) {
    n <= |s| && Excess(s[..n]) == 1 && forall m | 0 <= m < n :: Excess(s[..m]) <= 0
  }

  lemma {:induction false} ExcessConcat(a: seq<int>, b: seq<int>)
    ensures Excess(a + b) == Excess(a) + Excess(b)
  {
    if a == [] {
      assert a + b == b;
    } else {
      assert (a + b)[1..] == a[1..] + b;
      ExcessConcat(a[1..], b);
    }
  }

  /** A marked tree has excess 1, and none of its proper beginnings has. */
  lemma {:induction false} MarkedExcess(t: Tree, m: nat)
    requires NoMarkerLabel(t) && m <= |Marked(t)|
    ensures Excess(Marked(t)) == 1
    ensures m < |Marked(t)| ==> Excess(Marked(t)[..m]) <= 0
  {
    match t
    case Nil =>
      assert Marked(t)[1..] == [];
    case Node(x, l, r) =>
      var ml, mr := Marked(l), Marked(r);
      assert Marked(t) == [x] + (ml + mr);
      ExcessConcat([x], ml + mr);
      ExcessConcat(ml, mr);
      assert Excess([x]) == -1;
      MarkedExcess(l, 0);
      MarkedExcess(r, 0);
      if 0 < m {
        if m - 1 <= |ml| {
          assert Marked(t)[..m] == [x] + ml[..m - 1];
          ExcessConcat([x], ml[..m - 1]);
          assert ml[..|ml|] == ml;
          MarkedExcess(l, m - 1);
        } else {
          var k := m - 1 - |ml|;
          assert Marked(t)[..m] == [x] + (ml + mr[..k]);
          ExcessConcat([x], ml + mr[..k]);
          ExcessConcat(ml, mr[..k]);
          MarkedExcess(r, k);
        }
      }
  }

  lemma Regroup(a: seq<int>, b: seq<int>, c: seq<int>, d: seq<int>)
    ensures a + (b + (c + d)) == a + b + c + d
  {
  }

  /** What Parse reads is exactly the marked form of the tree it returns. */
  lemma {:induction false} ParseReadsMarked(s: seq<int>)
    requires Parse(s).Some?
    ensures var (t, rest) := Parse(s).value; NoMarkerLabel(t) && s == Marked(t) + rest
    decreases |s|
  {
    if s[0] != MARKER {
      ParseReadsMarked(s[1..]);
      var (l, rest) := Parse(s[1..]).value;
      ParseReadsMarked(rest);
      var (r, rest') := Parse(rest).value;
      SubParses(s);
      assert s == [s[0]] + s[1..];
      Regroup([s[0]], Marked(l), Marked(r), rest');
    }
  }

  /** Building inverts printing with markers and leaves what follows untouched. */
  lemma {:induction false} ParseInvertsMarked(t: Tree, rest: seq<int>)
    requires NoMarkerLabel(t)
    ensures Parse(Marked(t) + rest) == Some((t, rest))
  {
    var s := Marked(t) + rest;
    match t
    case Nil =>
      assert s[1..] == rest;
    case Node(x, l, r) =>
      assert s[1..] == Marked(l) + (Marked(r) + rest);
      ParseInvertsMarked(l, Marked(r) + rest);
      ParseInvertsMarked(r, rest);
  }

  /** The round trip works exactly for trees without a label equal to the marker. */
  lemma RoundTripExactly(t: Tree, rest: seq<int>)
    ensures Parse(Marked(t) + rest) == Some((t, rest)) <==> NoMarkerLabel(t)
  {
    if NoMarkerLabel(t) {
      ParseInvertsMarked(t, rest);
    } else if Parse(Marked(t) + rest).Some? {
      ParseReadsMarked(Marked(t) + rest);
    }
  }

  /** When there is no whole tree, markers never outnumber values. */
  lemma {:induction false} NoTreeNoExcess(s: seq<int>, m: nat)
    requires Parse(s) == None && m <= |s|
    ensures Excess(s[..m]) <= 0
    decreases |s|
  {
    if 0 < m {
      assert s[..m] == [s[0]] + s[1..][..m - 1];
      ExcessConcat([s[0]], s[1..][..m - 1]);
      assert Excess([s[0]]) == -1;
      if Parse(s[1..]) == None {
        NoTreeNoExcess(s[1..], m - 1);
      } else {
        var (l, rest) := Parse(s[1..]).value;
        ParseReadsMarked(s[1..]);
        var ml := Marked(l);
        if m - 1 <= |ml| {
          assert s[1..][..m - 1] == ml[..m - 1];
          assert ml[..|ml|] == ml;
          MarkedExcess(l, m - 1);
        } else {
          var k := m - 1 - |ml|;
          assert s[1..][..m - 1] == ml + rest[..k];
          ExcessConcat(ml, rest[..k]);
          MarkedExcess(l, 0);
          NoTreeNoExcess(rest, k);
        }
      }
    }
  }

  /** A tree can be built exactly when some beginning of the stream has excess 1, and the shortest such
      beginning is what is read. */
  lemma ReadsFirstExcess(s: seq<int>, n: nat)
    ensures FirstExcess(s, n) <==> Parse(s).Some? && n + |Parse(s).value.1| == |s|
  {
    if Parse(s).Some? {
      var (t, rest) := Parse(s).value;
      ParseReadsMarked(s);
      var k := |Marked(t)|;
      assert s[..k] == Marked(t);
      MarkedExcess(t, k);
      forall m | 0 <= m < k ensures Excess(s[..m]) <= 0 {
        MarkedExcess(t, m);
        assert s[..m] == Marked(t)[..m];
      }
      assert FirstExcess(s, k);
    } else if n <= |s| {
      NoTreeNoExcess(s, n);
    }
  }

  // ---------- mirror laws ----------

  lemma {:induction false} ReverseConcat(a: seq<int>, b: seq<int>)
    ensures Reverse(a + b) == Reverse(b) + Reverse(a)
  {
    if a == [] {
      assert a + b == b;
    } else {
      assert (a + b)[1..] == a[1..] + b;
      ReverseConcat(a[1..], b);
    }
  }

  lemma {:induction false} PostorderOfMirror(t: Tree)
    ensures Postorder(Mirror(t)) == Reverse(Preorder(t))
  {
    match t
    case Nil =>
    case Node(x, l, r) =>
      PostorderOfMirror(l);
      PostorderOfMirror(r);
      assert Preorder(t) == [x] + (Preorder(l) + Preorder(r));
      ReverseConcat([x], Preorder(l) + Preorder(r));
      ReverseConcat(Preorder(l), Preorder(r));
      assert Reverse([x]) == [x];
  }

  lemma {:induction false} InorderOfMirror(t: Tree)
    ensures Inorder(Mirror(t)) == Reverse(Inorder(t))
  {
    match t
    case Nil =>
    case Node(x, l, r) =>
      InorderOfMirror(l);
      InorderOfMirror(r);
      assert Inorder(t) == Inorder(l) + ([x] + Inorder(r));
      ReverseConcat(Inorder(l), [x] + Inorder(r));
      ReverseConcat([x], Inorder(r));
      assert Reverse([x]) == [x];
  }

  lemma {:induction false} MirrorKeepsTotals(t: Tree)
    ensures Depth(Mirror(t)) == Depth(t) && Leaves(Mirror(t)) == Leaves(t)
    ensures Mirror(t) == Nil <==> t == Nil
  {
    match t
    case Nil =>
    case Node(x, l, r) =>
      MirrorKeepsTotals(l);
      MirrorKeepsTotals(r);
  }

  lemma {:induction false} ValuesConcat(a: seq<int>, b: seq<int>)
    ensures Values(a + b) == Values(a) + Values(b)
  {
    if a == [] {
      assert a + b == b;
    } else {
      assert (a + b)[1..] == a[1..] + b;
      ValuesConcat(a[1..], b);
    }
  }

  lemma {:induction false} MarkedValues(t: Tree)
    requires NoMarkerLabel(t)
    ensures Values(Marked(t)) == Preorder(t)
  {
    match t
    case Nil =>
      assert Values([MARKER]) == Values([]);
    case Node(x, l, r) =>
      MarkedValues(l);
      MarkedValues(r);
      assert Marked(t) == [x] + (Marked(l) + Marked(r));
      ValuesConcat([x], Marked(l) + Marked(r));
      ValuesConcat(Marked(l), Marked(r));
      assert Values([x]) == [x] + Values([]);
  }

  // ---------- what the traversals, depth and leaf count mean, told by the paths to the nodes ----------

  datatype Turn = Left | Right
  type Path = seq<Turn>

  function Child(t: Tree, d: Turn): Tree
    requires t.Node?
  {
    match d case Left => t.left case Right => t.right
  }

  /** The path from the root of t ends at a node. */
  predicate Leads(t: Tree, p: Path)
    decreases |p|
  {
    t.Node? && (p == [] || Leads(Child(t, p[0]), p[1..]))
  }

  function NodeAt(t: Tree, p: Path): (n: Tree)
    requires Leads(t, p)
    ensures n.Node?
    decreases |p|
  {
    if p == [] then t else NodeAt(Child(t, p[0]), p[1..])
  }

  /** When a node's turn comes, relative to its left and its right subtree. */
  datatype Order = Order(left: int, here: int, right: int)

  predicate Proper(o: Order) { o.left != o.here && o.here != o.right && o.right != o.left }

  const NODE_FIRST := Order(1, 0, 2)
  const NODE_BETWEEN := Order(0, 1, 2)
  const NODE_LAST := Order(0, 2, 1)

  function Rank(o: Order, p: Path): int {
    if p == [] then o.here else match p[0] case Left => o.left case Right => o.right
  }

  /** Where the two paths part, that of p comes first. */
  predicate Before(o: Order, p: Path, q: Path)
    decreases |p|
  {
    Rank(o, p) < Rank(o, q) || (p != [] && q != [] && p[0] == q[0] && Before(o, p[1..], q[1..]))
  }

  /** ps visits nodes of t in the order o, each at most once, and s are their labels. */
  ghost predicate InTurn(o: Order, t: Tree, ps: seq<Path>, s: seq<int>) {
    && |ps| == |s|
    && (forall i | 0 <= i < |ps| :: Leads(t, ps[i]) && s[i] == NodeAt(t, ps[i]).idx)
    && (forall i, j | 0 <= i < j < |ps| :: Before(o, ps[i], ps[j]))
  }

  /** s are the labels of all nodes of t, each once, in the order o. */
  ghost predicate Walks(o: Order, t: Tree, s: seq<int>) {
    exists ps :: InTurn(o, t, ps, s) && forall p | Leads(t, p) :: p in ps
  }

  /** The visits to one part of t: its left subtree, its root or its right subtree. */
  ghost predicate PartWalked(o: Order, t: Tree, rank: int, ps: seq<Path>, s: seq<int>) {
    && InTurn(o, t, ps, s)
    && (forall i | 0 <= i < |ps| :: Rank(o, ps[i]) == rank)
    && (forall p | Leads(t, p) && Rank(o, p) == rank :: p in ps)
  }

  function Under(d: Turn, ps: seq<Path>): seq<Path> {
    seq(|ps|, i requires 0 <= i < |ps| => [d] + ps[i])
  }

  lemma ChildInTurn(o: Order, t: Tree, d: Turn, ps: seq<Path>, s: seq<int>)
    requires t.Node? && InTurn(o, Child(t, d), ps, s)
    ensures InTurn(o, t, Under(d, ps), s)
  {
    var qs := Under(d, ps);
    forall i | 0 <= i < |qs| ensures Leads(t, qs[i]) && s[i] == NodeAt(t, qs[i]).idx {
      PathUnder(t, d, ps[i]);
    }
    forall i, j | 0 <= i < j < |qs| ensures Before(o, qs[i], qs[j]) {
      BeforeUnder(o, d, ps[i], ps[j]);
    }
  }

  lemma AllUnder(o: Order, t: Tree, d: Turn, ps: seq<Path>, p: Path)
    requires t.Node? && Proper(o) && Leads(t, p) && Rank(o, p) == Rank(o, [d])
    requires forall q | Leads(Child(t, d), q) :: q in ps
    ensures p in Under(d, ps)
  {
    assert p[0] == d && p[1..] in ps;
    var i :| 0 <= i < |ps| && ps[i] == p[1..];
    assert Under(d, ps)[i] == p;
  }

  lemma ChildWalked(o: Order, t: Tree, d: Turn, s: seq<int>) returns (qs: seq<Path>)
    requires t.Node? && Walks(o, Child(t, d), s) && Proper(o)
    ensures PartWalked(o, t, Rank(o, [d]), qs, s)
  {
    var ps :| InTurn(o, Child(t, d), ps, s) && forall p | Leads(Child(t, d), p) :: p in ps;
    qs := Under(d, ps);
    ChildInTurn(o, t, d, ps, s);
    forall p | Leads(t, p) && Rank(o, p) == Rank(o, [d]) ensures p in qs {
      AllUnder(o, t, d, ps, p);
    }
  }

  lemma PathUnder(t: Tree, d: Turn, p: Path)
    requires t.Node?
    ensures Leads(t, [d] + p) <==> Leads(Child(t, d), p)
    ensures Leads(Child(t, d), p) ==> NodeAt(t, [d] + p) == NodeAt(Child(t, d), p)
  {
    assert ([d] + p)[1..] == p;
  }

  lemma BeforeUnder(o: Order, d: Turn, p: Path, q: Path)
    ensures Before(o, [d] + p, [d] + q) <==> Before(o, p, q)
  {
    assert ([d] + p)[1..] == p && ([d] + q)[1..] == q;
  }

  lemma RootWalked(o: Order, t: Tree)
    requires t.Node? && Proper(o)
    ensures PartWalked(o, t, o.here, [[]], [t.idx])
  {
  }

  /** Three parts, one after the other, make up the walk. */
  lemma PartsJoined(o: Order, t: Tree, a: int, ps: seq<Path>, s: seq<int>, b: int, qs: seq<Path>, u: seq<int>,
                    c: int, rs: seq<Path>, v: seq<int>)
    requires a < b < c && {a, b, c} == {o.left, o.here, o.right}
    requires PartWalked(o, t, a, ps, s) && PartWalked(o, t, b, qs, u) && PartWalked(o, t, c, rs, v)
    ensures Walks(o, t, s + u + v)
  {
    var all := ps + qs + rs;
    assert InTurn(o, t, all, s + u + v);
    forall p | Leads(t, p) ensures p in all {
      assert Rank(o, p) in {a, b, c};
    }
  }

  lemma {:induction false} PreorderWalks(t: Tree)
    ensures Walks(NODE_FIRST, t, Preorder(t))
  {
    if t == Nil {
      assert InTurn(NODE_FIRST, t, [], []);
    } else {
      PreorderWalks(t.left);
      PreorderWalks(t.right);
      var l := ChildWalked(NODE_FIRST, t, Left, Preorder(t.left));
      var r := ChildWalked(NODE_FIRST, t, Right, Preorder(t.right));
      RootWalked(NODE_FIRST, t);
      PartsJoined(NODE_FIRST, t, 0, [[]], [t.idx], 1, l, Preorder(t.left), 2, r, Preorder(t.right));
    }
  }

  lemma {:induction false} InorderWalks(t: Tree)
    ensures Walks(NODE_BETWEEN, t, Inorder(t))
  {
    if t == Nil {
      assert InTurn(NODE_BETWEEN, t, [], []);
    } else {
      InorderWalks(t.left);
      InorderWalks(t.right);
      var l := ChildWalked(NODE_BETWEEN, t, Left, Inorder(t.left));
      var r := ChildWalked(NODE_BETWEEN, t, Right, Inorder(t.right));
      RootWalked(NODE_BETWEEN, t);
      PartsJoined(NODE_BETWEEN, t, 0, l, Inorder(t.left), 1, [[]], [t.idx], 2, r, Inorder(t.right));
    }
  }

  lemma {:induction false} PostorderWalks(t: Tree)
    ensures Walks(NODE_LAST, t, Postorder(t))
  {
    if t == Nil {
      assert InTurn(NODE_LAST, t, [], []);
    } else {
      PostorderWalks(t.left);
      PostorderWalks(t.right);
      var l := ChildWalked(NODE_LAST, t, Left, Postorder(t.left));
      var r := ChildWalked(NODE_LAST, t, Right, Postorder(t.right));
      RootWalked(NODE_LAST, t);
      PartsJoined(NODE_LAST, t, 0, l, Postorder(t.left), 1, r, Postorder(t.right), 2, [[]], [t.idx]);
    }
  }

  /** The depth is the number of nodes on a longest path. */
  lemma {:induction false} DepthIsLongest(t: Tree) returns (p: Path)
    ensures t == Nil ==> Depth(t) == 0
    ensures t != Nil ==> Leads(t, p) && |p| + 1 == Depth(t)
    ensures forall q | Leads(t, q) :: |q| < Depth(t)
  {
    p := [];
    if t != Nil {
      var l := DepthIsLongest(t.left);
      var r := DepthIsLongest(t.right);
      if t.left != Nil || t.right != Nil {
        p := if Depth(t.left) >= Depth(t.right) then [Left] + l else [Right] + r;
        assert p[1..] == if Depth(t.left) >= Depth(t.right) then l else r;
      }
      forall q | Leads(t, q) ensures |q| < Depth(t) {
        if q != [] { assert Leads(Child(t, q[0]), q[1..]); }
      }
    }
  }

  predicate LeadsToLeaf(t: Tree, p: Path) {
    Leads(t, p) && NodeAt(t, p).left == Nil && NodeAt(t, p).right == Nil
  }

  /** The leaf count is the number of paths to nodes without children. */
  lemma {:induction false} LeavesCounted(t: Tree) returns (ps: set<Path>)
    ensures forall p :: p in ps <==> LeadsToLeaf(t, p)
    ensures |ps| == Leaves(t)
  {
    if t == Nil {
      ps := {};
    } else if t.left == Nil && t.right == Nil {
      ps := {[]};
      forall p ensures p in ps <==> LeadsToLeaf(t, p) {
        if p != [] { assert !Leads(Child(t, p[0]), p[1..]); }
      }
    } else {
      var l := LeavesCounted(t.left);
      var r := LeavesCounted(t.right);
      var ls, rs := set p | p in l :: [Left] + p, set p | p in r :: [Right] + p;
      SameNumber(Left, l, ls);
      SameNumber(Right, r, rs);
      assert ls !! rs by {
        forall p | p in ls ensures p !in rs { assert p[0] == Left; }
      }
      ps := ls + rs;
      forall p ensures p in ps <==> LeadsToLeaf(t, p) {
        LeafBelow(t, l, r, ls, rs, p);
      }
    }
  }

  lemma LeafBelow(t: Tree, l: set<Path>, r: set<Path>, ls: set<Path>, rs: set<Path>, p: Path)
    requires t.Node? && (t.left != Nil || t.right != Nil)
    requires forall q :: q in l <==> LeadsToLeaf(t.left, q)
    requires forall q :: q in r <==> LeadsToLeaf(t.right, q)
    requires ls == (set q | q in l :: [Left] + q) && rs == (set q | q in r :: [Right] + q)
    ensures p in ls + rs <==> LeadsToLeaf(t, p)
  {
    if p != [] {
      assert p == [p[0]] + p[1..];
      assert p[0] == Left ==> (p in ls <==> p[1..] in l);
      assert p[0] == Right ==> (p in rs <==> p[1..] in r);
    }
  }

  lemma {:induction false} SameNumber(d: Turn, ps: set<Path>, qs: set<Path>)
    requires qs == set p | p in ps :: [d] + p
    ensures |qs| == |ps|
    decreases ps
  {
    if ps != {} {
      var p :| p in ps;
      var rest := set q | q in ps - {p} :: [d] + q;
      SameNumber(d, ps - {p}, rest);
      forall q | q in ps - {p} ensures [d] + q != [d] + p {
        assert ([d] + q)[1..] == q != p;
      }
      assert qs == rest + {[d] + p};
    }
  }

  // ---------- nodes in memory ----------

  class BinaryNode {
    var idx: int
    var left: BinaryNode?
    var right: BinaryNode?

    /** malloc, and the label; the children are set by the builders. */
    constructor (idx: int)
      ensures this.idx == idx
    {
      this.idx := idx;
      left, right := null, null;
    }
  }

  /** node is the root of tree t in memory; all its nodes are in repr. */
  ghost predicate Shows(node: BinaryNode?, t: Tree, repr: set<object>)
    reads repr
    decreases t
  {
    match t
    case Nil => node == null
    case Node(x, l, r) =>
      node != null && node in repr && node.idx == x && Shows(node.left, l, repr) && Shows(node.right, r, repr)
  }

  /** Going left and right in memory as the path says. */
  ghost function Follow(node: BinaryNode?, t: Tree, repr: set<object>, p: Path): (n: BinaryNode)
    requires Shows(node, t, repr) && Leads(t, p)
    reads repr
    ensures n.idx == NodeAt(t, p).idx
    ensures (n.left == null <==> NodeAt(t, p).left == Nil) && (n.right == null <==> NodeAt(t, p).right == Nil)
    decreases |p|
  {
    if p == [] then
      assert Shows(node.left, t.left, repr) && Shows(node.right, t.right, repr);
      node
    else if p[0] == Left then Follow(node.left, t.left, repr, p[1..])
    else Follow(node.right, t.right, repr, p[1..])
  }

  /** The nodes of the tree in memory. */
  ghost function Nodes(node: BinaryNode?, t: Tree, repr: set<object>): (ns: set<object>)
    requires Shows(node, t, repr)
    reads repr
    ensures ns <= repr
    decreases t
  {
    if t == Nil then {} else {node} + Nodes(node.left, t.left, repr) + Nodes(node.right, t.right, repr)
  }

  /** node is the root of tree t, and no node is met twice on the way through it. */
  ghost predicate Built(node: BinaryNode?, t: Tree, repr: set<object>)
    reads repr
    decreases t
  {
    Shows(node, t, repr) &&
    (t.Node? ==>
       && Nodes(node.left, t.left, repr) !! Nodes(node.right, t.right, repr)
       && node !in Nodes(node.left, t.left, repr) + Nodes(node.right, t.right, repr)
       && Built(node.left, t.left, repr) && Built(node.right, t.right, repr))
  }

  lemma {:induction false} ShowsInMore(node: BinaryNode?, t: Tree, repr: set<object>, more: set<object>)
    requires Shows(node, t, repr) && repr <= more
    ensures Shows(node, t, more)
    ensures Nodes(node, t, more) == Nodes(node, t, repr)
    ensures Built(node, t, repr) ==> Built(node, t, more)
    decreases t
  {
    match t
    case Nil =>
    case Node(_, l, r) =>
      ShowsInMore(node.left, l, repr, more);
      ShowsInMore(node.right, r, repr, more);
  }

  lemma ShowsNode(n: BinaryNode, t: Tree, l: Tree, r: Tree, rl: set<object>, rr: set<object>, repr: set<object>)
    requires t == Node(n.idx, l, r) && repr == {n} + rl + rr
    requires Built(n.left, l, rl) && Built(n.right, r, rr) && rl !! rr && n !in rl + rr
    ensures Built(n, t, repr)
  {
    ShowsInMore(n.left, l, rl, {n} + rl + rr);
    ShowsInMore(n.right, r, rr, {n} + rl + rr);
  }

  /** The global stream and cursor. */
  class Stream {
    const data: seq<int>
    var counter: nat

    constructor (data: seq<int>)
      ensures this.data == data && counter == 0
    {
      this.data := data;
      counter := 0;
    }

    /** Preorder_Create_BinaryTree: when the stream goes on with the marked form of t, and so whenever
        it holds a whole tree (TreeAhead), that tree is built and the cursor moves just past its form. */
    method PreorderCreate(ghost t: Tree) returns (node: BinaryNode?, ghost repr: set<object>)
      requires NoMarkerLabel(t) && HoldsAt(data, counter, t)
      modifies this
      ensures Built(node, t, repr) && fresh(repr)
      ensures counter == old(counter) + MarkedLength(t)
      decreases t, 1
    {
      var ch := data[counter];
      counter := counter + 1;
      if ch == MARKER {
        return null, {};
      }
      node, repr := PreorderNode(ch, t.left, t.right);
    }

    /** Lines 43-50: a node that is not missing. */
    method PreorderNode(ch: int, ghost l: Tree, ghost r: Tree) returns (n: BinaryNode, ghost repr: set<object>)
      requires NoMarkerLabel(l) && NoMarkerLabel(r)
      requires HoldsAt(data, counter, l) && HoldsAt(data, counter + MarkedLength(l), r)
      modifies this
      ensures Built(n, Node(ch, l, r), repr) && fresh(repr)
      ensures counter == old(counter) + MarkedLength(l) + MarkedLength(r)
      decreases Node(ch, l, r), 0
    {
      n := new BinaryNode(ch);
      var rl := PreorderLeft(n, l);
      var rr := PreorderRight(n, r, l, rl);
      repr := {n} + rl + rr;
      ShowsNode(n, Node(ch, l, r), l, r, rl, rr, repr);
    }

    /** Line 47: the left child of n. */
    method PreorderLeft(n: BinaryNode, ghost t: Tree) returns (ghost repr: set<object>)
      requires NoMarkerLabel(t) && HoldsAt(data, counter, t)
      modifies this, n
      ensures n.idx == old(n.idx) && Built(n.left, t, repr) && fresh(repr)
      ensures counter == old(counter) + MarkedLength(t)
      decreases t, 2
    {
      var child;
      child, repr := PreorderCreate(t);
      n.left := child;
    }

    /** Line 49: the right child of n, which has its left one. */
    method PreorderRight(n: BinaryNode, ghost t: Tree, ghost tl: Tree, ghost rl: set<object>)
      returns (ghost repr: set<object>)
      requires NoMarkerLabel(t) && HoldsAt(data, counter, t)
      requires Built(n.left, tl, rl) && n !in rl && this !in rl
      modifies this, n
      ensures n.idx == old(n.idx) && n.left == old(n.left) && Built(n.left, tl, rl)
      ensures Built(n.right, t, repr) && fresh(repr)
      ensures counter == old(counter) + MarkedLength(t)
      decreases t, 2
    {
      var child;
      child, repr := PreorderCreate(t);
      n.right := child;
    }

    /** Postorder_Create_BinaryTree: from the same stretch of the stream, the mirror image. */
    method PostorderCreate(ghost t: Tree) returns (node: BinaryNode?, ghost repr: set<object>)
      requires NoMarkerLabel(t) && HoldsAt(data, counter, t)
      modifies this
      ensures Built(node, Mirror(t), repr) && fresh(repr)
      ensures counter == old(counter) + MarkedLength(t)
      decreases t, 1
    {
      var ch := data[counter];
      counter := counter + 1;
      if ch == MARKER {
        return null, {};
      }
      var n := new BinaryNode(ch);
      var rr := PostorderRight(n, t.left);
      var rl := PostorderLeft(n, t.right, Mirror(t.left), rr);
      node, repr := n, {n} + rl + rr;
      ShowsNode(n, Mirror(t), Mirror(t.right), Mirror(t.left), rl, rr, repr);
    }

    /** Line 70: the right child of n comes first. */
    method PostorderRight(n: BinaryNode, ghost t: Tree) returns (ghost repr: set<object>)
      requires NoMarkerLabel(t) && HoldsAt(data, counter, t)
      modifies this, n
      ensures n.idx == old(n.idx) && Built(n.right, Mirror(t), repr) && fresh(repr)
      ensures counter == old(counter) + MarkedLength(t)
      decreases t, 2
    {
      var child;
      child, repr := PostorderCreate(t);
      n.right := child;
    }

    /** Line 72: the left child of n, which has its right one. */
    method PostorderLeft(n: BinaryNode, ghost t: Tree, ghost tr: Tree, ghost rr: set<object>)
      returns (ghost repr: set<object>)
      requires NoMarkerLabel(t) && HoldsAt(data, counter, t)
      requires Built(n.right, tr, rr) && n !in rr && this !in rr
      modifies this, n
      ensures n.idx == old(n.idx) && n.right == old(n.right) && Built(n.right, tr, rr)
      ensures Built(n.left, Mirror(t), repr) && fresh(repr)
      ensures counter == old(counter) + MarkedLength(t)
      decreases t, 2
    {
      var child;
      child, repr := PostorderCreate(t);
      n.left := child;
    }
  }

  /** The marked form of t is found at position c of the stream. */
  predicate HoldsAt(s: seq<int>, c: nat, t: Tree)
    decreases t
  {
    c < |s| &&
    match t
    case Nil => s[c] == MARKER
    case Node(x, l, r) => s[c] == x && HoldsAt(s, c + 1, l) && HoldsAt(s, c + 1 + MarkedLength(l), r)
  }

  lemma {:induction false} HoldsAtStretch(s: seq<int>, c: nat, t: Tree)
    ensures HoldsAt(s, c, t) <==> c + |Marked(t)| <= |s| && s[c..c + |Marked(t)|] == Marked(t)
    decreases t
  {
    if t.Node? {
      var n := MarkedLength(t.left);
      HoldsAtStretch(s, c + 1, t.left);
      HoldsAtStretch(s, c + 1 + n, t.right);
      if c + |Marked(t)| <= |s| {
        SplitStretch(s, c, t.idx, Marked(t.left), Marked(t.right));
      }
    }
  }

  lemma SplitStretch(s: seq<int>, c: nat, x: int, l: seq<int>, r: seq<int>)
    requires c + 1 + |l| + |r| <= |s|
    ensures s[c..c + 1 + |l| + |r|] == [x] + l + r
            <==> s[c] == x && s[c + 1..c + 1 + |l|] == l && s[c + 1 + |l|..c + 1 + |l| + |r|] == r
  {
    var a, b, w := s[c + 1..c + 1 + |l|], s[c + 1 + |l|..c + 1 + |l| + |r|], s[c..c + 1 + |l| + |r|];
    assert w == [s[c]] + a + b;
    assert w == [x] + l + r ==> w[0] == x && w[1..1 + |l|] == l && w[1 + |l|..] == r;
    assert w[1..1 + |l|] == a && w[1 + |l|..] == b;
  }

  /** What the builders ask for: the stream holds a whole tree at position c exactly when some stretch
      from c on has one marker more than values, and the shortest such stretch is what they read. */
  lemma TreeAhead(s: seq<int>, c: nat, n: nat)
    requires c <= |s|
    ensures FirstExcess(s[c..], n) <==> exists t :: NoMarkerLabel(t) && HoldsAt(s, c, t) && |Marked(t)| == n
  {
    if FirstExcess(s[c..], n) {
      var t := TreeFound(s, c, n);
    }
    forall t | NoMarkerLabel(t) && HoldsAt(s, c, t) && |Marked(t)| == n ensures FirstExcess(s[c..], n) {
      HoldsAtStretch(s, c, t);
      assert s[c..] == Marked(t) + s[c + n..];
      ParseInvertsMarked(t, s[c + n..]);
      ReadsFirstExcess(s[c..], n);
    }
  }

  lemma TreeFound(s: seq<int>, c: nat, n: nat) returns (t: Tree)
    requires c <= |s| && FirstExcess(s[c..], n)
    ensures NoMarkerLabel(t) && HoldsAt(s, c, t) && |Marked(t)| == n
  {
    ReadsFirstExcess(s[c..], n);
    ParseReadsMarked(s[c..]);
    t := Parse(s[c..]).value.0;
    assert s[c..c + n] == s[c..][..n] == Marked(t);
    HoldsAtStretch(s, c, t);
  }

  /** Both builders on one stream: the relations between what they print. */
  lemma BuildersMirror(s: seq<int>)
    requires Parse(s).Some?
    ensures var (t, rest) := Parse(s).value;
            var read := Values(s[..|s| - |rest|]);
            && Preorder(t) == read
            && Postorder(Mirror(t)) == Reverse(read)
            && Inorder(Mirror(t)) == Reverse(Inorder(t))
            && Depth(Mirror(t)) == Depth(t) && Leaves(Mirror(t)) == Leaves(t)
  {
    var (t, rest) := Parse(s).value;
    ParseReadsMarked(s);
    assert s[..|s| - |rest|] == Marked(t);
    MarkedValues(t);
    PostorderOfMirror(t);
    InorderOfMirror(t);
    MirrorKeepsTotals(t);
  }

  // ---------- traversals: what they print ----------

  method PreorderTraverse(node: BinaryNode?, ghost t: Tree, ghost repr: set<object>)
    returns (printed: seq<int>)
    requires Shows(node, t, repr)
    ensures printed == Preorder(t) && Walks(NODE_FIRST, t, printed)
    decreases t
  {
    PreorderWalks(t);
    if node == null {
      return [];
    }
    printed := [node.idx];
    var l := PreorderTraverse(node.left, t.left, repr);
    var r := PreorderTraverse(node.right, t.right, repr);
    printed := printed + l + r;
  }

  method MiddorderTraverse(node: BinaryNode?, ghost t: Tree, ghost repr: set<object>)
    returns (printed: seq<int>)
    requires Shows(node, t, repr)
    ensures printed == Inorder(t) && Walks(NODE_BETWEEN, t, printed)
    decreases t
  {
    InorderWalks(t);
    if node == null {
      return [];
    }
    printed := MiddorderTraverse(node.left, t.left, repr);
    printed := printed + [node.idx];
    var r := MiddorderTraverse(node.right, t.right, repr);
    printed := printed + r;
  }

  method PostorderTraverse(node: BinaryNode?, ghost t: Tree, ghost repr: set<object>)
    returns (printed: seq<int>)
    requires Shows(node, t, repr)
    ensures printed == Postorder(t) && Walks(NODE_LAST, t, printed)
    decreases t
  {
    PostorderWalks(t);
    if node == null {
      return [];
    }
    printed := PostorderTraverse(node.left, t.left, repr);
    var r := PostorderTraverse(node.right, t.right, repr);
    printed := printed + r + [node.idx];
  }

  /** BinaryTree_Deep */
  method Deep(node: BinaryNode?, ghost t: Tree, ghost repr: set<object>) returns (deep: nat)
    requires Shows(node, t, repr)
    ensures deep == Depth(t)
    ensures forall p | Leads(t, p) :: |p| < deep
    ensures deep > 0 ==> exists p :: Leads(t, p) && |p| + 1 == deep
    decreases t
  {
    ghost var longest := DepthIsLongest(t);
    deep := 0;
    if node != null {
      var leftDeep := Deep(node.left, t.left, repr);
      var rightDeep := Deep(node.right, t.right, repr);
      deep := if leftDeep >= rightDeep then leftDeep + 1 else rightDeep + 1;
    }
  }

  /** BinaryTree_LeafCount with its static counter, which no call resets. */
  class LeafCounter {
    var count: nat

    constructor ()
      ensures count == 0
    {
      count := 0;
    }

    method LeafCount(node: BinaryNode?, ghost t: Tree, ghost repr: set<object>) returns (total: nat)
      requires Shows(node, t, repr) && this !in repr
      modifies this
      ensures count == old(count) + Leaves(t) && total == count
      decreases t
    {
      if node != null {
        if node.left == null && node.right == null {
          count := count + 1;
        }
        var _ := LeafCount(node.left, t.left, repr);
        var _ := LeafCount(node.right, t.right, repr);
      }
      total := count;
    }
  }
}
