/**
 * The object tree that the FRU service mutates: a global path -> node index in which
 * every node knows its parent link and owns a child map from name to child path.
 * Objects are identified by their path, so an `Object*` handle is modelled by the path
 * it was found under.
 */
module ObjectTree {
  import opened Wrappers

  /** The back-reference of a non-root node: its parent's path and its name there. */
  datatype Link = Link(parentPath: string, name: string)

  /** One object of the tree: its parent link (None for a root) and its child map. */
  datatype Node = Node(parent: Option<Link>, children: map<string, string>)

  type Tree = map<string, Node>

  /** The path a child named `name` of the object at `parent` has. */
  function ChildPath(parent: string, name: string): string {
    parent + "/" + name
  }

  /** Child entry `n` of `p` names an indexed object whose path and back-link agree. */
  ghost predicate ChildLinked(t: Tree, p: string, n: string)
    requires p in t && n in t[p].children
  {
    var c := t[p].children[n];
    c == ChildPath(p, n) && c in t && t[c].parent == Some(Link(p, n))
  }

  /** The parent of `q`, if any, is indexed and lists `q` under the recorded name. */
  ghost predicate ParentLinked(t: Tree, q: string)
    requires q in t
  {
    match t[q].parent
    case None => true
    case Some(l) =>
      l.parentPath in t && l.name in t[l.parentPath].children
      && t[l.parentPath].children[l.name] == q
  }

  /** The class invariant of the object tree. */
  ghost predicate TreeOk(t: Tree) {
    && (forall p, n :: p in t && n in t[p].children ==> ChildLinked(t, p, n))
    && (forall q :: q in t ==> ParentLinked(t, q))
  }

  ghost predicate IsRoot(t: Tree, r: string) {
    r in t && t[r].parent.None?
  }

  /** `q` is `a` or lies below `a`, following parent links upwards from `q`. */
  ghost predicate Under(t: Tree, a: string, q: string)
    decreases |q|
  {
    q == a
    || (&& q in t && t[q].parent.Some?
        && |t[q].parent.value.parentPath| < |q|
        && Under(t, a, t[q].parent.value.parentPath))
  }

  /** The paths of the object at `a` and of all its descendants. */
  ghost function Subtree(t: Tree, a: string): set<string> {
    set q | q in t && Under(t, a, q)
  }

  /** A set of paths that contains every child of each of its members. */
  ghost predicate DownClosed(t: Tree, r: set<string>) {
    forall q :: q in t && t[q].parent.Some? && t[q].parent.value.parentPath in r ==> q in r
  }

  /** The child map `m` without the entries that point into `r`. */
  function Without(m: map<string, string>, r: set<string>): map<string, string> {
    map n | n in m && m[n] !in r :: m[n]
  }

  /** The tree after the objects in `r` are deleted and unlinked from their parents. */
  function Removed(t: Tree, r: set<string>): Tree {
    map q | q in t && q !in r :: t[q].(children := Without(t[q].children, r))
  }

  /**
   * The path reached from `from` by following the child names `names`. Each step reads the
   * child map of an indexed object; the path it lands on is not looked up in the index.
   */
  function Walk(t: Tree, from: string, names: seq<string>): Option<string>
    decreases |names|
  {
    if names == [] then Some(from)
    else if from in t && names[0] in t[from].children then Walk(t, t[from].children[names[0]], names[1..])
    else None
  }

  /** `q` can be reached from some root by following child links. */
  ghost predicate Reachable(t: Tree, q: string) {
    exists r, names :: IsRoot(t, r) && Walk(t, r, names) == Some(q)
  }

  // ---------------------------------------------------------------------------
  // Ancestry

  /** An ancestor's path is never longer than its descendant's; hence no cycles. */
  lemma {:induction false} UnderShorter(t: Tree, a: string, q: string)
    requires Under(t, a, q)
    ensures |a| <= |q|
    ensures a != q ==> |a| < |q|
    decreases |q|
  {
    if q != a {
      UnderShorter(t, a, t[q].parent.value.parentPath);
    }
  }

  /** In a valid tree a parent link is strictly shorter than the child path. */
  lemma ParentShorter(t: Tree, q: string)
    requires TreeOk(t) && q in t && t[q].parent.Some?
    ensures t[q].parent.value.parentPath in t
    ensures |t[q].parent.value.parentPath| < |q|
  {
    assert ParentLinked(t, q);
    var l := t[q].parent.value;
    assert ChildLinked(t, l.parentPath, l.name);
  }

  /** The object reached from `q` by following `k` parent links, with no guard on path lengths. */
  function Ancestor(t: Tree, q: string, k: nat): Option<string>
    decreases k
  {
    if k == 0 then Some(q)
    else if q in t && t[q].parent.Some? then Ancestor(t, t[q].parent.value.parentPath, k - 1)
    else None
  }

  /**
   * In a valid tree, following one or more parent links from an indexed object lands on an
   * indexed object with a strictly shorter path, so the parent links never close a cycle.
   */
  lemma {:induction false} AncestorShorter(t: Tree, q: string, k: nat)
    requires TreeOk(t) && q in t && k >= 1 && Ancestor(t, q, k).Some?
    ensures Ancestor(t, q, k).value in t
    ensures |Ancestor(t, q, k).value| < |q|
    ensures Ancestor(t, q, k).value != q
    decreases k
  {
    ParentShorter(t, q);
    var p := t[q].parent.value.parentPath;
    if k > 1 {
      AncestorShorter(t, p, k - 1);
    }
  }

  /** Two parent links forming a cycle are possible only in a tree that breaks the invariant. */
  lemma ParentCycleBreaksInvariant()
    ensures var t := map["x" := Node(Some(Link("y", "a")), map[]), "y" := Node(Some(Link("x", "b")), map[])];
      Ancestor(t, "x", 2) == Some("x") && !TreeOk(t)
  {
    var t := map["x" := Node(Some(Link("y", "a")), map[]), "y" := Node(Some(Link("x", "b")), map[])];
    assert !ParentLinked(t, "x");
  }

  /** Every child of `p` lies below `p`, one step down. */
  lemma ChildUnder(t: Tree, p: string, n: string)
    requires TreeOk(t) && p in t && n in t[p].children
    ensures t[p].children[n] != p
    ensures t[t[p].children[n]].parent == Some(Link(p, n))
    ensures Under(t, p, t[p].children[n])
  {
    assert ChildLinked(t, p, n);
  }

  /** Being below a member of a down-closed set puts a path in that set. */
  lemma {:induction false} UnderClosed(t: Tree, r: set<string>, x: string, q: string)
    requires DownClosed(t, r) && x in r && Under(t, x, q)
    ensures q in r
    decreases |q|
  {
    if q != x {
      UnderClosed(t, r, x, t[q].parent.value.parentPath);
    }
  }

  /** Below-ness is transitive. */
  lemma {:induction false} UnderTrans(t: Tree, a: string, b: string, q: string)
    requires Under(t, a, b) && Under(t, b, q)
    ensures Under(t, a, q)
    decreases |q|
  {
    if q != b {
      UnderTrans(t, a, b, t[q].parent.value.parentPath);
    }
  }

  /** The ancestors of a path form a chain. */
  lemma {:induction false} UnderLinear(t: Tree, a: string, b: string, q: string)
    requires Under(t, a, q) && Under(t, b, q)
    ensures Under(t, a, b) || Under(t, b, a)
    decreases |q|
  {
    if q != a && q != b {
      UnderLinear(t, a, b, t[q].parent.value.parentPath);
    }
  }

  /** The subtrees of two distinct children of one object share no path. */
  lemma SiblingsDisjoint(t: Tree, p: string, n: string, m: string)
    requires TreeOk(t) && p in t && n in t[p].children && m in t[p].children && n != m
    ensures Subtree(t, t[p].children[n]) !! Subtree(t, t[p].children[m])
  {
    var cn, cm := t[p].children[n], t[p].children[m];
    ChildUnder(t, p, n);
    ChildUnder(t, p, m);
    forall q | q in Subtree(t, cn) && q in Subtree(t, cm)
      ensures false
    {
      UnderLinear(t, cn, cm, q);
      if Under(t, cn, cm) {
        assert Under(t, cn, p);
        UnderShorter(t, cn, p);
        UnderShorter(t, p, cn);
      } else {
        assert Under(t, cm, p);
        UnderShorter(t, cm, p);
        UnderShorter(t, p, cm);
      }
    }
  }

  /** Every subtree is down-closed. */
  lemma SubtreeDownClosed(t: Tree, a: string)
    requires TreeOk(t)
    ensures DownClosed(t, Subtree(t, a))
  {
    forall q | q in t && t[q].parent.Some? && t[q].parent.value.parentPath in Subtree(t, a)
      ensures q in Subtree(t, a)
    {
      ParentShorter(t, q);
    }
  }

  /** The object below `p` and distinct from it lies in exactly one child's subtree. */
  lemma {:induction false} TopChild(t: Tree, p: string, q: string) returns (n: string)
    requires TreeOk(t) && q in t && Under(t, p, q) && q != p
    ensures p in t && n in t[p].children && Under(t, t[p].children[n], q)
    decreases |q|
  {
    var l := t[q].parent.value;
    ParentShorter(t, q);
    assert ParentLinked(t, q);
    if l.parentPath == p {
      n := l.name;
    } else {
      n := TopChild(t, p, l.parentPath);
      assert Under(t, t[p].children[n], q);
    }
  }

  /** A subtree is its root plus the subtrees of the root's children. */
  lemma SubtreeSplit(t: Tree, p: string, q: string)
    requires TreeOk(t) && p in t
    ensures q in Subtree(t, p) <==>
      (q == p || exists n :: n in t[p].children && q in Subtree(t, t[p].children[n]))
  {
    if q in Subtree(t, p) && q != p {
      var n := TopChild(t, p, q);
    }
    if q != p && exists n :: n in t[p].children && q in Subtree(t, t[p].children[n]) {
      var n :| n in t[p].children && q in Subtree(t, t[p].children[n]);
      ChildUnder(t, p, n);
      UnderTrans(t, p, t[p].children[n], q);
    }
  }

  // ---------------------------------------------------------------------------
  // Removal

  /** Removing a down-closed set keeps the tree invariant. */
  lemma RemovedOk(t: Tree, r: set<string>)
    requires TreeOk(t) && DownClosed(t, r)
    ensures TreeOk(Removed(t, r))
  {
    var t' := Removed(t, r);
    forall p, n | p in t' && n in t'[p].children
      ensures ChildLinked(t', p, n)
    {
      assert ChildLinked(t, p, n);
    }
    forall q | q in t'
      ensures ParentLinked(t', q)
    {
      assert ParentLinked(t, q);
      if t[q].parent.Some? {
        var l := t[q].parent.value;
        assert l.parentPath !in r;
      }
    }
  }

  /** Removing nothing leaves the tree as it was. */
  lemma RemovedNothing(t: Tree)
    ensures Removed(t, {}) == t
  {
    forall q | q in t
      ensures Without(t[q].children, {}) == t[q].children
    {
    }
  }

  /** Removing two sets one after the other is removing their union. */
  lemma RemovedTwice(t: Tree, a: set<string>, b: set<string>)
    ensures Removed(Removed(t, a), b) == Removed(t, a + b)
  {
    var lhs, rhs := Removed(Removed(t, a), b), Removed(t, a + b);
    assert lhs.Keys == rhs.Keys;
    forall q | q in lhs
      ensures lhs[q] == rhs[q]
    {
      assert Without(Without(t[q].children, a), b) == Without(t[q].children, a + b);
    }
  }

  /** Removal keeps ancestry among the surviving paths. */
  lemma {:induction false} UnderAfterRemoval(t: Tree, r: set<string>, a: string, q: string)
    requires TreeOk(t) && DownClosed(t, r) && q in t && q !in r
    ensures Under(Removed(t, r), a, q) <==> Under(t, a, q)
    decreases |q|
  {
    if q != a && t[q].parent.Some? {
      var pp := t[q].parent.value.parentPath;
      ParentShorter(t, q);
      assert pp !in r;
      UnderAfterRemoval(t, r, a, pp);
    }
  }

  /** A subtree that avoids the removed set survives the removal unchanged. */
  lemma SubtreeAfterRemoval(t: Tree, r: set<string>, c: string)
    requires TreeOk(t) && DownClosed(t, r) && Subtree(t, c) !! r
    ensures Subtree(Removed(t, r), c) == Subtree(t, c)
  {
    forall q | q in Subtree(t, c)
      ensures q in Subtree(Removed(t, r), c)
    {
      UnderAfterRemoval(t, r, c, q);
    }
    forall q | q in Subtree(Removed(t, r), c)
      ensures q in Subtree(t, c)
    {
      UnderAfterRemoval(t, r, c, q);
    }
  }

  /**
   * Deleting the subtree at `p` removes exactly that subtree's paths; every other object
   * keeps its parent link and its child map, except that p's parent loses the entry for p.
   */
  lemma PruneEffect(t: Tree, p: string, q: string)
    requires TreeOk(t) && p in t
    ensures p !in Removed(t, Subtree(t, p))
    ensures q in Removed(t, Subtree(t, p)) <==> q in t && !Under(t, p, q)
    ensures q in t && !Under(t, p, q) ==>
      var n := Removed(t, Subtree(t, p))[q];
      && n.parent == t[q].parent
      && n.children == (if t[p].parent.Some? && t[p].parent.value.parentPath == q
                        then t[q].children - {t[p].parent.value.name}
                        else t[q].children)
  {
    var s := Subtree(t, p);
    if q in t && !Under(t, p, q) {
      var m := t[q].children;
      var w := Without(m, s);
      forall k | k in m
        ensures (k in w <==> !(t[p].parent == Some(Link(q, k))))
      {
        ChildUnder(t, q, k);
        assert ParentLinked(t, p);
      }
      if t[p].parent.Some? && t[p].parent.value.parentPath == q {
        assert w == m - {t[p].parent.value.name};
      } else {
        assert w == m;
      }
    }
  }

  /** Deleting a subtree of a valid tree removes exactly as many objects as it has. */
  lemma PruneCount(t: Tree, p: string)
    requires TreeOk(t) && p in t
    ensures |Removed(t, Subtree(t, p)).Keys| == |t.Keys| - |Subtree(t, p)|
  {
    assert Removed(t, Subtree(t, p)).Keys == t.Keys - Subtree(t, p);
  }

  /**
   * Clearing the children of `p` keeps `p`, now childless, and leaves every object outside
   * p's subtree exactly as it was.
   */
  lemma ResetEffect(t: Tree, p: string, q: string)
    requires TreeOk(t) && p in t
    ensures p in Removed(t, Subtree(t, p) - {p})
    ensures Removed(t, Subtree(t, p) - {p})[p] == t[p].(children := map[])
    ensures q in t && !Under(t, p, q) ==>
      q in Removed(t, Subtree(t, p) - {p}) && Removed(t, Subtree(t, p) - {p})[q] == t[q]
  {
    var s := Subtree(t, p) - {p};
    forall k | k in t[p].children
      ensures t[p].children[k] in s
    {
      ChildUnder(t, p, k);
    }
    assert Without(t[p].children, s) == map[];
    if q in t && !Under(t, p, q) {
      forall k | k in t[q].children
        ensures t[q].children[k] !in s
      {
        ChildUnder(t, q, k);
      }
      assert Without(t[q].children, s) == t[q].children;
    }
  }

  // ---------------------------------------------------------------------------
  // Index and topology agree

  /** In a valid tree no child link dangles: a walk from an indexed object ends on an indexed object. */
  lemma {:induction false} WalkIndexed(t: Tree, from: string, names: seq<string>)
    requires TreeOk(t) && from in t
    ensures Walk(t, from, names).Some? ==> Walk(t, from, names).value in t
    decreases |names|
  {
    if names != [] && names[0] in t[from].children {
      assert ChildLinked(t, from, names[0]);
      WalkIndexed(t, t[from].children[names[0]], names[1..]);
    }
  }

  /** Without the tree invariant a child entry can dangle, and a walk then ends off the index. */
  lemma DanglingLinkIsWalked()
    ensures var t := map["r" := Node(None, map["c" := "r/c"])];
      Walk(t, "r", ["c"]) == Some("r/c") && "r/c" !in t && !TreeOk(t)
  {
    var t := map["r" := Node(None, map["c" := "r/c"])];
    assert !ChildLinked(t, "r", "c");
  }

  lemma {:induction false} WalkExtend(t: Tree, from: string, names: seq<string>, x: string, n: string)
    requires Walk(t, from, names) == Some(x) && x in t && n in t[x].children
    ensures Walk(t, from, names + [n]) == Walk(t, t[x].children[n], [])
    decreases |names|
  {
    if names != [] {
      assert (names + [n])[1..] == names[1..] + [n];
      WalkExtend(t, t[from].children[names[0]], names[1..], x, n);
    }
  }

  /** Every indexed object has a path of child links from a root. */
  lemma {:induction false} RouteFromRoot(t: Tree, q: string) returns (r: string, names: seq<string>)
    requires TreeOk(t) && q in t
    ensures IsRoot(t, r) && Walk(t, r, names) == Some(q)
    decreases |q|
  {
    match t[q].parent
    case None =>
      r, names := q, [];
    case Some(l) =>
      ParentShorter(t, q);
      assert ParentLinked(t, q);
      assert ChildLinked(t, l.parentPath, l.name);
      var names';
      r, names' := RouteFromRoot(t, l.parentPath);
      WalkExtend(t, r, names', l.parentPath, l.name);
      names := names' + [l.name];
  }

  /** The index holds exactly the objects reachable from the roots. */
  lemma IndexIsReachable(t: Tree, q: string)
    requires TreeOk(t)
    ensures q in t <==> Reachable(t, q)
  {
    if q in t {
      var r, names := RouteFromRoot(t, q);
    }
    if Reachable(t, q) {
      var r, names :| IsRoot(t, r) && Walk(t, r, names) == Some(q);
      WalkIndexed(t, r, names);
    }
  }

  // ---------------------------------------------------------------------------

  /** The FruObjectTree: the shared index that the service's handlers mutate. */
  class FruObjectTree {
    var index: Tree

    ghost predicate Valid()
      reads this
    {
      TreeOk(index)
    }

    constructor ()
      ensures Valid() && index == map[]
    {
      index := map[];
    }

    /** getObject: the object at `path`, or None where the library returns nullptr. */
    function GetObject(path: string): (r: Option<Node>)
      reads this
      ensures r.Some? <==> path in index
      ensures r.Some? ==> r.value == index[path]
    {
      if path in index then Some(index[path]) else None
    }

    /** getChildMap: a copy of the child map of the object at `path`. */
    method GetChildMap(path: string) returns (m: map<string, string>)
      requires path in index
      ensures m == index[path].children
    {
      m := index[path].children;
    }

    /**
     * deleteObjectByPath: removes one childless object from the index and from its
     * parent's child map. A missing path or an object that still has children is refused.
     */
    method DeleteObjectByPath(path: string) returns (ok: bool)
      requires Valid()
      modifies this
      ensures Valid()
      ensures ok <==> path in old(index) && old(index)[path].children == map[]
      ensures index == if ok then Removed(old(index), {path}) else old(index)
    {
      if path !in index || index[path].children != map[] {
        return false;
      }
      var t := index;
      var t' := t - {path};
      match t[path].parent {
        case None =>
        case Some(l) =>
          assert ParentLinked(t, path);
          var pn := t'[l.parentPath];
          t' := t'[l.parentPath := pn.(children := pn.children - {l.name})];
      }
      forall q | q in t' ensures t'[q] == Removed(t, {path})[q] {
        forall k | k in t[q].children
          ensures (t[q].children[k] == path <==> t[path].parent == Some(Link(q, k)))
        {
          assert ChildLinked(t, q, k);
          if t[path].parent == Some(Link(q, k)) {
            assert ParentLinked(t, path);
          }
        }
      }
      assert t'.Keys == Removed(t, {path}).Keys;
      assert DownClosed(t, {path});
      RemovedOk(t, {path});
      index := t';
      ok := true;
    }
  }
}
