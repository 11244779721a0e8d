/**
 * The D-Bus FRU service handlers: recursive subtree deletion over snapshotted child maps,
 * resetTree, removeFRU, addFRU and the method-name dispatch, all acting on the shared
 * FruObjectTree.
 */
module FruService {
  import opened Wrappers
  import opened ObjectTree

  /** What a handler reports back to the caller. */
  datatype Status = Done | NotFound | InvalidDescription

  /** A parsed FRU description: a named node with properties and nested children. */
  datatype FruJson = FruJson(name: string, properties: map<string, string>, children: seq<FruJson>)

  /** The arguments a call carries, already unpacked from its GVariant. */
  datatype Params = Params(fruParentPath: string, fruJsonString: string, fruName: string)

  /** The handler a method name is routed to. */
  datatype Handler = AddFruHandler | ResetTreeHandler | RemoveFruHandler | NoHandler

  ghost predicate Distinct<T>(s: seq<T>) {
    forall i, j :: 0 <= i < j < |s| ==> s[i] != s[j]
  }

  /** Every path in `order` comes after all of its proper descendants (in tree `t`). */
  ghost predicate PostOrder(t: Tree, order: seq<string>) {
    forall i, j :: 0 <= i < |order| && 0 <= j < |order| && i != j && Under(t, order[i], order[j]) ==> j < i
  }

  /** Appending the deletions made in a pruned copy of `t` to those made before keeps post-order. */
  lemma PostOrderAppend(t: Tree, d: set<string>, a: seq<string>, b: seq<string>)
    requires TreeOk(t) && DownClosed(t, d)
    requires forall x :: x in a ==> x in d
    requires forall x :: x in b ==> x in t && x !in d
    requires PostOrder(t, a) && PostOrder(Removed(t, d), b)
    ensures PostOrder(t, a + b)
  {
    var ab := a + b;
    forall i, j | 0 <= i < |ab| && 0 <= j < |ab| && i != j && Under(t, ab[i], ab[j])
      ensures j < i
    {
      if i < |a| && j >= |a| {
        UnderClosed(t, d, ab[i], ab[j]);
      } else if i >= |a| && j >= |a| {
        UnderAfterRemoval(t, d, ab[i], ab[j]);
        assert Under(Removed(t, d), b[i - |a|], b[j - |a|]);
      }
    }
  }

  /**
   * The loop of deleteSubtree and of resetTree: take a copy of the child map of `path`, then
   * delete the subtree of every child in that copy. `path` itself stays, now childless.
   * `visited` lists the child names in the order the loop takes them, `order` the paths in
   * the order they were handed to deleteObjectByPath.
   */
  method DeleteChildSubtrees(tree: FruObjectTree, path: string)
    returns (ghost visited: seq<string>, ghost order: seq<string>)
    requires tree.Valid() && path in tree.index
    modifies tree
    decreases Subtree(tree.index, path), 0
    ensures tree.Valid()
    ensures tree.index == Removed(old(tree.index), Subtree(old(tree.index), path) - {path})
    ensures Distinct(visited) && forall n :: n in visited <==> n in old(tree.index)[path].children
    ensures forall q :: q in order <==> q in Subtree(old(tree.index), path) && q != path
    ensures Distinct(order) && PostOrder(old(tree.index), order)
  {
    ghost var t0 := tree.index;
    var childMap := tree.GetChildMap(path);
    var todo := childMap.Keys;
    ghost var d: set<string> := {};
    visited, order := [], [];
    RemovedNothing(t0);
    while todo != {}
      invariant ChildLoopInv(t0, path, todo, d, order)
      invariant tree.Valid() && tree.index == Removed(t0, d)
      invariant Distinct(visited) && forall n :: n in visited <==> n in childMap && n !in todo
      decreases todo
    {
      var n :| n in todo;
      var child := childMap[n];
      BeforeChild(t0, path, todo, d, order, n);
      var o := DeleteSubtree(tree, child);
      AfterChild(t0, path, todo, d, order, n, o);
      d := d + Subtree(t0, child);
      order := order + o;
      visited := visited + [n];
      todo := todo - {n};
    }
    LoopDone(t0, path, d, order);
  }

  /**
   * What the loop over the copied child map of `path` keeps: `d` is the set deleted so far,
   * the union of the subtrees of the children already taken, and `order` lists `d` in
   * post-order; the children still to do are disjoint from `d`.
   */
  ghost predicate ChildLoopInv(t0: Tree, path: string, todo: set<string>, d: set<string>, order: seq<string>) {
    && TreeOk(t0) && path in t0 && todo <= t0[path].children.Keys
    && DownClosed(t0, d)
    && (forall q :: q in d ==> q in Subtree(t0, path) && q != path)
    && (forall n :: n in t0[path].children && n !in todo ==> Subtree(t0, t0[path].children[n]) <= d)
    && (forall n :: n in todo ==> Subtree(t0, t0[path].children[n]) !! d)
    && Distinct(order) && PostOrder(t0, order) && (forall q :: q in order <==> q in d)
  }

  /** The next child is still indexed, its subtree is as it was, and strictly inside path's. */
  lemma BeforeChild(t0: Tree, path: string, todo: set<string>, d: set<string>, order: seq<string>, n: string)
    requires ChildLoopInv(t0, path, todo, d, order) && n in todo
    ensures TreeOk(Removed(t0, d))
    ensures t0[path].children[n] in Removed(t0, d)
    ensures Subtree(Removed(t0, d), t0[path].children[n]) == Subtree(t0, t0[path].children[n])
    ensures Subtree(t0, t0[path].children[n]) < Subtree(t0, path)
  {
    var child := t0[path].children[n];
    RemovedOk(t0, d);
    ChildUnder(t0, path, n);
    SubtreeAfterRemoval(t0, d, child);
    ChildSubtreeInside(t0, path, n);
    assert path in Subtree(t0, path);
  }

  /** The subtree of a child lies strictly below its parent. */
  lemma ChildSubtreeInside(t0: Tree, path: string, n: string)
    requires TreeOk(t0) && path in t0 && n in t0[path].children
    ensures forall q :: q in Subtree(t0, t0[path].children[n]) ==> q in Subtree(t0, path) && q != path
  {
    var child := t0[path].children[n];
    ChildUnder(t0, path, n);
    forall q | q in Subtree(t0, child)
      ensures q in Subtree(t0, path) && q != path
    {
      UnderTrans(t0, path, child, q);
      UnderShorter(t0, child, q);
    }
  }

  /** Once the next child's subtree is deleted, the loop invariant holds for the rest. */
  lemma AfterChild(t0: Tree, path: string, todo: set<string>, d: set<string>, order: seq<string>,
                   n: string, o: seq<string>)
    requires ChildLoopInv(t0, path, todo, d, order) && n in todo
    requires var t1 := Removed(t0, d);
      && (forall q :: q in o <==> q in Subtree(t1, t0[path].children[n]))
      && Distinct(o) && PostOrder(t1, o)
    ensures var child := t0[path].children[n];
      && ChildLoopInv(t0, path, todo - {n}, d + Subtree(t0, child), order + o)
      && Removed(Removed(t0, d), Subtree(Removed(t0, d), child)) == Removed(t0, d + Subtree(t0, child))
  {
    var child := t0[path].children[n];
    var s := Subtree(t0, child);
    BeforeChild(t0, path, todo, d, order, n);
    SubtreeDownClosed(t0, child);
    ChildSubtreeInside(t0, path, n);
    RemovedTwice(t0, d, s);
    forall m | m in todo && m != n
      ensures Subtree(t0, t0[path].children[m]) !! s
    {
      SiblingsDisjoint(t0, path, m, n);
    }
    PostOrderAppend(t0, d, order, o);
    var o' := order + o;
    forall i, j | 0 <= i < j < |o'|
      ensures o'[i] != o'[j]
    {
      if i < |order| && j >= |order| {
        assert o'[i] in d && o'[j] in s;
      }
    }
  }

  /** When every child is done, the deleted set is path's subtree without path. */
  lemma LoopDone(t0: Tree, path: string, d: set<string>, order: seq<string>)
    requires ChildLoopInv(t0, path, {}, d, order)
    ensures d == Subtree(t0, path) - {path}
  {
    forall q | q in Subtree(t0, path) && q != path
      ensures q in d
    {
      var n := TopChild(t0, path, q);
    }
  }

  /** Deleting `path` after everything below it keeps post-order. */
  lemma PostOrderLast(t: Tree, order: seq<string>, path: string)
    requires forall q :: q in order ==> q in Subtree(t, path) && q != path
    requires PostOrder(t, order)
    ensures PostOrder(t, order + [path])
  {
    var o := order + [path];
    forall i, j | 0 <= i < |o| && 0 <= j < |o| && i != j && Under(t, o[i], o[j])
      ensures j < i
    {
      if j == |order| {
        assert o[i] in order;
        UnderShorter(t, path, o[i]);
        UnderShorter(t, o[i], path);
      }
    }
  }

  /**
   * deleteSubtree: deletes the children's subtrees first, then the object itself, so that
   * every call to deleteObjectByPath is made on an object that no longer has children.
   */
  method DeleteSubtree(tree: FruObjectTree, path: string) returns (ghost order: seq<string>)
    requires tree.Valid() && path in tree.index
    modifies tree
    decreases Subtree(tree.index, path), 1
    ensures tree.Valid()
    ensures tree.index == Removed(old(tree.index), Subtree(old(tree.index), path))
    ensures forall q :: q in order <==> q in Subtree(old(tree.index), path)
    ensures Distinct(order) && PostOrder(old(tree.index), order)
    ensures |order| > 0 && order[|order| - 1] == path
  {
    ghost var t0 := tree.index;
    ghost var visited;
    visited, order := DeleteChildSubtrees(tree, path);
    ghost var t1 := tree.index;
    ResetEffect(t0, path, path);
    assert path in t1 && t1[path].children == map[];
    var ok := tree.DeleteObjectByPath(path);
    assert ok;
    RemovedTwice(t0, Subtree(t0, path) - {path}, {path});
    assert Subtree(t0, path) - {path} + {path} == Subtree(t0, path);
    PostOrderLast(t0, order, path);
    order := order + [path];
  }

  /**
   * resetTree: deletes every child subtree of the object the call was addressed to and
   * keeps that object. A path with no object is reported as NotFound.
   */
  method ResetTree(tree: FruObjectTree, objectPath: string) returns (s: Status)
    requires tree.Valid()
    modifies tree
    ensures tree.Valid()
    ensures s == (if objectPath in old(tree.index) then Done else NotFound)
    ensures s == NotFound ==> tree.index == old(tree.index)
    ensures s == Done ==>
      tree.index == Removed(old(tree.index), Subtree(old(tree.index), objectPath) - {objectPath})
  {
    var obj := tree.GetObject(objectPath);
    if obj.None? {
      return NotFound;
    }
    ghost var visited, order := DeleteChildSubtrees(tree, objectPath);
    s := Done;
  }

  /** removeFRU: deletes the subtree at `objectPath + "/" + fruName`. */
  method RemoveFru(tree: FruObjectTree, objectPath: string, fruName: string) returns (s: Status)
    requires tree.Valid()
    modifies tree
    ensures tree.Valid()
    ensures s == (if ChildPath(objectPath, fruName) in old(tree.index) then Done else NotFound)
    ensures s == NotFound ==> tree.index == old(tree.index)
    ensures s == Done ==>
      tree.index == Removed(old(tree.index), Subtree(old(tree.index), ChildPath(objectPath, fruName)))
  {
    var target := objectPath + "/" + fruName;
    var obj := tree.GetObject(target);
    if obj.None? {
      return NotFound;
    }
    ghost var order := DeleteSubtree(tree, target);
    s := Done;
  }

  /**
   * When `fruName` is a child of the object at `objectPath`, removeFRU deletes exactly that
   * child's subtree: the object at `objectPath` stays and loses only that one entry, and the
   * subtrees of its other children are all still indexed.
   */
  lemma RemoveFruKeepsSiblings(t: Tree, objectPath: string, fruName: string)
    requires TreeOk(t) && objectPath in t && fruName in t[objectPath].children
    ensures ChildPath(objectPath, fruName) in t
    ensures var t' := Removed(t, Subtree(t, ChildPath(objectPath, fruName)));
      && objectPath in t'
      && t'[objectPath].children == t[objectPath].children - {fruName}
      && forall m, q :: m in t[objectPath].children && m != fruName && q in Subtree(t, t[objectPath].children[m])
           ==> q in t' && t'[q] == t[q]
  {
    var target := ChildPath(objectPath, fruName);
    ChildUnder(t, objectPath, fruName);
    UnderShorter(t, objectPath, target);
    if Under(t, target, objectPath) {
      UnderShorter(t, target, objectPath);
    }
    PruneEffect(t, target, objectPath);
    forall m, q | m in t[objectPath].children && m != fruName && q in Subtree(t, t[objectPath].children[m])
      ensures q in Removed(t, Subtree(t, target)) && Removed(t, Subtree(t, target))[q] == t[q]
    {
      SiblingsDisjoint(t, objectPath, m, fruName);
      ChildUnder(t, objectPath, m);
      assert q !in Subtree(t, target);
      PruneEffect(t, target, q);
    }
  }

  /**
   * addFRU: parses the JSON string first and hands the document to the tree builder under
   * `fruParentPath` only when parsing succeeded; a string that does not parse leaves the
   * tree as it was. `parse` and `build` stand for the JSON library and for the FRU tree
   * builder, whose code is not part of this model.
   */
  method AddFru(tree: FruObjectTree, objectPath: string, fruParentPath: string, fruJsonString: string,
                parse: string -> Option<FruJson>, build: (Tree, FruJson, string) -> Tree)
    returns (s: Status)
    requires tree.Valid()
    requires forall t, j, p :: TreeOk(t) ==> TreeOk(build(t, j, p))
    modifies tree
    ensures tree.Valid()
    ensures s == (if parse(fruJsonString).Some? then Done else InvalidDescription)
    ensures s == InvalidDescription ==> tree.index == old(tree.index)
    ensures s == Done ==> tree.index == build(old(tree.index), parse(fruJsonString).value, fruParentPath)
  {
    var jObject := parse(fruJsonString);
    if jObject.None? {
      return InvalidDescription;
    }
    tree.index := build(tree.index, jObject.value, fruParentPath);
    s := Done;
  }

  /** The handler that methodCallBack routes a method name to. */
  function Route(methodName: string): (h: Handler)
    ensures h == AddFruHandler <==> methodName == "addFRU"
    ensures h == ResetTreeHandler <==> methodName == "resetTree"
    ensures h == RemoveFruHandler <==> methodName == "removeFRU"
    ensures h == NoHandler <==> methodName !in {"addFRU", "resetTree", "removeFRU"}
  {
    if methodName == "addFRU" then AddFruHandler
    else if methodName == "resetTree" then ResetTreeHandler
    else if methodName == "removeFRU" then RemoveFruHandler
    else NoHandler
  }

  /**
   * methodCallBack: runs exactly the handler its method name selects; any other name
   * changes nothing and sends no reply.
   */
  method MethodCallBack(tree: FruObjectTree, objectPath: string, methodName: string, params: Params,
                        parse: string -> Option<FruJson>, build: (Tree, FruJson, string) -> Tree)
    returns (reply: Option<Status>)
    requires tree.Valid()
    requires forall t, j, p :: TreeOk(t) ==> TreeOk(build(t, j, p))
    modifies tree
    ensures tree.Valid()
    ensures reply.None? <==> Route(methodName) == NoHandler
    ensures reply.None? ==> tree.index == old(tree.index)
    ensures Route(methodName) == AddFruHandler ==>
      reply == Some(if parse(params.fruJsonString).Some? then Done else InvalidDescription)
    ensures Route(methodName) == ResetTreeHandler ==>
      reply == Some(if objectPath in old(tree.index) then Done else NotFound)
    ensures Route(methodName) == RemoveFruHandler ==>
      reply == Some(if ChildPath(objectPath, params.fruName) in old(tree.index) then Done else NotFound)
    ensures reply == Some(NotFound) || reply == Some(InvalidDescription) ==> tree.index == old(tree.index)
    ensures Route(methodName) == AddFruHandler && parse(params.fruJsonString).Some? ==>
      tree.index == build(old(tree.index), parse(params.fruJsonString).value, params.fruParentPath)
    ensures Route(methodName) == ResetTreeHandler && objectPath in old(tree.index) ==>
      tree.index == Removed(old(tree.index), Subtree(old(tree.index), objectPath) - {objectPath})
    ensures Route(methodName) == RemoveFruHandler && ChildPath(objectPath, params.fruName) in old(tree.index) ==>
      tree.index == Removed(old(tree.index), Subtree(old(tree.index), ChildPath(objectPath, params.fruName)))
  {
    var s: Status;
    match Route(methodName) {
      case AddFruHandler =>
        s := AddFru(tree, objectPath, params.fruParentPath, params.fruJsonString, parse, build);
      case ResetTreeHandler =>
        s := ResetTree(tree, objectPath);
      case RemoveFruHandler =>
        s := RemoveFru(tree, objectPath, params.fruName);
      case NoHandler =>
        return None;
    }
    reply := Some(s);
  }
}
