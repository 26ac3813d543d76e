/**
 The parent/child hierarchy of engine objects: `addChild`, `removeChild`
 and the recursive `destroy`. The engine checks the preconditions of
 `addChild` and `removeChild` only with `ASSERT`, which does nothing in a
 release build, so both are modelled as total operations with the release
 behaviour, and their properties are stated under the asserted condition.
 */
module Hierarchy {
  import opened Scalar
  import opened Wrappers
  import opened Objects

  /** `indexOf`: the first position of `c`, or -1. */
  function IndexOf(s: seq<Handle>, c: Handle): (i: int)
    ensures -1 <= i < |s|
    ensures i >= 0 ==> s[i] == c && forall j | 0 <= j < i :: s[j] != c
    ensures i == -1 <==> c !in s
  {
    if |s| == 0 then -1
    else if s[0] == c then 0
    else
      var k := IndexOf(s[1..], c);
      if k == -1 then -1 else k + 1
  }

  /** `splice(i, 1)`: removes the entry at `i`; a negative index counts
      from the end, so -1 removes the last entry of a non-empty list. */
  function SpliceOne(s: seq<Handle>, i: int): (r: seq<Handle>)
    requires -1 <= i < |s|
    ensures i >= 0 ==> |r| == |s| - 1 && multiset(r) == multiset(s) - multiset{s[i]}
    ensures i == -1 ==> r == (if |s| == 0 then s else s[..|s| - 1])
    ensures forall x | x in r :: x in s
  {
    if |s| == 0 then s
    else
      var j := if i >= 0 then i else |s| - 1;
      SpliceAt(s, j);
      assert s[j + 1..] == [] ==> s[..j] + s[j + 1..] == s[..j];
      s[..j] + s[j + 1..]
  }

  lemma SpliceAt(s: seq<Handle>, i: nat)
    requires i < |s|
    ensures var r := s[..i] + s[i + 1..];
      |r| == |s| - 1 && multiset(r) == multiset(s) - multiset{s[i]} && forall x | x in r :: x in s
  {
    assert s == s[..i] + [s[i]] + s[i + 1..];
    assert multiset(s) == multiset(s[..i]) + multiset{s[i]} + multiset(s[i + 1..]);
    var r := s[..i] + s[i + 1..];
    forall x | x in r ensures x in s {
      assert x in multiset(r);
    }
  }

  /** `addChild`: appends the child to the parent's list, then points the
      child at its parent with the given local transform. */
  function AddChild(objs: Registry, p: Handle, c: Handle, localPos: Vec2, localAngle: real): (r: Registry)
    requires p in objs && c in objs
    ensures r.Keys == objs.Keys
    ensures r[p].children == objs[p].children + [c]
    ensures r[c].parent == Some(p) && r[c].localPos == localPos && r[c].localAngle == localAngle
    ensures forall k | k in objs && k != p && k != c :: r[k] == objs[k]
  {
    var grown := objs[p := objs[p].(children := objs[p].children + [c])];
    grown[c := grown[c].(parent := Some(p), localPos := localPos, localAngle := localAngle)]
  }

  /** `removeChild`: splices the child's first occurrence out of the
      parent's list and clears the child's parent. */
  function RemoveChild(objs: Registry, p: Handle, c: Handle): (r: Registry)
    requires p in objs && c in objs
    ensures r.Keys == objs.Keys
    ensures r[c].parent.None?
    ensures c in objs[p].children ==>
      multiset(r[p].children) == multiset(objs[p].children) - multiset{c}
    ensures forall x | x in r[p].children :: x in objs[p].children
    ensures forall k | k in objs && k != p && k != c :: r[k] == objs[k]
  {
    var kids := objs[p].children;
    var rest := SpliceOne(kids, IndexOf(kids, c));
    SpliceOf(kids, c);
    var shrunk := objs[p := objs[p].(children := rest)];
    shrunk[c := shrunk[c].(parent := None)]
  }

  /** What splicing out the first occurrence of `c` leaves. */
  lemma SpliceOf(kids: seq<Handle>, c: Handle)
    ensures var rest := SpliceOne(kids, IndexOf(kids, c));
      && (c in kids ==> multiset(rest) == multiset(kids) - multiset{c})
      && forall x | x in rest :: x in kids
  {
  }

  /** Apart from the two lists and links `removeChild` edits, nothing
      changes: every flag, mass and ground link stays. */
  lemma RemoveChildKeepsChild(objs: Registry, p: Handle, c: Handle)
    requires p in objs && c in objs
    ensures RemoveChild(objs, p, c)[c].(parent := objs[c].parent, children := objs[c].children) == objs[c]
  {
  }

  lemma RemoveChildKeepsParent(objs: Registry, p: Handle, c: Handle)
    requires p in objs && c in objs
    ensures RemoveChild(objs, p, c)[p].(children := objs[p].children, parent := objs[p].parent) == objs[p]
  {
  }

  /** Removing a child destroys nothing and only shortens one list. */
  lemma RemoveChildFlags(objs: Registry, p: Handle, c: Handle)
    requires p in objs && c in objs
    ensures Undestroyed(RemoveChild(objs, p, c)) == Undestroyed(objs)
    ensures ListsShrink(objs, RemoveChild(objs, p, c))
  {
    var r := RemoveChild(objs, p, c);
    RemoveChildKeepsChild(objs, p, c);
    RemoveChildKeepsParent(objs, p, c);
    RemoveChildLinks(objs, p, c);
    forall k | k in r ensures r[k].destroyed == objs[k].destroyed {
      if k == c {
        assert r[c].destroyed == objs[c].destroyed;
      } else if k == p {
        assert r[p].destroyed == objs[p].destroyed;
      }
    }
    SameFlags(objs, r);
  }

  /** Removing a child keeps the registry closed. */
  lemma RemoveChildClosed(objs: Registry, p: Handle, c: Handle)
    requires p in objs && c in objs && Closed(objs)
    ensures Closed(RemoveChild(objs, p, c))
  {
    var r := RemoveChild(objs, p, c);
    RemoveChildKeepsChild(objs, p, c);
    RemoveChildKeepsParent(objs, p, c);
    RemoveChildLinks(objs, p, c);
    forall k | k in r ensures Refers(r, r[k]) {
      assert Refers(objs, objs[k]);
    }
  }

  // ---------------------------------------------------------------------
  // The asserted conditions

  /** Attaching a parentless child that is not yet listed keeps parent and
      child links in agreement. */
  lemma AddChildLinked(objs: Registry, p: Handle, c: Handle, localPos: Vec2, localAngle: real)
    requires p in objs && c in objs && Linked(objs)
    requires objs[c].parent.None? && c !in objs[p].children
    ensures Linked(AddChild(objs, p, c, localPos, localAngle))
  {
    AddChildLinks(objs, p, c, localPos, localAngle);
    assert Attached(objs, AddChild(objs, p, c, localPos, localAngle), p, c);
    AttachLinked(objs, AddChild(objs, p, c, localPos, localAngle), p, c);
  }

  /** The links `addChild` leaves: one list grows, one parent is set. */
  lemma AddChildLinks(objs: Registry, p: Handle, c: Handle, localPos: Vec2, localAngle: real)
    requires p in objs && c in objs
    ensures var r := AddChild(objs, p, c, localPos, localAngle);
      forall k | k in objs ::
        && r[k].children == (if k == p then objs[p].children + [c] else objs[k].children)
        && r[k].parent == (if k == c then Some(p) else objs[k].parent)
  {
  }

  /** `r` has the links of `objs` with `c` appended to `p`'s list and
      pointed at `p`. */
  ghost predicate Attached(objs: Registry, r: Registry, p: Handle, c: Handle)
    requires p in objs
  {
    && r.Keys == objs.Keys
    && forall k | k in objs ::
         && r[k].children == (if k == p then objs[p].children + [c] else objs[k].children)
         && r[k].parent == (if k == c then Some(p) else objs[k].parent)
  }

  lemma AttachLinked(objs: Registry, r: Registry, p: Handle, c: Handle)
    requires p in objs && c in objs && Linked(objs) && Attached(objs, r, p, c)
    requires objs[c].parent.None? && c !in objs[p].children
    ensures Linked(r)
  {
    AttachPointBack(objs, r, p, c);
    AttachParentsList(objs, r, p, c);
    AttachUnique(objs, r, p, c);
  }

  lemma AttachPointBack(objs: Registry, r: Registry, p: Handle, c: Handle)
    requires p in objs && c in objs && ChildrenPointBack(objs) && Attached(objs, r, p, c)
    requires objs[c].parent.None?
    ensures ChildrenPointBack(r)
  {
    forall q, x | q in r && x in r[q].children ensures x in r && r[x].parent == Some(q) {
      if q == p {
        assert x == c || x in objs[p].children;
      } else {
        assert x in objs[q].children;
      }
    }
  }

  lemma AttachUnique(objs: Registry, r: Registry, p: Handle, c: Handle)
    requires p in objs && ListsUnique(objs) && Attached(objs, r, p, c)
    requires c !in objs[p].children
    ensures ListsUnique(r)
  {
    forall q | q in r ensures NoDuplicates(r[q].children) {
      assert NoDuplicates(objs[q].children);
    }
  }

  lemma AttachParentsList(objs: Registry, r: Registry, p: Handle, c: Handle)
    requires p in objs && c in objs && ParentsList(objs) && Attached(objs, r, p, c)
    ensures ParentsList(r)
  {
    forall x | x in r && r[x].parent.Some? ensures r[x].parent.value in r && x in r[r[x].parent.value].children {
      if x != c {
        var q := objs[x].parent.value;
        assert x in objs[q].children;
      }
    }
  }

  /** Detaching a child from its parent keeps the links in agreement: the
      single listing of the child is the one removed. */
  lemma RemoveChildLinked(objs: Registry, p: Handle, c: Handle)
    requires p in objs && c in objs && Linked(objs)
    requires objs[c].parent == Some(p)
    ensures Linked(RemoveChild(objs, p, c))
  {
    var kids := objs[p].children;
    assert c in kids;
    SpliceNoDuplicates(kids, IndexOf(kids, c));
    RemoveChildLinks(objs, p, c);
    assert Removed(objs, RemoveChild(objs, p, c), p, c, SpliceOne(kids, IndexOf(kids, c)));
    DetachLinked(objs, RemoveChild(objs, p, c), p, c, SpliceOne(kids, IndexOf(kids, c)));
  }

  /** The links `removeChild` leaves: one list is spliced, one parent is
      cleared. */
  lemma RemoveChildLinks(objs: Registry, p: Handle, c: Handle)
    requires p in objs && c in objs
    ensures var r := RemoveChild(objs, p, c);
      var kids := objs[p].children;
      forall k | k in objs ::
        && r[k].children == (if k == p then SpliceOne(kids, IndexOf(kids, c)) else objs[k].children)
        && r[k].parent == (if k == c then None else objs[k].parent)
  {
  }

  /** `r` has the links of `objs` with `p`'s list replaced by `rest`,
      which holds the same entries without `c` and without repeats, and
      with `c` pointing nowhere. */
  ghost predicate Removed(objs: Registry, r: Registry, p: Handle, c: Handle, rest: seq<Handle>)
    requires p in objs
  {
    && r.Keys == objs.Keys
    && NoDuplicates(rest) && c !in rest
    && (forall x | x in objs[p].children && x != c :: x in rest)
    && (forall x | x in rest :: x in objs[p].children)
    && forall k | k in objs ::
         && r[k].children == (if k == p then rest else objs[k].children)
         && r[k].parent == (if k == c then None else objs[k].parent)
  }

  lemma DetachLinked(objs: Registry, r: Registry, p: Handle, c: Handle, rest: seq<Handle>)
    requires p in objs && c in objs && Linked(objs) && Removed(objs, r, p, c, rest)
    requires objs[c].parent == Some(p)
    ensures Linked(r)
  {
    DetachPointBack(objs, r, p, c, rest);
    DetachParentsList(objs, r, p, c, rest);
    forall q | q in r ensures NoDuplicates(r[q].children) {
      assert NoDuplicates(objs[q].children);
    }
  }

  lemma DetachPointBack(objs: Registry, r: Registry, p: Handle, c: Handle, rest: seq<Handle>)
    requires p in objs && c in objs && ChildrenPointBack(objs) && Removed(objs, r, p, c, rest)
    requires objs[c].parent == Some(p)
    ensures ChildrenPointBack(r)
  {
    forall q, x | q in r && x in r[q].children ensures x in r && r[x].parent == Some(q) {
      if q == p {
        assert x in objs[p].children && x != c;
      } else {
        assert x in objs[q].children;
      }
    }
  }

  lemma DetachParentsList(objs: Registry, r: Registry, p: Handle, c: Handle, rest: seq<Handle>)
    requires p in objs && c in objs && ParentsList(objs) && Removed(objs, r, p, c, rest)
    ensures ParentsList(r)
  {
    forall x | x in r && r[x].parent.Some? ensures r[x].parent.value in r && x in r[r[x].parent.value].children {
      var q := objs[x].parent.value;
      assert x in objs[q].children;
    }
  }

  /** Splicing out the only occurrence of an entry from a list without
      repeats leaves a list without repeats that lacks exactly that entry. */
  lemma SpliceNoDuplicates(s: seq<Handle>, i: int)
    requires 0 <= i < |s| && NoDuplicates(s)
    ensures var r := SpliceOne(s, i);
      NoDuplicates(r) && s[i] !in r && forall x | x in s && x != s[i] :: x in r
  {
    var r := SpliceOne(s, i);
    assert r == s[..i] + s[i + 1..];
    forall a, b | 0 <= a < b < |r| ensures r[a] != r[b] {
      var a', b' := if a < i then a else a + 1, if b < i then b else b + 1;
      assert r[a] == s[a'] && r[b] == s[b'];
    }
    forall x | x in s && x != s[i] ensures x in r {
      var j :| 0 <= j < |s| && s[j] == x;
      if j < i {
        assert r[j] == x;
      } else {
        assert r[j - 1] == x;
      }
    }
  }

  /** Removing a child just added gives back the registry, except that the
      child keeps the local transform it was given. */
  lemma RemoveChildOfAddChild(objs: Registry, p: Handle, c: Handle, localPos: Vec2, localAngle: real)
    requires p in objs && c in objs && p != c
    requires objs[c].parent.None? && c !in objs[p].children
    ensures var r := RemoveChild(AddChild(objs, p, c, localPos, localAngle), p, c);
      && r.Keys == objs.Keys
      && r[p] == objs[p]
      && r[c] == objs[c].(localPos := localPos, localAngle := localAngle)
      && forall k | k in objs && k != p && k != c :: r[k] == objs[k]
  {
    var added := AddChild(objs, p, c, localPos, localAngle);
    var kids := objs[p].children;
    AppendThenSplice(kids, c);
    assert added[p] == objs[p].(children := kids + [c]);
  }

  /** Splicing out an entry just appended, and found by `indexOf`, gives
      the list back. */
  lemma AppendThenSplice(s: seq<Handle>, c: Handle)
    requires c !in s
    ensures var t := s + [c]; SpliceOne(t, IndexOf(t, c)) == s
  {
    var t := s + [c];
    var i := IndexOf(t, c);
    assert t[|s|] == c;
    assert forall j | 0 <= j < |s| :: t[j] == s[j];
    assert t[..i] == s;
  }

  /** Without the debug check, asking a parent to remove an object it does
      not list (`indexOf` is -1) removes the parent's last child instead. */
  lemma RemoveChildNotListed(objs: Registry, p: Handle, c: Handle)
    requires p in objs && c in objs && p != c
    requires c !in objs[p].children && |objs[p].children| > 0
    ensures var kids := objs[p].children;
      RemoveChild(objs, p, c)[p].children == kids[..|kids| - 1]
  {
  }

  // ---------------------------------------------------------------------
  // destroy

  /** The objects not yet destroyed; `destroy` shrinks this set, which is
      what makes its recursion end. */
  ghost function Undestroyed(objs: Registry): set<Handle> {
    set k | k in objs && !objs[k].destroyed
  }

  /** No child list of `b` lists anything its list in `a` did not. */
  ghost predicate ListsShrink(a: Registry, b: Registry) {
    forall k | k in a && k in b :: forall x | x in b[k].children :: x in a[k].children
  }

  /** Every child list is the same in `a` and `b`. */
  ghost predicate ListsKept(a: Registry, b: Registry) {
    forall k | k in a && k in b :: b[k].children == a[k].children
  }

  /** `destroy`: does nothing to an object already destroyed; otherwise
      marks it, detaches it from its parent, and destroys each child in
      turn after clearing the child's parent. A handle the registry does
      not hold is passed over; `DestroyKeepsClosed` shows that a closed
      registry never holds one. */
  function Destroy(objs: Registry, h: Handle): (r: Registry)
    requires h in objs
    ensures r.Keys == objs.Keys && Undestroyed(r) <= Undestroyed(objs)
    ensures objs[h].parent.None? ==> ListsKept(objs, r)
    decreases |Undestroyed(objs)|, 0, 0
  {
    if objs[h].destroyed then objs
    else
      DetachFlags(objs, h);
      DestroyChildren(Detach(objs, h), h, 0)
  }

  /** The first two steps of `destroy`: mark the object, then detach it
      from its parent, if it has one. */
  function Detach(objs: Registry, h: Handle): (r: Registry)
    requires h in objs
    ensures r.Keys == objs.Keys && r[h].destroyed
  {
    var marked := objs[h := objs[h].(destroyed := true)];
    var p := objs[h].parent;
    if p.Some? && p.value in objs then RemoveChild(marked, p.value, h) else marked
  }

  /** The loop over the destroyed object's children, reading the list
      afresh at each index as the engine's `for...of` does. */
  function DestroyChildren(objs: Registry, h: Handle, i: nat): (r: Registry)
    requires h in objs && i <= |objs[h].children|
    ensures r.Keys == objs.Keys && Undestroyed(r) <= Undestroyed(objs)
    ensures ListsKept(objs, r)
    decreases |Undestroyed(objs)|, 1, |objs[h].children| - i
  {
    if i == |objs[h].children| then objs
    else
      var c := objs[h].children[i];
      if c !in objs then DestroyChildren(objs, h, i + 1)
      else
        var gone := DestroyChild(objs, c);
        SubsetCount(Undestroyed(gone), Undestroyed(objs));
        var r := DestroyChildren(gone, h, i + 1);
        Chain(objs, gone, r);
        r
  }

  /** `child.destroy(child.parent = 0)`: the child's parent link is cleared
      first, so its own `destroy` leaves every list alone. */
  function DestroyChild(objs: Registry, c: Handle): (r: Registry)
    requires c in objs
    ensures r.Keys == objs.Keys && Undestroyed(r) <= Undestroyed(objs)
    ensures ListsKept(objs, r)
    decreases |Undestroyed(objs)|, 0, 1
  {
    var cleared := objs[c := objs[c].(parent := None)];
    ClearFlags(objs, c);
    var r := Destroy(cleared, c);
    Chain(objs, cleared, r);
    r
  }

  /** The frame facts of two successive steps compose. */
  lemma Chain(a: Registry, b: Registry, c: Registry)
    requires a.Keys == b.Keys == c.Keys
    requires Undestroyed(b) <= Undestroyed(a) && Undestroyed(c) <= Undestroyed(b)
    requires ListsKept(a, b) && ListsKept(b, c)
    ensures Undestroyed(c) <= Undestroyed(a) && ListsKept(a, c)
  {
  }

  lemma SubsetCount(a: set<Handle>, b: set<Handle>)
    requires a <= b
    ensures |a| <= |b|
  {
    assert b == a + (b - a);
  }

  lemma SameFlags(a: Registry, b: Registry)
    requires a.Keys == b.Keys
    requires forall k | k in a :: a[k].destroyed == b[k].destroyed
    ensures Undestroyed(a) == Undestroyed(b)
  {
  }

  /** Marking and detaching takes the object out of the undestroyed set
      and only shortens its parent's list. */
  lemma DetachFlags(objs: Registry, h: Handle)
    requires h in objs && !objs[h].destroyed
    ensures Undestroyed(Detach(objs, h)) == Undestroyed(objs) - {h}
    ensures ListsShrink(objs, Detach(objs, h))
    ensures objs[h].parent.None? ==> ListsKept(objs, Detach(objs, h))
  {
    var marked := objs[h := objs[h].(destroyed := true)];
    assert Undestroyed(marked) == Undestroyed(objs) - {h};
    var p := objs[h].parent;
    if p.Some? && p.value in objs {
      RemoveChildFlags(marked, p.value, h);
    }
  }

  /** Clearing a parent link destroys nothing and keeps every list. */
  lemma ClearFlags(objs: Registry, c: Handle)
    requires c in objs
    ensures var cleared := objs[c := objs[c].(parent := None)];
      Undestroyed(cleared) == Undestroyed(objs) && ListsKept(objs, cleared)
  {
    SameFlags(objs, objs[c := objs[c].(parent := None)]);
  }

  // ---------------------------------------------------------------------
  // destroy keeps the registry closed

  lemma {:induction false} DestroyKeepsClosed(objs: Registry, h: Handle)
    requires h in objs && Closed(objs)
    ensures Closed(Destroy(objs, h))
    decreases |Undestroyed(objs)|, 0, 0
  {
    if !objs[h].destroyed {
      DetachFlags(objs, h);
      DetachClosed(objs, h);
      DestroyChildrenKeepsClosed(Detach(objs, h), h, 0);
    }
  }

  lemma {:induction false} DestroyChildrenKeepsClosed(objs: Registry, h: Handle, i: nat)
    requires h in objs && Closed(objs) && i <= |objs[h].children|
    ensures Closed(DestroyChildren(objs, h, i))
    decreases |Undestroyed(objs)|, 1, |objs[h].children| - i
  {
    if i < |objs[h].children| {
      var c := objs[h].children[i];
      assert Refers(objs, objs[h]);
      ClearFlags(objs, c);
      ClearClosed(objs, c);
      var cleared := objs[c := objs[c].(parent := None)];
      DestroyKeepsClosed(cleared, c);
      var gone := Destroy(cleared, c);
      SubsetCount(Undestroyed(gone), Undestroyed(objs));
      DestroyChildrenKeepsClosed(gone, h, i + 1);
    }
  }

  lemma DetachClosed(objs: Registry, h: Handle)
    requires h in objs && Closed(objs)
    ensures Closed(Detach(objs, h))
  {
    var marked := objs[h := objs[h].(destroyed := true)];
    forall k | k in marked ensures Refers(marked, marked[k]) {
      assert Refers(objs, objs[k]);
    }
    var p := objs[h].parent;
    if p.Some? && p.value in objs {
      RemoveChildClosed(marked, p.value, h);
    }
  }

  lemma ClearClosed(objs: Registry, c: Handle)
    requires c in objs && Closed(objs)
    ensures Closed(objs[c := objs[c].(parent := None)])
  {
    var cleared := objs[c := objs[c].(parent := None)];
    forall k | k in cleared ensures Refers(cleared, cleared[k]) {
      assert Refers(objs, objs[k]);
    }
  }

  // ---------------------------------------------------------------------
  // What destroy destroys

  /** Every object `b` destroys that `a` had not has all of its children
      destroyed in `b`. */
  ghost predicate SubtreesDestroyed(a: Registry, b: Registry) {
    forall k | k in a && k in b && !a[k].destroyed && b[k].destroyed ::
      forall x | x in b[k].children && x in b :: b[x].destroyed
  }

  /** `destroy` marks the object, and every object it marks has its whole
      child list marked too; no child list gains an entry. */
  lemma {:induction false} DestroySubtree(objs: Registry, h: Handle)
    requires h in objs
    ensures var r := Destroy(objs, h);
      r[h].destroyed && SubtreesDestroyed(objs, r) && ListsShrink(objs, r)
    decreases |Undestroyed(objs)|, 0, 0
  {
    if !objs[h].destroyed {
      DetachFlags(objs, h);
      var d := Detach(objs, h);
      DestroyChildrenSubtree(d, h, 0);
      MarkStep(objs, d, DestroyChildren(d, h, 0), h);
    }
  }

  /** The step of `DestroySubtree`: the object itself is marked, and the
      children loop has marked its whole list. */
  lemma MarkStep(objs: Registry, d: Registry, r: Registry, h: Handle)
    requires h in objs && objs.Keys == d.Keys == r.Keys
    requires Undestroyed(d) == Undestroyed(objs) - {h} && ListsShrink(objs, d)
    requires SubtreesDestroyed(d, r) && ListsKept(d, r) && Undestroyed(r) <= Undestroyed(d)
    requires forall j | 0 <= j < |d[h].children| && d[h].children[j] in r :: r[d[h].children[j]].destroyed
    ensures r[h].destroyed && SubtreesDestroyed(objs, r) && ListsShrink(objs, r)
  {
    assert h !in Undestroyed(r);
    forall k | k in objs && !objs[k].destroyed && r[k].destroyed
      ensures forall x | x in r[k].children && x in r :: r[x].destroyed
    {
      if k == h {
        forall x | x in r[k].children && x in r ensures r[x].destroyed {
          var j :| 0 <= j < |d[h].children| && d[h].children[j] == x;
        }
      } else {
        assert k in Undestroyed(d);
      }
    }
  }

  lemma {:induction false} DestroyChildrenSubtree(objs: Registry, h: Handle, i: nat)
    requires h in objs && i <= |objs[h].children|
    ensures var r := DestroyChildren(objs, h, i);
      && SubtreesDestroyed(objs, r)
      && forall j | i <= j < |objs[h].children| && objs[h].children[j] in r :: r[objs[h].children[j]].destroyed
    decreases |Undestroyed(objs)|, 1, |objs[h].children| - i
  {
    if i < |objs[h].children| {
      var c := objs[h].children[i];
      if c !in objs {
        DestroyChildrenSubtree(objs, h, i + 1);
      } else {
        DestroyChildSubtree(objs, c);
        var gone := DestroyChild(objs, c);
        SubsetCount(Undestroyed(gone), Undestroyed(objs));
        DestroyChildrenSubtree(gone, h, i + 1);
        LoopStep(objs, gone, DestroyChildren(gone, h, i + 1), h, i);
      }
    }
  }

  lemma {:induction false} DestroyChildSubtree(objs: Registry, c: Handle)
    requires c in objs
    ensures var r := DestroyChild(objs, c); r[c].destroyed && SubtreesDestroyed(objs, r)
    decreases |Undestroyed(objs)|, 0, 1
  {
    var cleared := objs[c := objs[c].(parent := None)];
    ClearFlags(objs, c);
    DestroySubtree(cleared, c);
    SameStart(objs, cleared, Destroy(cleared, c));
  }

  /** Destroyed-subtree facts carry over to a start with the same flags. */
  lemma SameStart(a: Registry, b: Registry, c: Registry)
    requires a.Keys == b.Keys && Undestroyed(a) == Undestroyed(b)
    requires SubtreesDestroyed(b, c)
    ensures SubtreesDestroyed(a, c)
  {
    forall k | k in a && k in c && !a[k].destroyed && c[k].destroyed
      ensures forall x | x in c[k].children && x in c :: c[x].destroyed
    {
      assert k in Undestroyed(b);
    }
  }

  /** The step of `DestroyChildrenSubtree`: the child at `i` is marked by
      its own `destroy`, the rest by the remaining loop. */
  lemma LoopStep(objs: Registry, gone: Registry, r: Registry, h: Handle, i: nat)
    requires h in objs && i < |objs[h].children|
    requires objs.Keys == gone.Keys == r.Keys
    requires objs[h].children[i] in gone && gone[objs[h].children[i]].destroyed
    requires SubtreesDestroyed(objs, gone) && ListsKept(objs, gone) && Undestroyed(gone) <= Undestroyed(objs)
    requires SubtreesDestroyed(gone, r) && ListsKept(gone, r) && Undestroyed(r) <= Undestroyed(gone)
    requires forall j | i + 1 <= j < |gone[h].children| && gone[h].children[j] in r :: r[gone[h].children[j]].destroyed
    ensures SubtreesDestroyed(objs, r)
    ensures forall j | i <= j < |objs[h].children| && objs[h].children[j] in r :: r[objs[h].children[j]].destroyed
  {
    assert gone[h].children == objs[h].children;
    assert objs[h].children[i] !in Undestroyed(r);
    SubtreesCompose(objs, gone, r);
  }

  /** Two rounds of destruction compose when the second keeps the lists
      the first left. */
  lemma SubtreesCompose(a: Registry, b: Registry, c: Registry)
    requires a.Keys == b.Keys == c.Keys
    requires SubtreesDestroyed(a, b) && SubtreesDestroyed(b, c)
    requires ListsKept(b, c) && Undestroyed(c) <= Undestroyed(b)
    ensures SubtreesDestroyed(a, c)
  {
    forall k | k in a && !a[k].destroyed && c[k].destroyed
      ensures forall x | x in c[k].children && x in c :: c[x].destroyed
    {
      if b[k].destroyed {
        forall x | x in c[k].children && x in c ensures c[x].destroyed {
          assert x in b[k].children && b[x].destroyed;
          assert x !in Undestroyed(b);
        }
      }
    }
  }

  /** A registry in which every destroyed object's children are destroyed. */
  ghost predicate DestroyedClosed(objs: Registry) {
    forall k | k in objs && objs[k].destroyed ::
      forall x | x in objs[k].children && x in objs :: objs[x].destroyed
  }

  /** `destroy` keeps that so: nothing it leaves behind has a live child. */
  lemma DestroyKeepsDestroyedClosed(objs: Registry, h: Handle)
    requires h in objs && DestroyedClosed(objs)
    ensures DestroyedClosed(Destroy(objs, h))
  {
    DestroySubtree(objs, h);
    var r := Destroy(objs, h);
    forall k | k in r && r[k].destroyed ensures forall x | x in r[k].children && x in r :: r[x].destroyed {
      if objs[k].destroyed {
        forall x | x in r[k].children && x in r ensures r[x].destroyed {
          assert x in objs[k].children && objs[x].destroyed;
          assert x !in Undestroyed(objs);
        }
      }
    }
  }

  /** A chain of child links starting at `s[0]`. */
  ghost predicate IsPath(objs: Registry, s: seq<Handle>) {
    && |s| > 0
    && (forall i | 0 <= i < |s| :: s[i] in objs)
    && forall i | 0 <= i < |s| - 1 :: s[i + 1] in objs[s[i]].children
  }

  /** After `destroy(h)` in such a registry, everything reachable from `h`
      through child lists is destroyed: the whole subtree. */
  lemma DestroyWholeSubtree(objs: Registry, h: Handle, s: seq<Handle>)
    requires h in objs && DestroyedClosed(objs)
    requires IsPath(Destroy(objs, h), s) && s[0] == h
    ensures Destroy(objs, h)[s[|s| - 1]].destroyed
  {
    DestroySubtree(objs, h);
    DestroyKeepsDestroyedClosed(objs, h);
    PathDestroyed(Destroy(objs, h), s);
  }

  lemma {:induction false} PathDestroyed(objs: Registry, s: seq<Handle>)
    requires DestroyedClosed(objs) && IsPath(objs, s) && objs[s[0]].destroyed
    ensures objs[s[|s| - 1]].destroyed
    decreases |s|
  {
    if |s| > 1 {
      var t := s[..|s| - 1];
      assert IsPath(objs, t);
      PathDestroyed(objs, t);
      assert s[|s| - 1] in objs[s[|s| - 2]].children;
    }
  }

  /** Destroying twice is destroying once. */
  lemma DestroyIdempotent(objs: Registry, h: Handle)
    requires h in objs
    ensures Destroy(Destroy(objs, h), h) == Destroy(objs, h)
  {
    DestroySubtree(objs, h);
  }

  /** A destroyed object leaves its parent's list, and only that entry
      goes: the other lists are as they were. */
  lemma DestroyDetaches(objs: Registry, h: Handle, q: Handle)
    requires h in objs && q in objs && !objs[h].destroyed
    requires objs[h].parent == Some(q) && h in objs[q].children
    ensures multiset(Destroy(objs, h)[q].children) == multiset(objs[q].children) - multiset{h}
  {
    DetachRemoves(objs, h, q);
    var d := Detach(objs, h);
    KeptList(d, DestroyChildren(d, h, 0), q);
  }

  /** The first step of `destroy` takes the object off its parent's list. */
  lemma DetachRemoves(objs: Registry, h: Handle, q: Handle)
    requires h in objs && q in objs
    requires objs[h].parent == Some(q) && h in objs[q].children
    ensures multiset(Detach(objs, h)[q].children) == multiset(objs[q].children) - multiset{h}
  {
    var marked := objs[h := objs[h].(destroyed := true)];
    assert marked[q].children == objs[q].children;
  }

  lemma KeptList(a: Registry, b: Registry, q: Handle)
    requires q in a && q in b && ListsKept(a, b)
    ensures b[q].children == a[q].children
  {
  }

  // ---------------------------------------------------------------------
  // destroy only ever clears parent links

  /** Every object without a parent in `a` is still without one in `b`. */
  ghost predicate ParentsCleared(a: Registry, b: Registry) {
    forall k | k in a && k in b && a[k].parent.None? :: b[k].parent.None?
  }

  /** `destroy` never gives an object a parent: it only clears links. */
  lemma {:induction false} DestroyClearsParents(objs: Registry, h: Handle)
    requires h in objs
    ensures ParentsCleared(objs, Destroy(objs, h))
    decreases |Undestroyed(objs)|, 0, 0
  {
    if !objs[h].destroyed {
      DetachFlags(objs, h);
      DetachClearsParents(objs, h);
      DestroyChildrenClearsParents(Detach(objs, h), h, 0);
    }
  }

  lemma {:induction false} DestroyChildrenClearsParents(objs: Registry, h: Handle, i: nat)
    requires h in objs && i <= |objs[h].children|
    ensures ParentsCleared(objs, DestroyChildren(objs, h, i))
    decreases |Undestroyed(objs)|, 1, |objs[h].children| - i
  {
    if i < |objs[h].children| {
      var c := objs[h].children[i];
      if c !in objs {
        DestroyChildrenClearsParents(objs, h, i + 1);
      } else {
        var gone := DestroyChild(objs, c);
        SubsetCount(Undestroyed(gone), Undestroyed(objs));
        DestroyChildClearsParents(objs, c);
        DestroyChildrenClearsParents(gone, h, i + 1);
      }
    }
  }

  lemma {:induction false} DestroyChildClearsParents(objs: Registry, c: Handle)
    requires c in objs
    ensures ParentsCleared(objs, DestroyChild(objs, c))
    decreases |Undestroyed(objs)|, 0, 1
  {
    ClearFlags(objs, c);
    DestroyClearsParents(objs[c := objs[c].(parent := None)], c);
  }

  lemma DetachClearsParents(objs: Registry, h: Handle)
    requires h in objs
    ensures ParentsCleared(objs, Detach(objs, h))
  {
    var marked := objs[h := objs[h].(destroyed := true)];
    var p := objs[h].parent;
    if p.Some? && p.value in objs {
      RemoveChildKeepsParent(marked, p.value, h);
    }
  }
}
