/**
  `findWindow` of main.cpp: a depth-first search of the X window tree for the
  first window whose name equals a title. The X calls become data: each node
  carries what `XFetchName` reports for it (a name, or none when the call
  fails) and what `XQueryTree` reports (the list of children, or none when
  the call fails).
*/
module WindowSearch {
  import opened Wrappers

  /** X never hands out the resource id 0 (`None`), so 0 can mean "not found". */
  type WindowId = id: nat | id > 0 witness 1

  datatype Window = Window(id: WindowId, name: Option<string>, children: TreeQuery)

  /** What `XQueryTree` reports for a window: failure (a zero status), or its children in stacking order. */
  datatype TreeQuery = QueryFailed | Children(kids: seq<Window>)

  /** The `strcmp(title, windowTitle) == 0` test, reached only when `XFetchName` succeeds. */
  predicate Matches(w: Window, title: string) {
    w.name == Some(title)
  }

  /** The nodes of the subtree at `w` in preorder; a failed tree query has no descendants. */
  function Preorder(w: Window): (nodes: seq<Window>)
    ensures |nodes| >= 1 && nodes[0] == w
    decreases w, 1
  {
    [w] + match w.children { case QueryFailed => [] case Children(kids) => PreorderAll(kids) }
  }

  /** The preorders of a list of sibling subtrees, one after another. */
  function PreorderAll(ws: seq<Window>): (nodes: seq<Window>)
    decreases ws, 0
  {
    if ws == [] then [] else PreorderAll(ws[..|ws| - 1]) + Preorder(ws[|ws| - 1])
  }

  /** Index of the first node of `nodes` that matches `title`, or `|nodes|` when none does. */
  function FirstMatch(nodes: seq<Window>, title: string): (k: nat)
    ensures k <= |nodes|
  {
    if nodes == [] then 0
    else if Matches(nodes[0], title) then 0
    else 1 + FirstMatch(nodes[1..], title)
  }

  /** `FirstMatch` is the first matching position: no node before it matches, and the node at it does. */
  lemma {:induction false} FirstMatchIsFirst(nodes: seq<Window>, title: string)
    ensures var k := FirstMatch(nodes, title);
      && (forall j :: 0 <= j < k ==> !Matches(nodes[j], title))
      && (k < |nodes| ==> Matches(nodes[k], title))
  {
    if nodes != [] && !Matches(nodes[0], title) {
      FirstMatchIsFirst(nodes[1..], title);
      var k := FirstMatch(nodes, title);
      forall j | 0 <= j < k
        ensures !Matches(nodes[j], title)
      {
        if j > 0 {
          assert nodes[j] == nodes[1..][j - 1];
        }
      }
    }
  }

  ghost predicate NoMatchIn(nodes: seq<Window>, title: string) {
    FirstMatch(nodes, title) == |nodes|
  }

  /** The handle `findWindow` is meant to return: the first match in preorder, or 0. */
  function Found(w: Window, title: string): (h: nat) {
    var nodes := Preorder(w);
    var k := FirstMatch(nodes, title);
    if k < |nodes| then nodes[k].id else 0
  }

  /** The ids of the windows whose name the search fetches, in call order. */
  function Fetched(w: Window, title: string): (ids: seq<WindowId>) {
    Ids(UpToMatch(Preorder(w), title))
  }

  /** The nodes of `nodes` up to and including the first match (all of them when none matches). */
  function UpToMatch(nodes: seq<Window>, title: string): (prefix: seq<Window>)
    ensures prefix <= nodes
  {
    if nodes == [] then []
    else if Matches(nodes[0], title) then [nodes[0]]
    else [nodes[0]] + UpToMatch(nodes[1..], title)
  }

  function Ids(nodes: seq<Window>): (ids: seq<WindowId>)
    ensures |ids| == |nodes|
  {
    if nodes == [] then [] else [nodes[0].id] + Ids(nodes[1..])
  }

  /**
    `findWindow(display, w, title)`. Besides the handle it returns the ids of
    the windows whose name was fetched, in call order, so that the contract can
    say which part of the tree the search touches.
  */
  method FindWindow(w: Window, title: string) returns (result: nat, fetched: seq<WindowId>)
    ensures result == Found(w, title)
    ensures fetched == Fetched(w, title)
    decreases w
  {
    fetched := [w.id];
    if Matches(w, title) {
      MatchingRoot(w, title);
      return w.id, fetched;
    }
    result := 0;
    if w.children == QueryFailed {
      FailedQuery(w, title);
    } else {
      var kids := w.children.kids;
      var i := 0;
      FirstChild(w, kids, title);
      while i < |kids|
        invariant 0 <= i <= |kids|
        invariant result == 0
        invariant NoMatchIn(PreorderAll(kids[..i]), title)
        invariant fetched == Ids([w] + PreorderAll(kids[..i]))
      {
        var child, childFetched := FindWindow(kids[i], title);
        if child != 0 {
          ChildFound(w, kids, i, title);
          return child, fetched + childFetched;
        }
        NextChild(w, kids, i, title);
        fetched := fetched + childFetched;
        i := i + 1;
      }
      assert kids[..i] == kids;
      NoneFound(w, kids, title);
    }
  }

  // ----- what the search promises -----

  /** A window whose own name matches is returned at once: only its name is fetched, its children are never queried. */
  lemma MatchingRoot(w: Window, title: string)
    requires Matches(w, title)
    ensures Found(w, title) == w.id && Fetched(w, title) == [w.id]
  {
  }

  /** A non-zero result is a window of the subtree with the title, and no window before it in preorder has it. */
  lemma FoundIsFirstMatch(w: Window, title: string)
    requires Found(w, title) != 0
    ensures exists k :: (0 <= k < |Preorder(w)| && Preorder(w)[k].id == Found(w, title) &&
      Matches(Preorder(w)[k], title) && forall j :: 0 <= j < k ==> !Matches(Preorder(w)[j], title))
  {
    var k := FirstMatch(Preorder(w), title);
    FirstMatchIsFirst(Preorder(w), title);
    assert Preorder(w)[k].id == Found(w, title);
  }

  /** No window reachable from `w` through successful tree queries has the title. */
  ghost predicate NoneReachable(w: Window, title: string) {
    forall j :: 0 <= j < |Preorder(w)| ==> !Matches(Preorder(w)[j], title)
  }

  /** The result is 0 exactly when no window reachable through successful tree queries has the title. */
  lemma NotFoundIff(w: Window, title: string)
    ensures Found(w, title) == 0 <==> NoneReachable(w, title)
  {
    var nodes := Preorder(w);
    var k := FirstMatch(nodes, title);
    FirstMatchIsFirst(nodes, title);
    if k < |nodes| {
      assert Found(w, title) == nodes[k].id > 0;
      assert !NoneReachable(w, title) by { assert Matches(nodes[k], title); }
    } else {
      assert NoneReachable(w, title);
    }
  }

  /** Children behind a failed `XQueryTree` are never reached: such a window matches by its own name or not at all. */
  lemma FailedQuery(w: Window, title: string)
    requires w.children == QueryFailed
    ensures Found(w, title) == (if Matches(w, title) then w.id else 0)
    ensures Fetched(w, title) == [w.id]
  {
  }

  // ----- lemmas about the reference definitions -----

  lemma {:induction false} PreorderAllAppend(a: seq<Window>, b: seq<Window>)
    ensures PreorderAll(a + b) == PreorderAll(a) + PreorderAll(b)
    decreases |b|
  {
    if b == [] {
      assert a + b == a;
    } else {
      var b', x := b[..|b| - 1], b[|b| - 1];
      assert (a + b)[..|a + b| - 1] == a + b';
      assert (a + b)[|a + b| - 1] == x;
      calc {
        PreorderAll(a + b);
        PreorderAll(a + b') + Preorder(x);
        { PreorderAllAppend(a, b'); }
        PreorderAll(a) + PreorderAll(b') + Preorder(x);
        PreorderAll(a) + (PreorderAll(b') + Preorder(x));
        PreorderAll(a) + PreorderAll(b);
      }
    }
  }

  /** With no match in `a`, the first match of `a + b` is the first match of `b`, shifted. */
  lemma NoMatchThenAppend(a: seq<Window>, b: seq<Window>, title: string)
    requires FirstMatch(a, title) == |a|
    ensures FirstMatch(a + b, title) == |a| + FirstMatch(b, title)
    ensures UpToMatch(a + b, title) == a + UpToMatch(b, title)
  {
    SkipFirstMatch(a, b, title);
    SkipUpToMatch(a, b, title);
  }

  lemma {:induction false} SkipFirstMatch(a: seq<Window>, b: seq<Window>, title: string)
    requires FirstMatch(a, title) == |a|
    ensures FirstMatch(a + b, title) == |a| + FirstMatch(b, title)
    decreases |a|
  {
    if a == [] {
      assert a + b == b;
    } else {
      assert (a + b)[0] == a[0] && (a + b)[1..] == a[1..] + b;
      SkipFirstMatch(a[1..], b, title);
    }
  }

  lemma {:induction false} SkipUpToMatch(a: seq<Window>, b: seq<Window>, title: string)
    requires FirstMatch(a, title) == |a|
    ensures UpToMatch(a + b, title) == a + UpToMatch(b, title)
    decreases |a|
  {
    if a == [] {
      assert a + b == b;
    } else {
      assert (a + b)[0] == a[0] && (a + b)[1..] == a[1..] + b;
      SkipUpToMatch(a[1..], b, title);
      assert a == [a[0]] + a[1..];
    }
  }

  lemma {:induction false} IdsAppend(a: seq<Window>, b: seq<Window>)
    ensures Ids(a + b) == Ids(a) + Ids(b)
    decreases |a|
  {
    if a != [] {
      assert (a + b)[1..] == a[1..] + b;
      IdsAppend(a[1..], b);
    } else {
      assert a + b == b;
    }
  }

  /** A match inside `a` is the first match of `a + b` as well. */
  lemma {:induction false} MatchInPrefix(a: seq<Window>, b: seq<Window>, title: string)
    requires FirstMatch(a, title) < |a|
    ensures FirstMatch(a + b, title) == FirstMatch(a, title)
    ensures UpToMatch(a + b, title) == UpToMatch(a, title)
    decreases |a|
  {
    if !Matches(a[0], title) {
      assert (a + b)[1..] == a[1..] + b;
      MatchInPrefix(a[1..], b, title);
    }
  }

  /** The preorder of `w` as `w`, the subtrees before child `i`, child `i`, and the subtrees after it. */
  lemma SplitAtChild(w: Window, kids: seq<Window>, i: nat)
    requires w.children == Children(kids) && i < |kids|
    ensures Preorder(w) == [w] + PreorderAll(kids[..i]) + Preorder(kids[i]) + PreorderAll(kids[i + 1..])
  {
    assert kids == kids[..i + 1] + kids[i + 1..];
    assert kids[..i + 1][..i] == kids[..i];
    PreorderAllAppend(kids[..i + 1], kids[i + 1..]);
  }

  /** The step of `FindWindow` that returns the first non-zero child result. */
  lemma ChildFound(w: Window, kids: seq<Window>, i: nat, title: string)
    requires w.children == Children(kids) && i < |kids| && !Matches(w, title)
    requires FirstMatch(PreorderAll(kids[..i]), title) == |PreorderAll(kids[..i])|
    requires Found(kids[i], title) != 0
    ensures Found(w, title) == Found(kids[i], title)
    ensures Fetched(w, title) == Ids([w] + PreorderAll(kids[..i])) + Fetched(kids[i], title)
  {
    var a, b, c := PreorderAll(kids[..i]), Preorder(kids[i]), PreorderAll(kids[i + 1..]);
    SplitAtChild(w, kids, i);
    NoMatchThenAppend([w], a, title);
    SpliceFound(w, [w] + a, b, c, title);
  }

  /** Before the loop of `FindWindow`: no child searched, only the window's own name fetched. */
  lemma FirstChild(w: Window, kids: seq<Window>, title: string)
    ensures NoMatchIn(PreorderAll(kids[..0]), title)
    ensures [w.id] == Ids([w] + PreorderAll(kids[..0]))
  {
    assert kids[..0] == [];
    assert [w] + [] == [w];
  }

  /** `Found` and `Fetched` of a tree whose preorder is a match-free block `wa` followed by a matching block `b` and then `c`. */
  lemma SpliceFound(w: Window, wa: seq<Window>, b: seq<Window>, c: seq<Window>, title: string)
    requires Preorder(w) == wa + b + c
    requires FirstMatch(wa, title) == |wa| && FirstMatch(b, title) < |b|
    ensures Found(w, title) == b[FirstMatch(b, title)].id
    ensures Fetched(w, title) == Ids(wa) + Ids(UpToMatch(b, title))
  {
    var p := Preorder(w);
    MatchAfterPrefix(wa, b, c, title);
    var k := FirstMatch(b, title);
    assert p[|wa| + k] == b[k];
    IdsAppend(wa, UpToMatch(b, title));
  }

  /** Splicing a matching block `b` behind a block `a` without matches. */
  lemma MatchAfterPrefix(a: seq<Window>, b: seq<Window>, c: seq<Window>, title: string)
    requires FirstMatch(a, title) == |a| && FirstMatch(b, title) < |b|
    ensures FirstMatch(a + b + c, title) == |a| + FirstMatch(b, title)
    ensures UpToMatch(a + b + c, title) == a + UpToMatch(b, title)
  {
    assert a + b + c == a + (b + c);
    NoMatchThenAppend(a, b + c, title);
    MatchInPrefix(b, c, title);
  }

  /** The loop of `FindWindow` moves past a child whose search returned 0. */
  lemma NextChild(w: Window, kids: seq<Window>, i: nat, title: string)
    requires i < |kids| && NoMatchIn(PreorderAll(kids[..i]), title) && Found(kids[i], title) == 0
    ensures NoMatchIn(PreorderAll(kids[..i + 1]), title)
    ensures Ids([w] + PreorderAll(kids[..i + 1])) == Ids([w] + PreorderAll(kids[..i])) + Fetched(kids[i], title)
  {
    var a, b := PreorderAll(kids[..i]), Preorder(kids[i]);
    assert kids[..i + 1][..i] == kids[..i];
    assert PreorderAll(kids[..i + 1]) == a + b;
    NotFoundBelow(kids[i], title);
    NoMatchThenAppend(a, b, title);
    assert [w] + (a + b) == ([w] + a) + b;
    IdsAppend([w] + a, b);
  }

  /** A subtree whose search returns 0 has no match at all and is fetched entirely. */
  lemma NotFoundBelow(v: Window, title: string)
    requires Found(v, title) == 0
    ensures FirstMatch(Preorder(v), title) == |Preorder(v)|
    ensures Fetched(v, title) == Ids(Preorder(v))
  {
    var p := Preorder(v);
    NoMatchThenAppend(p, [], title);
    assert p + [] == p;
  }

  /** The return of `FindWindow` after every child came back with 0. */
  lemma NoneFound(w: Window, kids: seq<Window>, title: string)
    requires w.children == Children(kids) && !Matches(w, title)
    requires FirstMatch(PreorderAll(kids), title) == |PreorderAll(kids)|
    ensures Found(w, title) == 0
    ensures Fetched(w, title) == Ids([w] + PreorderAll(kids))
  {
    var a := PreorderAll(kids);
    NoMatchThenAppend([w], a, title);
    NoMatchThenAppend(a, [], title);
    assert a + [] == a;
  }
}
