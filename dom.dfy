/**
 * The part of golang.org/x/net/html's node graph that the emoji splicer
 * touches. Every `*html.Node` is a record in a node table; a pointer is a
 * position in that table (`Ref`) or `Nil`. A `Shape` is a ghost description
 * of which records form a tree, and `Hung` says that the first/last child,
 * sibling and parent links of the table spell out exactly that tree.
 */
module Dom {
  datatype NodeType = ErrorNode | TextNode | DocumentNode | ElementNode | CommentNode | DoctypeNode | RawNode

  datatype Attribute = Attribute(key: string, val: string)

  datatype Ptr = Nil | Ref(id: nat)

  /** The content fields of an `html.Node`: `Type`, `Data` and `Attr`. */
  datatype Content = Content(kind: NodeType, data: string, attrs: seq<Attribute>)

  /** The link fields of an `html.Node`. */
  datatype Links = Links(parent: Ptr, firstChild: Ptr, lastChild: Ptr, prevSibling: Ptr, nextSibling: Ptr)

  /** A node as the tree sees it: its own content and its children. */
  datatype Tree = Tree(kind: NodeType, data: string, attrs: seq<Attribute>, kids: seq<Tree>)

  /** The links of a freshly allocated node: no parent, no children, no siblings. */
  const Detached := Links(Nil, Nil, Nil, Nil, Nil)

  predicate PtrIn(p: Ptr, n: nat)
  {
    p.Ref? ==> p.id < n
  }

  predicate LinksIn(r: Links, n: nat)
  {
    PtrIn(r.parent, n) && PtrIn(r.firstChild, n) && PtrIn(r.lastChild, n) &&
    PtrIn(r.prevSibling, n) && PtrIn(r.nextSibling, n)
  }

  /** Every link of every record points into the table. */
  ghost predicate Closed(g: seq<Links>)
  {
    forall i :: 0 <= i < |g| ==> LinksIn(g[i], |g|)
  }

  /**
   * A tree of table positions. `ids` is a footprint: it holds `id` and the
   * footprints of all children, which are pairwise disjoint.
   */
  datatype Shape = Shape(id: nat, kids: seq<Shape>, ids: set<nat>)

  ghost predicate Wf(sh: Shape)
    decreases sh
  {
    sh.id in sh.ids &&
    (forall i :: 0 <= i < |sh.kids| ==>
      sh.kids[i].id in sh.kids[i].ids && sh.kids[i].ids <= sh.ids &&
      sh.id !in sh.kids[i].ids && Wf(sh.kids[i])) &&
    (forall i, j :: 0 <= i < j < |sh.kids| ==> sh.kids[i].ids !! sh.kids[j].ids)
  }

  ghost predicate InTable<T>(sh: Shape, g: seq<T>)
  {
    forall i :: i in sh.ids ==> i < |g|
  }

  function FirstPtr(ks: seq<Shape>): Ptr
  {
    if ks == [] then Nil else Ref(ks[0].id)
  }

  function LastPtr(ks: seq<Shape>): Ptr
  {
    if ks == [] then Nil else Ref(ks[|ks| - 1].id)
  }

  function PrevPtr(ks: seq<Shape>, i: int): Ptr
    requires 0 <= i < |ks|
  {
    if i == 0 then Nil else Ref(ks[i - 1].id)
  }

  function NextPtr(ks: seq<Shape>, i: int): Ptr
    requires 0 <= i < |ks|
  {
    if i == |ks| - 1 then Nil else Ref(ks[i + 1].id)
  }

  /** The links below `sh.id` spell out `sh`; the root's own parent and siblings are free. */
  ghost predicate Hung(sh: Shape, g: seq<Links>)
    requires Wf(sh) && InTable(sh, g)
    decreases sh
  {
    var r, ks := g[sh.id], sh.kids;
    r.firstChild == FirstPtr(ks) && r.lastChild == LastPtr(ks) &&
    forall i :: 0 <= i < |ks| ==>
      g[ks[i].id].parent == Ref(sh.id) && g[ks[i].id].prevSibling == PrevPtr(ks, i) &&
      g[ks[i].id].nextSibling == NextPtr(ks, i) && Hung(ks[i], g)
  }

  /** The tree that `sh` describes, reading node contents from `cs`. */
  ghost function Abs(sh: Shape, cs: seq<Content>): (t: Tree)
    requires Wf(sh) && InTable(sh, cs)
    ensures t.kind == cs[sh.id].kind && t.data == cs[sh.id].data && t.attrs == cs[sh.id].attrs
    ensures |t.kids| == |sh.kids|
    decreases sh
  {
    Tree(cs[sh.id].kind, cs[sh.id].data, cs[sh.id].attrs,
         seq(|sh.kids|, i requires 0 <= i < |sh.kids| => Abs(sh.kids[i], cs)))
  }

  /** A tree is well linked in a table: structure, bounds and links together. */
  ghost predicate Linked(sh: Shape, g: seq<Links>)
  {
    Wf(sh) && InTable(sh, g) && Hung(sh, g)
  }

  /** A well-formed shape is linked when its root names its first and last child and every child is hung in order. */
  lemma LinkedIntro(n: nat, ks: seq<Shape>, ids: set<nat>, g: seq<Links>)
    requires Wf(Shape(n, ks, ids)) && InTable(Shape(n, ks, ids), g)
    requires g[n].firstChild == FirstPtr(ks) && g[n].lastChild == LastPtr(ks)
    requires forall j :: 0 <= j < |ks| ==>
      g[ks[j].id].parent == Ref(n) && g[ks[j].id].prevSibling == PrevPtr(ks, j) &&
      g[ks[j].id].nextSibling == NextPtr(ks, j) && Linked(ks[j], g)
    ensures Linked(Shape(n, ks, ids), g)
  {
  }

  /** Two tables agree on every record below the root, and on the root's child links. */
  ghost predicate SameBelow(sh: Shape, g: seq<Links>, g': seq<Links>)
  {
    sh.id < |g| && sh.id < |g'| &&
    g'[sh.id].firstChild == g[sh.id].firstChild && g'[sh.id].lastChild == g[sh.id].lastChild &&
    forall i :: i in sh.ids && i != sh.id ==> i < |g| && i < |g'| && g'[i] == g[i]
  }

  lemma {:induction false} HungFrame(sh: Shape, g: seq<Links>, g': seq<Links>)
    requires Linked(sh, g) && InTable(sh, g') && SameBelow(sh, g, g')
    ensures Hung(sh, g')
    decreases sh
  {
    forall i | 0 <= i < |sh.kids|
      ensures Hung(sh.kids[i], g')
    {
      var k := sh.kids[i];
      assert k.id in sh.ids;
      HungFrame(k, g, g');
    }
  }

  function PtrIds(p: Ptr): set<nat>
  {
    if p.Nil? then {} else {p.id}
  }

  /** `g'` extends `g` and differs from it at most at the positions in `touched`. */
  ghost predicate Outside(g: seq<Links>, g': seq<Links>, touched: set<nat>)
  {
    |g| <= |g'| && forall i :: 0 <= i < |g| && i !in touched ==> g'[i] == g[i]
  }

  /** A tree stays linked when no record below its root is touched and the root keeps its child links. */
  lemma Untouched(sh: Shape, g: seq<Links>, g': seq<Links>, touched: set<nat>)
    requires Linked(sh, g) && Outside(g, g', touched) && (sh.ids - {sh.id}) !! touched
    requires g'[sh.id].firstChild == g[sh.id].firstChild && g'[sh.id].lastChild == g[sh.id].lastChild
    ensures Linked(sh, g')
  {
    assert SameBelow(sh, g, g') by {
      forall i | i in sh.ids && i != sh.id ensures i < |g| && i < |g'| && g'[i] == g[i] {
        assert i !in touched;
      }
    }
    HungFrame(sh, g, g');
  }

  /** Contents only ever grow at the end, which leaves every existing tree as it was. */
  lemma {:induction false} AbsGrow(sh: Shape, cs: seq<Content>, cs': seq<Content>)
    requires Wf(sh) && InTable(sh, cs) && cs <= cs'
    ensures InTable(sh, cs') && Abs(sh, cs') == Abs(sh, cs)
    decreases sh
  {
    forall i | 0 <= i < |sh.kids|
      ensures InTable(sh.kids[i], cs') && Abs(sh.kids[i], cs') == Abs(sh.kids[i], cs)
    {
      AbsGrow(sh.kids[i], cs, cs');
    }
  }

  /** The table after `n.AppendChild(c)`, one assignment at a time. */
  function Appended(g: seq<Links>, n: nat, c: nat): (r: seq<Links>)
    requires Closed(g) && n < |g| && c < |g|
    ensures |r| == |g|
    ensures r[c].parent == Ref(n) && r[c].prevSibling == g[n].lastChild && r[n].lastChild == Ref(c)
    ensures g[n].lastChild.Nil? ==> r[n].firstChild == Ref(c)
    ensures g[n].lastChild.Ref? && g[n].lastChild.id != c ==> r[g[n].lastChild.id].nextSibling == Ref(c)
    ensures forall i :: 0 <= i < |g| && i != n && i != c && Ref(i) != g[n].lastChild ==> r[i] == g[i]
  {
    var last := g[n].lastChild;
    var g1 := if last.Ref? then g[last.id := g[last.id].(nextSibling := Ref(c))]
              else g[n := g[n].(firstChild := Ref(c))];
    var g2 := g1[n := g1[n].(lastChild := Ref(c))];
    g2[c := g2[c].(parent := Ref(n), prevSibling := last)]
  }

  lemma WfAppend(n: nat, ks: seq<Shape>, ids: set<nat>, csh: Shape)
    requires Wf(Shape(n, ks, ids)) && Wf(csh) && ids !! csh.ids
    ensures Wf(Shape(n, ks + [csh], ids + csh.ids))
  {
    var ks' := ks + [csh];
    forall i, j | 0 <= i < j < |ks'| ensures ks'[i].ids !! ks'[j].ids {
      if j == |ks| { assert ks[i].ids <= ids; }
    }
  }

  /** Record by record, what appending `c` under `n` changes between `g` and `g'`. */
  ghost predicate AppendStep(g: seq<Links>, g': seq<Links>, n: nat, c: nat)
    requires n < |g| && c < |g|
  {
    var last := g[n].lastChild;
    Outside(g, g', {n, c} + PtrIds(last)) &&
    g'[c] == g[c].(parent := Ref(n), prevSibling := last) &&
    g'[n] == g[n].(firstChild := if last.Nil? then Ref(c) else g[n].firstChild, lastChild := Ref(c)) &&
    (last.Ref? ==> last.id < |g| && g'[last.id] == g[last.id].(nextSibling := Ref(c)))
  }

  lemma AppendedStep(g: seq<Links>, n: nat, c: nat)
    requires Closed(g) && n < |g| && c < |g| && n != c
    requires g[n].lastChild != Ref(c) && g[n].lastChild != Ref(n)
    ensures AppendStep(g, Appended(g, n, c), n, c)
  {
  }

  /** A child's footprint misses its parent, its siblings' roots and anything outside the parent's footprint. */
  lemma KidApart(n: nat, ks: seq<Shape>, ids: set<nat>, i: nat, j: nat, other: set<nat>)
    requires Wf(Shape(n, ks, ids)) && i < |ks| && j < |ks| && ids !! other
    ensures ks[i].id in ks[i].ids && ks[i].ids <= ids
    ensures n !in ks[i].ids && ks[i].ids !! other
    ensures i != j ==> ks[j].id !in ks[i].ids && ks[j].id != ks[i].id
  {
    if i != j {
      assert ks[i].ids !! ks[j].ids && ks[j].id in ks[j].ids;
    }
  }

  /** The record of an earlier child after an append, and what the append leaves alone below it. */
  lemma AppendKidRecord(g: seq<Links>, g': seq<Links>, n: nat, ks: seq<Shape>, ids: set<nat>, csh: Shape, i: nat)
    requires Wf(Shape(n, ks, ids)) && InTable(Shape(n, ks, ids), g) && Wf(csh) && ids !! csh.ids && i < |ks|
    requires n < |g| && csh.id < |g| && g[n].lastChild == LastPtr(ks) && AppendStep(g, g', n, csh.id)
    ensures (ks[i].ids - {ks[i].id}) !! ({n, csh.id} + PtrIds(g[n].lastChild))
    ensures g'[ks[i].id] == if i == |ks| - 1 then g[ks[i].id].(nextSibling := Ref(csh.id)) else g[ks[i].id]
  {
    var q, l, c := ks[i].id, ks[|ks| - 1].id, csh.id;
    assert c in csh.ids;
    KidApart(n, ks, ids, i, |ks| - 1, csh.ids);
    var T := {n, c} + PtrIds(g[n].lastChild);
    assert T == {n, c, l};
    if i < |ks| - 1 {
      assert q !in T;
    } else {
      assert q == l;
    }
  }

  /** An earlier child keeps its links, except that the old last child now points on to `c`. */
  lemma AppendKeepsKid(g: seq<Links>, g': seq<Links>, n: nat, ks: seq<Shape>, ids: set<nat>, csh: Shape, i: nat)
    requires Linked(Shape(n, ks, ids), g) && Wf(csh) && InTable(csh, g) && ids !! csh.ids
    requires AppendStep(g, g', n, csh.id) && i < |ks|
    ensures InTable(ks[i], g') && Linked(ks[i], g')
    ensures g'[ks[i].id].parent == Ref(n) && g'[ks[i].id].prevSibling == PrevPtr(ks, i)
    ensures g'[ks[i].id].nextSibling == if i == |ks| - 1 then Ref(csh.id) else NextPtr(ks, i)
  {
    assert csh.id in csh.ids;
    AppendKidRecord(g, g', n, ks, ids, csh, i);
    Untouched(ks[i], g, g', {n, csh.id} + PtrIds(g[n].lastChild));
  }

  /** The appended tree hangs below `n` after the old last child and keeps its own links. */
  lemma AppendKeepsNew(g: seq<Links>, g': seq<Links>, n: nat, ks: seq<Shape>, ids: set<nat>, csh: Shape)
    requires Linked(Shape(n, ks, ids), g) && Linked(csh, g) && ids !! csh.ids
    requires g[csh.id].prevSibling == Nil && g[csh.id].nextSibling == Nil
    requires AppendStep(g, g', n, csh.id)
    ensures Linked(csh, g') && g'[csh.id].parent == Ref(n)
    ensures g'[csh.id].prevSibling == LastPtr(ks) && g'[csh.id].nextSibling == Nil
  {
    assert n in ids;
    if ks != [] {
      assert ks[|ks| - 1].id in ks[|ks| - 1].ids && ks[|ks| - 1].ids <= ids;
    }
    Untouched(csh, g, g', {n, csh.id} + PtrIds(g[n].lastChild));
  }

  /** Appending a detached tree as the last child keeps the links exact. */
  lemma AppendLinked(g: seq<Links>, g': seq<Links>, n: nat, ks: seq<Shape>, ids: set<nat>, csh: Shape)
    requires Linked(Shape(n, ks, ids), g) && Linked(csh, g) && ids !! csh.ids
    requires g[csh.id].parent == Nil && g[csh.id].prevSibling == Nil && g[csh.id].nextSibling == Nil
    requires AppendStep(g, g', n, csh.id)
    ensures Linked(Shape(n, ks + [csh], ids + csh.ids), g')
  {
    WfAppend(n, ks, ids, csh);
    var ks' := ks + [csh];
    forall j | 0 <= j < |ks'|
      ensures g'[ks'[j].id].parent == Ref(n) && g'[ks'[j].id].prevSibling == PrevPtr(ks', j) &&
              g'[ks'[j].id].nextSibling == NextPtr(ks', j) && Linked(ks'[j], g')
    {
      if j < |ks| {
        assert ks'[j] == ks[j];
        AppendKeepsKid(g, g', n, ks, ids, csh, j);
      } else {
        AppendKeepsNew(g, g', n, ks, ids, csh);
      }
    }
    LinkedIntro(n, ks', ids + csh.ids, g');
  }

  /** With `c` appended under `n`, the tree at `n` gains exactly `c`'s tree as its last child. */
  lemma AppendAbs(cs: seq<Content>, n: nat, ks: seq<Shape>, ids: set<nat>, csh: Shape)
    requires Wf(Shape(n, ks, ids)) && InTable(Shape(n, ks, ids), cs) && Wf(csh) && InTable(csh, cs) && ids !! csh.ids
    ensures Wf(Shape(n, ks + [csh], ids + csh.ids)) && InTable(Shape(n, ks + [csh], ids + csh.ids), cs)
    ensures Abs(Shape(n, ks + [csh], ids + csh.ids), cs) ==
            var t := Abs(Shape(n, ks, ids), cs); t.(kids := t.kids + [Abs(csh, cs)])
  {
    WfAppend(n, ks, ids, csh);
    assert Abs(Shape(n, ks + [csh], ids + csh.ids), cs).kids == Abs(Shape(n, ks, ids), cs).kids + [Abs(csh, cs)];
  }

  /** The mutable node table: the `*html.Node` values of one document, sharing links. */
  class Doc {
    var contents: seq<Content>
    var links: seq<Links>

    ghost predicate Valid()
      reads this
    {
      |contents| == |links| && Closed(links)
    }

    constructor (cs: seq<Content>, ls: seq<Links>)
      requires |cs| == |ls| && Closed(ls)
      ensures Valid() && contents == cs && links == ls
    {
      contents := cs;
      links := ls;
    }

    /** Allocates a fresh node with no links and returns its position. */
    method NewNode(c: Content) returns (p: nat)
      requires Valid()
      modifies this
      ensures Valid() && p == |old(links)|
      ensures contents == old(contents) + [c] && links == old(links) + [Detached]
    {
      p := |links|;
      contents := contents + [c];
      links := links + [Detached];
    }

    /**
     * `n.AppendChild(c)`; x/net/html panics when `c` is already attached,
     * so the model requires a detached child.
     */
    method AppendChild(n: nat, c: nat)
      requires Valid() && n < |links| && c < |links|
      requires links[c].parent == Nil && links[c].prevSibling == Nil && links[c].nextSibling == Nil
      modifies this`links
      ensures Valid() && links == Appended(old(links), n, c)
    {
      var last := links[n].lastChild;
      if last.Ref? {
        links := links[last.id := links[last.id].(nextSibling := Ref(c))];
      } else {
        links := links[n := links[n].(firstChild := Ref(c))];
      }
      links := links[n := links[n].(lastChild := Ref(c))];
      links := links[c := links[c].(parent := Ref(n), prevSibling := last)];
    }
  }
}
