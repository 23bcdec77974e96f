/**
 * html.go: `replaceChild`, which splices a node into a parent's child list,
 * and `replaceTextNodes`, which walks a tree rewriting its text nodes with
 * `replaceEmojis`. `RewriteKid` says, on plain tree values, what the walk
 * makes of a node; the methods are proved to do exactly that to the table.
 */
module Rewrite {
  import opened Results
  import opened Dom
  import opened Matching
  import opened Splice
  import opened Html

  // ---------------------------------------------------------------------
  // What the walk computes

  /** `do(node)` followed by the splice: the span for the text, or the text itself when nothing matched. */
  function RewriteText(ix: Index, t: Tree): (r: Tree)
    ensures Scan(ix, t.data).None? ==> r == t
    ensures Scan(ix, t.data).Some? ==>
      r.kind == ElementNode && r.data == "span" && r.attrs == [] && |r.kids| == |Scan(ix, t.data).value|
  {
    match Scan(ix, t.data)
    case None => t
    case Some(ps) => SpanTree(ps)
  }

  /**
   * What `replaceTextNodes` makes of a node below the root: a text node is
   * rewritten as a whole, any other node keeps its content and has each of
   * its children rewritten. The spans put in place are not visited again.
   */
  function RewriteKid(ix: Index, t: Tree): (r: Tree)
    ensures r == t <==> Quiet(ix, t)
    decreases t
  {
    if t.kind == TextNode then RewriteText(ix, t)
    else
      var r := t.(kids := seq(|t.kids|, i requires 0 <= i < |t.kids| => RewriteKid(ix, t.kids[i])));
      assert Quiet(ix, t) ==> r.kids == t.kids;
      assert r == t ==> forall i :: 0 <= i < |t.kids| ==> RewriteKid(ix, t.kids[i]) == t.kids[i];
      r
  }

  /** No text node of `t` holds anything the scan would replace. */
  ghost predicate Quiet(ix: Index, t: Tree)
    decreases t
  {
    if t.kind == TextNode then Scan(ix, t.data).None?
    else forall i :: 0 <= i < |t.kids| ==> Quiet(ix, t.kids[i])
  }

  /** A tree without text nodes. */
  ghost predicate NoText(t: Tree)
    decreases t
  {
    t.kind != TextNode && forall i :: 0 <= i < |t.kids| ==> NoText(t.kids[i])
  }

  /** A node that is not text keeps its own content and its number of children. */
  lemma RewriteKeepsNode(ix: Index, t: Tree)
    requires t.kind != TextNode
    ensures var r := RewriteKid(ix, t);
      r.kind == t.kind && r.data == t.data && r.attrs == t.attrs && |r.kids| == |t.kids|
  {
  }

  /** A text node turns into a `<span>` exactly when its scan matched something. */
  lemma RewriteTextNode(ix: Index, t: Tree)
    requires t.kind == TextNode
    ensures RewriteKid(ix, t) == t <==> Scan(ix, t.data).None?
    ensures Scan(ix, t.data).Some? ==> RewriteKid(ix, t) == SpanTree(Scan(ix, t.data).value)
  {
    if Scan(ix, t.data).Some? {
      assert RewriteKid(ix, t).kind == ElementNode;
    }
  }

  /** Without text nodes there is nothing to rewrite. */
  lemma {:induction false} NoTextFixed(ix: Index, t: Tree)
    requires NoText(t)
    ensures RewriteKid(ix, t) == t
    decreases t
  {
    forall i | 0 <= i < |t.kids| ensures RewriteKid(ix, t.kids[i]) == t.kids[i] {
      NoTextFixed(ix, t.kids[i]);
    }
    assert RewriteKid(ix, t).kids == t.kids;
  }

  /** The tree with its first `k` children rewritten and the rest as they were. */
  function Partial(ix: Index, t: Tree, k: nat): Tree
  {
    t.(kids := seq(|t.kids|, i requires 0 <= i < |t.kids| => if i < k then RewriteKid(ix, t.kids[i]) else t.kids[i]))
  }

  lemma PartialStart(ix: Index, t: Tree)
    ensures Partial(ix, t, 0) == t
  {
    assert Partial(ix, t, 0).kids == t.kids;
  }

  lemma PartialStep(ix: Index, t: Tree, k: nat)
    requires k < |t.kids|
    ensures var u := Partial(ix, t, k);
      Partial(ix, t, k + 1) == u.(kids := u.kids[k := RewriteKid(ix, t.kids[k])])
  {
    var u := Partial(ix, t, k);
    assert Partial(ix, t, k + 1).kids == u.kids[k := RewriteKid(ix, t.kids[k])];
  }

  lemma PartialDone(ix: Index, t: Tree)
    requires t.kind != TextNode
    ensures Partial(ix, t, |t.kids|) == RewriteKid(ix, t)
  {
    assert Partial(ix, t, |t.kids|).kids == RewriteKid(ix, t).kids;
  }

  // ---------------------------------------------------------------------
  // Sibling walks

  /** Following `NextSibling` from `p` visits exactly the positions `sibs`, then reaches nil. */
  ghost predicate Walk(g: seq<Links>, p: Ptr, sibs: seq<nat>)
    decreases |sibs|
  {
    if sibs == [] then p == Nil
    else p == Ref(sibs[0]) && sibs[0] < |g| && Walk(g, g[sibs[0]].nextSibling, sibs[1..])
  }

  function KidIds(ks: seq<Shape>): (r: seq<nat>)
    ensures |r| == |ks| && forall i :: 0 <= i < |ks| ==> r[i] == ks[i].id
  {
    seq(|ks|, i requires 0 <= i < |ks| => ks[i].id)
  }

  lemma {:induction false} WalkFrom(g: seq<Links>, p: nat, ks: seq<Shape>, ids: set<nat>, j: nat)
    requires Linked(Shape(p, ks, ids), g) && j < |ks|
    ensures Walk(g, Ref(ks[j].id), KidIds(ks)[j..])
    decreases |ks| - j
  {
    SiblingFacts(g, p, ks, ids, j);
    var w := KidIds(ks)[j..];
    if j + 1 < |ks| {
      WalkFrom(g, p, ks, ids, j + 1);
      assert w[1..] == KidIds(ks)[j + 1..];
    } else {
      assert w[1..] == [];
    }
  }

  /** In a linked tree, a node's children are exactly the walk from its first child. */
  lemma KidsWalk(g: seq<Links>, p: nat, ks: seq<Shape>, ids: set<nat>)
    requires Linked(Shape(p, ks, ids), g)
    ensures Walk(g, g[p].firstChild, KidIds(ks))
  {
    if ks != [] {
      WalkFrom(g, p, ks, ids, 0);
      assert KidIds(ks)[0..] == KidIds(ks);
    }
  }

  // ---------------------------------------------------------------------
  // replaceChild

  /** Every link the splice writes is `r` or a link `t` already had, so the table stays closed. */
  lemma SplicedClosed(g: seq<Links>, t: nat, r: nat)
    requires Closed(g) && t < |g| && r < |g|
    ensures Closed(ParentRelinked(g, t, r))
    ensures Closed(PrevRelinked(ParentRelinked(g, t, r), t, r))
    ensures Closed(Spliced(g, t, r))
  {
    var g1 := ParentRelinked(g, t, r);
    assert Closed(g1) by {
      forall i | 0 <= i < |g1| ensures LinksIn(g1[i], |g1|) {
        assert g1[i] == g[i] || (g[t].parent == Ref(i) && LinksIn(g1[i], |g1|));
      }
    }
    var g3 := PrevRelinked(g1, t, r);
    var prev := g1[t].prevSibling;
    var g2 := if prev.Ref? then g1[prev.id := g1[prev.id].(nextSibling := Ref(r))] else g1;
    assert Closed(g2) by {
      forall i | 0 <= i < |g2| ensures LinksIn(g2[i], |g2|) {
        assert g2[i] == g1[i] || (prev == Ref(i) && LinksIn(g2[i], |g2|));
      }
    }
    assert Closed(g3) by {
      forall i | 0 <= i < |g3| ensures LinksIn(g3[i], |g3|) {
        assert g3[i] == g2[i] || i == r;
      }
    }
    var g5 := NextRelinked(g3, t, r);
    var next := g3[t].nextSibling;
    var g4 := if next.Ref? then g3[next.id := g3[next.id].(prevSibling := Ref(r))] else g3;
    assert Closed(g4) by {
      forall i | 0 <= i < |g4| ensures LinksIn(g4[i], |g4|) {
        assert g4[i] == g3[i] || (next == Ref(i) && LinksIn(g4[i], |g4|));
      }
    }
    assert Closed(g5) by {
      forall i | 0 <= i < |g5| ensures LinksIn(g5[i], |g5|) {
        assert g5[i] == g4[i] || i == r;
      }
    }
  }

  /**
   * The found-target branch of `replaceChild`: `t`'s parent's first/last
   * child, `t`'s previous sibling's next link, `r`'s previous link, `t`'s
   * next sibling's previous link and `r`'s next link, in that order.
   */
  method Relink(doc: Doc, t: nat, r: nat)
    requires doc.Valid() && t < |doc.links| && r < |doc.links|
    modifies doc`links
    ensures doc.Valid() && doc.links == Spliced(old(doc.links), t, r)
  {
    ghost var g := doc.links;
    SplicedClosed(g, t, r);
    var n := Ref(t);
    var p := doc.links[t].parent;
    if p.Ref? {
      if doc.links[p.id].firstChild == n {
        doc.links := doc.links[p.id := doc.links[p.id].(firstChild := Ref(r))];
      }
      if doc.links[p.id].lastChild == n {
        doc.links := doc.links[p.id := doc.links[p.id].(lastChild := Ref(r))];
      }
    }
    assert doc.links == ParentRelinked(g, t, r);
    ghost var g1 := doc.links;
    var prev := doc.links[t].prevSibling;
    if prev.Ref? {
      doc.links := doc.links[prev.id := doc.links[prev.id].(nextSibling := Ref(r))];
    }
    doc.links := doc.links[r := doc.links[r].(prevSibling := doc.links[t].prevSibling)];
    assert doc.links == PrevRelinked(g1, t, r);
    var next := doc.links[t].nextSibling;
    if next.Ref? {
      doc.links := doc.links[next.id := doc.links[next.id].(prevSibling := Ref(r))];
    }
    doc.links := doc.links[r := doc.links[r].(nextSibling := doc.links[t].nextSibling)];
  }

  /**
   * `replaceChild(parent, target, replace)` as written: when all three are
   * non-nil and `target` is among `parent`'s children, the splice of
   * `Spliced`; otherwise nothing changes. `sibs` is the list of `parent`'s
   * children, which the sibling walk must reach the end of.
   */
  method ReplaceChild(doc: Doc, parent: Ptr, target: Ptr, replace: Ptr, ghost sibs: seq<nat>) returns (ok: bool)
    requires doc.Valid() && PtrIn(parent, |doc.links|) && PtrIn(target, |doc.links|) && PtrIn(replace, |doc.links|)
    requires parent.Ref? ==> Walk(doc.links, doc.links[parent.id].firstChild, sibs)
    modifies doc`links
    ensures doc.Valid()
    ensures ok <==> parent.Ref? && target.Ref? && replace.Ref? && target.id in sibs
    ensures ok ==> doc.links == Spliced(old(doc.links), target.id, replace.id)
    ensures !ok ==> doc.links == old(doc.links)
  {
    if parent.Nil? || target.Nil? || replace.Nil? {
      return false;
    }
    var n := doc.links[parent.id].firstChild;
    ghost var k := 0;
    while n != Nil
      invariant doc.links == old(doc.links) && k <= |sibs| && Walk(doc.links, n, sibs[k..])
      invariant forall j :: 0 <= j < k ==> sibs[j] != target.id
      decreases |sibs| - k
    {
      assert sibs[k..][1..] == sibs[k + 1..];
      if n == target {
        var t, r := n.id, replace.id;
        Relink(doc, t, r);
        assert sibs[k] == t;
        return true;
      }
      n := doc.links[n.id].nextSibling;
      k := k + 1;
    }
    assert sibs[k..] == [];
    return false;
  }

  /** `replaceChild` with the replacement's parent link set as well (`replace.Parent = parent`). */
  method ReplaceChildLinked(doc: Doc, parent: Ptr, target: Ptr, replace: Ptr, ghost sibs: seq<nat>) returns (ok: bool)
    requires doc.Valid() && PtrIn(parent, |doc.links|) && PtrIn(target, |doc.links|) && PtrIn(replace, |doc.links|)
    requires parent.Ref? ==> Walk(doc.links, doc.links[parent.id].firstChild, sibs)
    modifies doc`links
    ensures doc.Valid()
    ensures ok <==> parent.Ref? && target.Ref? && replace.Ref? && target.id in sibs
    ensures ok ==> doc.links == SplicedLinked(old(doc.links), parent.id, target.id, replace.id)
    ensures !ok ==> doc.links == old(doc.links)
  {
    ok := ReplaceChild(doc, parent, target, replace, sibs);
    if ok {
      doc.links := doc.links[replace.id := doc.links[replace.id].(parent := parent)];
    }
  }

  // ---------------------------------------------------------------------
  // Trees in place

  /**
   * `sh'` stands where `sh` stood in `g`: the same root, linked in `g'`, the
   * root's own parent and sibling links kept, nothing outside `sh`'s
   * footprint changed, and every position it adds fresh.
   */
  ghost predicate Replaced(g: seq<Links>, g': seq<Links>, cs': seq<Content>, sh: Shape, sh': Shape)
  {
    sh'.id == sh.id && sh.id < |g| && Linked(sh', g') && InTable(sh', cs') &&
    g'[sh.id].parent == g[sh.id].parent && g'[sh.id].prevSibling == g[sh.id].prevSibling &&
    g'[sh.id].nextSibling == g[sh.id].nextSibling &&
    Outside(g, g', sh.ids) && (forall i :: i in sh'.ids ==> i in sh.ids || |g| <= i)
  }

  lemma UpdateSame<T>(s: seq<T>, k: nat)
    requires k < |s|
    ensures s[k := s[k]] == s
  {
  }

  /** Putting `x` in place of child `k` puts its tree in place of the `k`-th subtree. */
  lemma AbsPut(cs: seq<Content>, p: nat, ks: seq<Shape>, ids: set<nat>, k: nat, x: Shape, ks': seq<Shape>, ids': set<nat>)
    requires Wf(Shape(p, ks, ids)) && InTable(Shape(p, ks, ids), cs) && k < |ks| && ks' == ks[k := x]
    requires Wf(Shape(p, ks', ids')) && InTable(Shape(p, ks', ids'), cs) && Wf(x) && InTable(x, cs)
    ensures var t := Abs(Shape(p, ks, ids), cs);
      Abs(Shape(p, ks', ids'), cs) == t.(kids := t.kids[k := Abs(x, cs)])
  {
    assert Abs(Shape(p, ks', ids'), cs).kids == Abs(Shape(p, ks, ids), cs).kids[k := Abs(x, cs)];
  }

  lemma OutsideJoin(g: seq<Links>, g1: seq<Links>, g2: seq<Links>, a: set<nat>, b: set<nat>, c: set<nat>)
    requires Outside(g, g1, a) && Outside(g1, g2, b)
    requires forall i :: i in b && i < |g| ==> i in c
    requires a <= c
    ensures Outside(g, g2, c)
  {
  }

  /**
   * What the text case of the walk did to `node`, child `k` of `parent`:
   * with no parent nothing that was there changed; under a parent, child
   * `k` became the tree `RewriteText` gives, in place, the other children
   * untouched. When the scan found nothing, not a single existing link
   * changed and the parent's shape is the one it had.
   */
  ghost predicate TextDone(g: seq<Links>, g': seq<Links>, cs: seq<Content>, cs': seq<Content>, ix: Index,
                           parent: Ptr, node: nat, ks: seq<Shape>, ids: set<nat>, k: nat, ks': seq<Shape>, ids': set<nat>)
  {
    cs <= cs' && node < |cs| && node < |g| <= |g'| && g'[node] == g[node] &&
    (parent.Nil? ==> Outside(g, g', {})) &&
    (Scan(ix, cs[node].data).None? ==> ks' == ks && ids' == ids && Outside(g, g', {})) &&
    (parent.Ref? ==>
      k < |ks| && |ks'| == |ks| && (forall j :: 0 <= j < |ks| && j != k ==> ks'[j] == ks[j]) &&
      Wf(Shape(parent.id, ks, ids)) && InTable(Shape(parent.id, ks, ids), cs) &&
      Replaced(g, g', cs', Shape(parent.id, ks, ids), Shape(parent.id, ks', ids')) &&
      Abs(Shape(parent.id, ks', ids'), cs') ==
        var t := Abs(Shape(parent.id, ks, ids), cs); t.(kids := t.kids[k := RewriteText(ix, t.kids[k])]))
  }

  /** Without a parent, `replaceChild` does nothing: only the allocation of `do(node)` is left. */
  lemma TextOrphan(g: seq<Links>, g1: seq<Links>, cs: seq<Content>, cs1: seq<Content>, ix: Index,
                   node: nat, ks: seq<Shape>, ids: set<nat>, k: nat)
    requires Outside(g, g1, {}) && cs <= cs1 && node < |g| && node < |cs|
    ensures TextDone(g, g1, cs, cs1, ix, Nil, node, ks, ids, k, ks, ids)
  {
  }

  /** The scan found nothing: only a detached span was allocated, and the tree is as it was. */
  lemma TextKept(g: seq<Links>, g1: seq<Links>, cs: seq<Content>, cs1: seq<Content>, ix: Index,
                 p: nat, ks: seq<Shape>, ids: set<nat>, k: nat)
    requires Linked(Shape(p, ks, ids), g) && InTable(Shape(p, ks, ids), cs) && k < |ks|
    requires Outside(g, g1, {}) && cs <= cs1 && |cs1| == |g1|
    requires Scan(ix, cs[ks[k].id].data).None?
    ensures TextDone(g, g1, cs, cs1, ix, Ref(p), ks[k].id, ks, ids, k, ks, ids)
  {
    var sh := Shape(p, ks, ids);
    assert p in ids && ks[k].id in ks[k].ids && ks[k].ids <= ids;
    Untouched(sh, g, g1, {});
    AbsGrow(sh, cs, cs1);
    var t := Abs(sh, cs);
    assert t.kids[k] == Abs(ks[k], cs);
    UpdateSame(t.kids, k);
  }

  /** What a splice step touches: the parent, the replacement and the two neighbours, not the target. */
  lemma TouchedSet(t: nat, p: nat, r: nat, prev: Ptr, next: Ptr, ids: set<nat>, n: nat)
    requires t != p && t != r && Ref(t) != prev && Ref(t) != next
    requires p in ids && (prev.Ref? ==> prev.id in ids) && (next.Ref? ==> next.id in ids) && n <= r
    ensures t !in {p, r} + PtrIds(prev) + PtrIds(next)
    ensures forall i :: i in {p, r} + PtrIds(prev) + PtrIds(next) && i < n ==> i in ids
  {
  }

  /** The records a splice step below `p` leaves alone: the target's, and the parent's own parent and sibling links. */
  lemma SpliceRecordsKept(g: seq<Links>, g1: seq<Links>, g2: seq<Links>, p: nat, ks: seq<Shape>, k: nat, r: nat, ids: set<nat>)
    requires p < |g| <= |g1| && r < |g1| && k < |ks| && ks[k].id < |g| && |g| <= r
    requires Outside(g, g1, {}) && SpliceStep(g1, g2, p, ks, k, r, Ref(p))
    requires ks[k].id != p && Ref(ks[k].id) != PrevPtr(ks, k) && Ref(ks[k].id) != NextPtr(ks, k)
    requires p in ids && (PrevPtr(ks, k).Ref? ==> PrevPtr(ks, k).id in ids) && (NextPtr(ks, k).Ref? ==> NextPtr(ks, k).id in ids)
    ensures g2[ks[k].id] == g[ks[k].id] && Outside(g, g2, ids)
    ensures g2[p].parent == g[p].parent && g2[p].prevSibling == g[p].prevSibling && g2[p].nextSibling == g[p].nextSibling
  {
    var prev, next := PrevPtr(ks, k), NextPtr(ks, k);
    TouchedSet(ks[k].id, p, r, prev, next, ids, |g|);
    OutsideJoin(g, g1, g2, {}, {p, r} + PtrIds(prev) + PtrIds(next), ids);
  }

  /** The span in the text node's place stands where the parent's tree stood. */
  lemma ReplacedBySplice(g: seq<Links>, g2: seq<Links>, cs1: seq<Content>, p: nat, ks: seq<Shape>, ids: set<nat>, k: nat, rsh: Shape)
    requires p < |g| && k < |ks| && Linked(Shape(p, ks[k := rsh], ids + rsh.ids), g2)
    requires InTable(Shape(p, ks, ids), cs1) && InTable(rsh, cs1) && (forall i :: i in rsh.ids ==> |g| <= i)
    requires g2[p].parent == g[p].parent && g2[p].prevSibling == g[p].prevSibling && g2[p].nextSibling == g[p].nextSibling
    requires Outside(g, g2, ids)
    ensures Replaced(g, g2, cs1, Shape(p, ks, ids), Shape(p, ks[k := rsh], ids + rsh.ids))
  {
  }

  /** The links half of `TextSpliced`. */
  lemma TextSplicedLinks(g: seq<Links>, g1: seq<Links>, g2: seq<Links>, cs1: seq<Content>,
                         p: nat, ks: seq<Shape>, ids: set<nat>, k: nat, rsh: Shape)
    requires Closed(g1) && Linked(Shape(p, ks, ids), g) && k < |ks| && Outside(g, g1, {}) && |cs1| == |g1|
    requires Linked(rsh, g1) && InTable(rsh, cs1) && InTable(Shape(p, ks, ids), cs1)
    requires forall i :: i in rsh.ids ==> |g| <= i
    requires g2 == SplicedLinked(g1, p, ks[k].id, rsh.id)
    ensures ids !! rsh.ids && g2[ks[k].id] == g[ks[k].id]
    ensures Replaced(g, g2, cs1, Shape(p, ks, ids), Shape(p, ks[k := rsh], ids + rsh.ids))
  {
    var sh := Shape(p, ks, ids);
    Untouched(sh, g, g1, {});
    assert ids !! rsh.ids;
    assert rsh.id in rsh.ids;
    SplicedLinkedKeeps(g1, p, ks, ids, k, rsh);
    SplicedLinkedStep(g1, p, ks, ids, k, rsh.id);
    SiblingFacts(g1, p, ks, ids, k);
    SpliceRecordsKept(g, g1, g2, p, ks, k, rsh.id, ids);
    ReplacedBySplice(g, g2, cs1, p, ks, ids, k, rsh);
  }

  /** The tree value of the parent after the splice: child `k` became the span. */
  lemma TextSplicedAbs(cs: seq<Content>, cs1: seq<Content>, ix: Index, p: nat, ks: seq<Shape>, ids: set<nat>, k: nat,
                       rsh: Shape, ids': set<nat>)
    requires Wf(Shape(p, ks, ids)) && InTable(Shape(p, ks, ids), cs) && k < |ks| && cs <= cs1
    requires Wf(Shape(p, ks[k := rsh], ids')) && InTable(Shape(p, ks[k := rsh], ids'), cs1)
    requires Wf(rsh) && InTable(rsh, cs1) && Scan(ix, cs[ks[k].id].data).Some?
    requires Abs(rsh, cs1) == SpanTree(Scan(ix, cs[ks[k].id].data).value)
    ensures var t := Abs(Shape(p, ks, ids), cs);
      Abs(Shape(p, ks[k := rsh], ids'), cs1) == t.(kids := t.kids[k := RewriteText(ix, t.kids[k])])
  {
    var sh := Shape(p, ks, ids);
    assert ks[k := rsh][k] == rsh;
    AbsGrow(sh, cs, cs1);
    AbsPut(cs1, p, ks, ids, k, rsh, ks[k := rsh], ids');
    var t := Abs(sh, cs);
    assert t.kids[k] == Abs(ks[k], cs);
  }

  /** The scan matched: the span takes the text node's place below `p`. */
  lemma TextSpliced(g: seq<Links>, g1: seq<Links>, g2: seq<Links>, cs: seq<Content>, cs1: seq<Content>, ix: Index,
                    p: nat, ks: seq<Shape>, ids: set<nat>, k: nat, rsh: Shape)
    requires Closed(g1) && Linked(Shape(p, ks, ids), g) && InTable(Shape(p, ks, ids), cs) && k < |ks|
    requires Outside(g, g1, {}) && cs <= cs1 && |cs1| == |g1|
    requires Scan(ix, cs[ks[k].id].data).Some?
    requires Linked(rsh, g1) && InTable(rsh, cs1) && (forall i :: i in rsh.ids ==> |g| <= i)
    requires Abs(rsh, cs1) == SpanTree(Scan(ix, cs[ks[k].id].data).value)
    requires g2 == SplicedLinked(g1, p, ks[k].id, rsh.id)
    ensures TextDone(g, g2, cs, cs1, ix, Ref(p), ks[k].id, ks, ids, k, ks[k := rsh], ids + rsh.ids)
  {
    var sh := Shape(p, ks, ids);
    assert InTable(sh, cs1);
    TextSplicedLinks(g, g1, g2, cs1, p, ks, ids, k, rsh);
    TextSplicedAbs(cs, cs1, ix, p, ks, ids, k, rsh, ids + rsh.ids);
  }

  /** Both outcomes of the text case at once, from what `do(node)` and `replaceChild` promise. */
  lemma TextCase(g: seq<Links>, g1: seq<Links>, g2: seq<Links>, cs: seq<Content>, cs1: seq<Content>, ix: Index,
                 parent: Ptr, node: nat, ks: seq<Shape>, ids: set<nat>, k: nat, res: Ptr, rsh: Shape,
                 ks': seq<Shape>, ids': set<nat>)
    requires Closed(g1) && |cs1| == |g1| && node < |cs| && node < |g| && cs <= cs1 && Outside(g, g1, {})
    requires parent.Ref? ==>
      Linked(Shape(parent.id, ks, ids), g) && InTable(Shape(parent.id, ks, ids), cs) && k < |ks| && ks[k].id == node
    requires res.Nil? <==> Scan(ix, cs[node].data).None?
    requires res.Ref? ==>
      res.id == rsh.id && Linked(rsh, g1) && InTable(rsh, cs1) && (forall i :: i in rsh.ids ==> |g| <= i) &&
      Abs(rsh, cs1) == SpanTree(Scan(ix, cs[node].data).value)
    requires g2 == if res.Ref? && parent.Ref? then SplicedLinked(g1, parent.id, node, res.id) else g1
    requires ks' == (if res.Ref? && parent.Ref? then ks[k := rsh] else ks)
    requires ids' == (if res.Ref? && parent.Ref? then ids + rsh.ids else ids)
    ensures TextDone(g, g2, cs, cs1, ix, parent, node, ks, ids, k, ks', ids')
  {
    if parent.Nil? {
      TextOrphan(g, g2, cs, cs1, ix, node, ks, ids, k);
    } else if res.Nil? {
      TextKept(g, g1, cs, cs1, ix, parent.id, ks, ids, k);
    } else {
      TextSpliced(g, g1, g2, cs, cs1, ix, parent.id, ks, ids, k, rsh);
    }
  }

  /**
   * The text case of `replaceTextNodes`, for `node`, child `k` of `parent`:
   * the node is rewritten with `replaceEmojis` and, when that gives a span,
   * the span is put in its place with `replaceChild`.
   */
  method SpliceText(doc: Doc, ix: Index, parent: Ptr, node: nat, ghost ks: seq<Shape>, ghost ids: set<nat>, ghost k: nat)
    returns (ghost ks': seq<Shape>, ghost ids': set<nat>)
    requires doc.Valid() && node < |doc.contents| && PtrIn(parent, |doc.links|)
    requires parent.Ref? ==>
      Linked(Shape(parent.id, ks, ids), doc.links) && InTable(Shape(parent.id, ks, ids), doc.contents) &&
      k < |ks| && ks[k].id == node
    modifies doc
    ensures doc.Valid()
    ensures TextDone(old(doc.links), doc.links, old(doc.contents), doc.contents, ix, parent, node, ks, ids, k, ks', ids')
  {
    ghost var g, cs := doc.links, doc.contents;
    var rewrite, span := ReplaceEmojis(doc, ix, node);
    ghost var g1, cs1 := doc.links, doc.contents;
    if rewrite != Nil {
      ghost var sibs: seq<nat> := [];
      if parent.Ref? {
        Untouched(Shape(parent.id, ks, ids), g, g1, {});
        KidsWalk(g1, parent.id, ks, ids);
        sibs := KidIds(ks);
        assert sibs[k] == node;
      }
      var ok := ReplaceChildLinked(doc, parent, Ref(node), rewrite, sibs);
    }
    ks' := if rewrite.Ref? && parent.Ref? then ks[k := span] else ks;
    ids' := if rewrite.Ref? && parent.Ref? then ids + span.ids else ids;
    TextCase(g, g1, doc.links, cs, cs1, ix, parent, node, ks, ids, k, rewrite, span, ks', ids');
  }

  // ---------------------------------------------------------------------
  // The walk over a node's children

  /** Two child lists with the same positions have the same first, last, previous and next pointers. */
  lemma SamePtrs(ks: seq<Shape>, ks': seq<Shape>)
    requires |ks| == |ks'| && forall j :: 0 <= j < |ks| ==> ks'[j].id == ks[j].id
    ensures FirstPtr(ks') == FirstPtr(ks) && LastPtr(ks') == LastPtr(ks)
    ensures forall j :: 0 <= j < |ks| ==> PrevPtr(ks', j) == PrevPtr(ks, j) && NextPtr(ks', j) == NextPtr(ks, j)
  {
  }

  /** Replacing in two rounds is replacing. */
  lemma ReplacedTrans(g0: seq<Links>, g1: seq<Links>, g2: seq<Links>, cs1: seq<Content>, cs2: seq<Content>,
                      sh: Shape, sh1: Shape, sh2: Shape)
    requires Replaced(g0, g1, cs1, sh, sh1) && Replaced(g1, g2, cs2, sh1, sh2)
    ensures Replaced(g0, g2, cs2, sh, sh2)
  {
    OutsideJoin(g0, g1, g2, sh.ids, sh1.ids, sh.ids);
  }

  /** The new shape of the parent is well formed when child `k` was replaced by `c`. */
  lemma WfSwap(g: seq<Links>, p: nat, ks: seq<Shape>, ids: set<nat>, k: nat, c: Shape)
    requires Wf(Shape(p, ks, ids)) && InTable(Shape(p, ks, ids), g) && k < |ks| && Wf(c) && c.id == ks[k].id
    requires forall i :: i in c.ids ==> i in ks[k].ids || |g| <= i
    ensures Wf(Shape(p, ks[k := c], ids + c.ids))
  {
    var ks' := ks[k := c];
    assert p in ids;
    forall i | 0 <= i < |ks'|
      ensures ks'[i].id in ks'[i].ids && ks'[i].ids <= ids + c.ids && p !in ks'[i].ids && Wf(ks'[i])
    {
      KidApart(p, ks, ids, k, k, {});
    }
    forall i, j | 0 <= i < j < |ks'| ensures ks'[i].ids !! ks'[j].ids {
      if i == k {
        KidApart(p, ks, ids, k, j, {});
        assert ks[k].ids !! ks[j].ids && ks[j].ids <= ids;
      } else if j == k {
        KidApart(p, ks, ids, i, k, {});
        assert ks[i].ids !! ks[k].ids && ks[i].ids <= ids;
      }
    }
  }

  /** Child `j` of the parent, after child `k` was replaced in place by `c`. */
  lemma SwapKeeps(g: seq<Links>, g': seq<Links>, cs': seq<Content>, p: nat, ks: seq<Shape>, ids: set<nat>, k: nat, c: Shape, j: nat)
    requires Linked(Shape(p, ks, ids), g) && k < |ks| && j < |ks| && Replaced(g, g', cs', ks[k], c)
    ensures var ks' := ks[k := c];
      g'[ks'[j].id].parent == Ref(p) && g'[ks'[j].id].prevSibling == PrevPtr(ks, j) &&
      g'[ks'[j].id].nextSibling == NextPtr(ks, j) && Linked(ks'[j], g')
  {
    if j != k {
      KidApart(p, ks, ids, j, k, {});
      KidApart(p, ks, ids, k, j, {});
      assert ks[j].ids !! ks[k].ids && ks[j].id < |g|;
      Untouched(ks[j], g, g', ks[k].ids);
    }
  }

  /** A child replaced in place makes its parent replaced in place. */
  lemma KidSwap(g: seq<Links>, g': seq<Links>, cs': seq<Content>, p: nat, ks: seq<Shape>, ids: set<nat>, k: nat, c: Shape)
    requires Linked(Shape(p, ks, ids), g) && InTable(Shape(p, ks, ids), cs') && k < |ks| && |cs'| == |g'|
    requires Replaced(g, g', cs', ks[k], c)
    ensures Replaced(g, g', cs', Shape(p, ks, ids), Shape(p, ks[k := c], ids + c.ids))
  {
    KidSwapLinked(g, g', cs', p, ks, ids, k, c);
    KidApart(p, ks, ids, k, k, {});
    assert p !in ks[k].ids && ks[k].ids <= ids && p < |g|;
  }

  lemma KidSwapLinked(g: seq<Links>, g': seq<Links>, cs': seq<Content>, p: nat, ks: seq<Shape>, ids: set<nat>, k: nat, c: Shape)
    requires Linked(Shape(p, ks, ids), g) && k < |ks| && Replaced(g, g', cs', ks[k], c)
    ensures Linked(Shape(p, ks[k := c], ids + c.ids), g')
  {
    var ks' := ks[k := c];
    SiblingFacts(g, p, ks, ids, k);
    KidApart(p, ks, ids, k, k, {});
    WfSwap(g, p, ks, ids, k, c);
    SamePtrs(ks, ks');
    forall j | 0 <= j < |ks'|
      ensures g'[ks'[j].id].parent == Ref(p) && g'[ks'[j].id].prevSibling == PrevPtr(ks', j) &&
              g'[ks'[j].id].nextSibling == NextPtr(ks', j) && Linked(ks'[j], g')
    {
      SwapKeeps(g, g', cs', p, ks, ids, k, c, j);
    }
    LinkedIntro(p, ks', ids + c.ids, g');
  }

  /** The first `k` children of `t` are quiet. */
  ghost predicate QuietUpTo(ix: Index, t: Tree, k: nat)
  {
    forall j :: 0 <= j < k && j < |t.kids| ==> Quiet(ix, t.kids[j])
  }

  /**
   * How the walk left child shape `a` (of tree `u`) as `b`: a text child
   * whose scan found nothing is the same child; any other child keeps its
   * position, as do all its element descendants (`Kept`).
   */
  ghost predicate KidKept(ix: Index, u: Tree, a: Shape, b: Shape)
    decreases u, 1
  {
    if u.kind == TextNode then (Scan(ix, u.data).None? ==> b == a)
    else Kept(ix, u, a, b)
  }

  /** `sh'` keeps the root of `sh` (whose tree is `t`) and, child by child, what `KidKept` says. */
  ghost predicate Kept(ix: Index, t: Tree, sh: Shape, sh': Shape)
    decreases t, 0
  {
    sh'.id == sh.id && |sh'.kids| == |sh.kids| && |sh.kids| == |t.kids| &&
    forall j :: 0 <= j < |t.kids| ==> KidKept(ix, t.kids[j], sh.kids[j], sh'.kids[j])
  }

  /**
   * What the walk over the children of `sh` (tree `t`) has kept after `k`
   * turns: while every child so far was quiet, nothing changed at all, and
   * each child visited is kept as `KidKept` says.
   */
  ghost predicate WalkKeeps(ix: Index, t: Tree, g0: seq<Links>, g: seq<Links>, sh: Shape, ks: seq<Shape>, ids: set<nat>, k: nat)
  {
    k <= |ks| && |ks| == |sh.kids| && |sh.kids| == |t.kids| &&
    (QuietUpTo(ix, t, k) ==> ks == sh.kids && ids == sh.ids && Outside(g0, g, {})) &&
    (forall j :: 0 <= j < k ==> KidKept(ix, t.kids[j], sh.kids[j], ks[j]))
  }

  lemma KeepsStep(ix: Index, t: Tree, g0: seq<Links>, g: seq<Links>, g': seq<Links>, sh: Shape,
                  ks: seq<Shape>, ids: set<nat>, k: nat, ks': seq<Shape>, ids': set<nat>)
    requires WalkKeeps(ix, t, g0, g, sh, ks, ids, k) && k < |ks| && ks[k] == sh.kids[k]
    requires |ks'| == |ks| && forall j :: 0 <= j < |ks| && j != k ==> ks'[j] == ks[j]
    requires KidKept(ix, t.kids[k], sh.kids[k], ks'[k])
    requires Quiet(ix, t.kids[k]) ==> ks'[k] == ks[k] && ids' == ids && Outside(g, g', {})
    ensures WalkKeeps(ix, t, g0, g', sh, ks', ids', k + 1)
  {
    if QuietUpTo(ix, t, k + 1) {
      assert QuietUpTo(ix, t, k);
      assert ks' == ks;
    }
  }

  /**
   * Where the walk over the children of `sh` stands after `k` turns: the
   * children before `k` were rewritten in place, the rest are those of
   * `sh`, `node` is child `k` (nil after the last one), and nothing outside
   * the subtree changed.
   */
  ghost predicate WalkState(g0: seq<Links>, cs0: seq<Content>, g: seq<Links>, cs: seq<Content>, ix: Index,
                            sh: Shape, ks: seq<Shape>, ids: set<nat>, k: nat, node: Ptr)
  {
    Wf(sh) && InTable(sh, cs0) && cs0 <= cs && |cs| == |g| && cs0[sh.id].kind != TextNode &&
    k <= |ks| && |ks| == |sh.kids| && (forall j :: k <= j < |ks| ==> ks[j] == sh.kids[j]) &&
    node == (if k < |ks| then Ref(ks[k].id) else Nil) &&
    Replaced(g0, g, cs, sh, Shape(sh.id, ks, ids)) &&
    Abs(Shape(sh.id, ks, ids), cs) == Partial(ix, Abs(sh, cs0), k) &&
    WalkKeeps(ix, Abs(sh, cs0), g0, g, sh, ks, ids, k)
  }

  lemma WalkStart(g0: seq<Links>, cs0: seq<Content>, ix: Index, sh: Shape)
    requires Linked(sh, g0) && InTable(sh, cs0) && |cs0| == |g0| && cs0[sh.id].kind != TextNode
    ensures WalkState(g0, cs0, g0, cs0, ix, sh, sh.kids, sh.ids, 0, g0[sh.id].firstChild)
  {
    PartialStart(ix, Abs(sh, cs0));
  }

  lemma WalkDone(g0: seq<Links>, cs0: seq<Content>, g: seq<Links>, cs: seq<Content>, ix: Index,
                 sh: Shape, ks: seq<Shape>, ids: set<nat>, k: nat)
    requires WalkState(g0, cs0, g, cs, ix, sh, ks, ids, k, Nil)
    ensures Replaced(g0, g, cs, sh, Shape(sh.id, ks, ids))
    ensures Abs(Shape(sh.id, ks, ids), cs) == RewriteKid(ix, Abs(sh, cs0))
    ensures Kept(ix, Abs(sh, cs0), sh, Shape(sh.id, ks, ids))
    ensures Quiet(ix, Abs(sh, cs0)) ==> Shape(sh.id, ks, ids) == sh && Outside(g0, g, {})
  {
    var t := Abs(sh, cs0);
    PartialDone(ix, t);
    if Quiet(ix, t) {
      assert QuietUpTo(ix, t, k);
    }
  }

  /** What a turn of the walk may use about child `k`. */
  lemma KidFacts(g0: seq<Links>, cs0: seq<Content>, g: seq<Links>, cs: seq<Content>, ix: Index,
                 sh: Shape, ks: seq<Shape>, ids: set<nat>, k: nat, node: nat)
    requires WalkState(g0, cs0, g, cs, ix, sh, ks, ids, k, Ref(node))
    ensures k < |ks| && ks[k] == sh.kids[k] && ks[k].id == node && node < |cs0| && cs[node] == cs0[node]
    ensures Linked(Shape(sh.id, ks, ids), g) && InTable(Shape(sh.id, ks, ids), cs) && sh.id < |g|
    ensures Linked(ks[k], g) && InTable(ks[k], cs) && g[node].nextSibling == NextPtr(ks, k)
  {
    var cur := Shape(sh.id, ks, ids);
    assert cur.id in cur.ids;
    assert sh.kids[k].id in sh.kids[k].ids && sh.kids[k].ids <= sh.ids;
    assert ks[k].id in ks[k].ids && ks[k].ids <= ids;
  }

  /** One more child of the walk rewritten, as a tree value. */
  lemma PartialNext(ix: Index, t: Tree, k: nat, a: Tree, a': Tree)
    requires k < |t.kids| && a == Partial(ix, t, k) && a' == a.(kids := a.kids[k := RewriteKid(ix, t.kids[k])])
    ensures a' == Partial(ix, t, k + 1)
  {
    PartialStep(ix, t, k);
  }

  lemma TailOfUpdate<T>(s: seq<T>, k: nat, x: T)
    requires k < |s|
    ensures s[k := x][k + 1..] == s[k + 1..]
  {
  }

  lemma TailKept<T>(s: seq<T>, s': seq<T>, k: nat)
    requires k < |s| == |s'| && forall j :: 0 <= j < |s| && j != k ==> s'[j] == s[j]
    ensures s'[k + 1..] == s[k + 1..]
  {
  }

  /** The rest of a walk state after turn `k`, from its conjuncts. */
  lemma WalkIntro(g0: seq<Links>, cs0: seq<Content>, g: seq<Links>, cs: seq<Content>, ix: Index,
                  sh: Shape, ks: seq<Shape>, ids: set<nat>, k: nat, ks': seq<Shape>, ids': set<nat>, next: Ptr)
    requires Wf(sh) && InTable(sh, cs0) && cs0 <= cs && |cs| == |g| && cs0[sh.id].kind != TextNode
    requires k < |ks| && |ks| == |sh.kids| && (forall j :: k <= j < |ks| ==> ks[j] == sh.kids[j])
    requires |ks'| == |ks| && ks'[k + 1..] == ks[k + 1..]
    requires next == NextPtr(ks, k)
    requires Replaced(g0, g, cs, sh, Shape(sh.id, ks', ids'))
    requires Abs(Shape(sh.id, ks', ids'), cs) == Partial(ix, Abs(sh, cs0), k + 1)
    requires WalkKeeps(ix, Abs(sh, cs0), g0, g, sh, ks', ids', k + 1)
    ensures WalkState(g0, cs0, g, cs, ix, sh, ks', ids', k + 1, next)
  {
  }

  /** A turn on a text child: `do` and `replaceChild` under `sh`. */
  lemma WalkText(g0: seq<Links>, cs0: seq<Content>, g: seq<Links>, cs: seq<Content>, g': seq<Links>, cs': seq<Content>,
                 ix: Index, sh: Shape, ks: seq<Shape>, ids: set<nat>, k: nat, node: nat, ks': seq<Shape>, ids': set<nat>)
    requires WalkState(g0, cs0, g, cs, ix, sh, ks, ids, k, Ref(node)) && cs[node].kind == TextNode && |cs'| == |g'|
    requires TextDone(g, g', cs, cs', ix, Ref(sh.id), node, ks, ids, k, ks', ids')
    ensures WalkState(g0, cs0, g', cs', ix, sh, ks', ids', k + 1, g'[node].nextSibling)
  {
    KidFacts(g0, cs0, g, cs, ix, sh, ks, ids, k, node);
    ReplacedTrans(g0, g, g', cs, cs', sh, Shape(sh.id, ks, ids), Shape(sh.id, ks', ids'));
    var t := Abs(sh, cs0);
    assert t.kids[k] == Abs(sh.kids[k], cs0);
    var a := Abs(Shape(sh.id, ks, ids), cs);
    assert a.kids[k] == t.kids[k];
    PartialNext(ix, t, k, a, Abs(Shape(sh.id, ks', ids'), cs'));
    TailKept(ks, ks', k);
    assert t.kids[k].kind == TextNode && t.kids[k].data == cs[node].data;
    KeepsStep(ix, t, g0, g, g', sh, ks, ids, k, ks', ids');
    WalkIntro(g0, cs0, g', cs', ix, sh, ks, ids, k, ks', ids', g'[node].nextSibling);
  }

  /** The parent after its child `k` was rewritten in place by the recursive call. */
  lemma DeepKid(g: seq<Links>, g': seq<Links>, cs: seq<Content>, cs': seq<Content>, ix: Index,
                p: nat, ks: seq<Shape>, ids: set<nat>, k: nat, c: Shape)
    requires Linked(Shape(p, ks, ids), g) && InTable(Shape(p, ks, ids), cs) && k < |ks| && cs <= cs' && |cs'| == |g'|
    requires Replaced(g, g', cs', ks[k], c) && Abs(c, cs') == RewriteKid(ix, Abs(ks[k], cs))
    ensures Replaced(g, g', cs', Shape(p, ks, ids), Shape(p, ks[k := c], ids + c.ids))
    ensures var a := Abs(Shape(p, ks, ids), cs);
      Abs(Shape(p, ks[k := c], ids + c.ids), cs') == a.(kids := a.kids[k := RewriteKid(ix, a.kids[k])])
  {
    var cur := Shape(p, ks, ids);
    AbsGrow(cur, cs, cs');
    KidSwap(g, g', cs', p, ks, ids, k, c);
    AbsPut(cs', p, ks, ids, k, c, ks[k := c], ids + c.ids);
    AbsGrow(ks[k], cs, cs');
    assert Abs(cur, cs).kids[k] == Abs(ks[k], cs);
  }

  /** What the walk keeps after a turn on an element child. */
  lemma DeepKeeps(ix: Index, t: Tree, g0: seq<Links>, g: seq<Links>, g': seq<Links>, sh: Shape,
                  ks: seq<Shape>, ids: set<nat>, k: nat, c: Shape)
    requires WalkKeeps(ix, t, g0, g, sh, ks, ids, k) && k < |ks| && ks[k] == sh.kids[k] && Wf(Shape(sh.id, ks, ids))
    requires t.kids[k].kind != TextNode && Kept(ix, t.kids[k], ks[k], c)
    requires Quiet(ix, t.kids[k]) ==> c == ks[k] && Outside(g, g', {})
    ensures WalkKeeps(ix, t, g0, g', sh, ks[k := c], ids + c.ids, k + 1)
  {
    if Quiet(ix, t.kids[k]) {
      assert ks[k].ids <= ids;
      assert ids + c.ids == ids;
    }
    KeepsStep(ix, t, g0, g, g', sh, ks, ids, k, ks[k := c], ids + c.ids);
  }

  /** The tree and the links after a turn on an element child that has children. */
  lemma DeepTree(g0: seq<Links>, cs0: seq<Content>, g: seq<Links>, cs: seq<Content>, g': seq<Links>, cs': seq<Content>,
                 ix: Index, sh: Shape, ks: seq<Shape>, ids: set<nat>, k: nat, node: nat, c: Shape)
    requires WalkState(g0, cs0, g, cs, ix, sh, ks, ids, k, Ref(node)) && cs <= cs' && |cs'| == |g'|
    requires Linked(ks[k], g) && InTable(ks[k], cs) && k < |ks| && cs[node].kind != TextNode
    requires Replaced(g, g', cs', ks[k], c) && Abs(c, cs') == RewriteKid(ix, Abs(ks[k], cs))
    ensures ks[k] == sh.kids[k] && Wf(Shape(sh.id, ks, ids)) && Abs(ks[k], cs) == Abs(sh, cs0).kids[k]
    ensures g'[node].nextSibling == NextPtr(ks, k) && ks[k := c][k + 1..] == ks[k + 1..]
    ensures Replaced(g0, g', cs', sh, Shape(sh.id, ks[k := c], ids + c.ids))
    ensures Abs(Shape(sh.id, ks[k := c], ids + c.ids), cs') == Partial(ix, Abs(sh, cs0), k + 1)
  {
    KidFacts(g0, cs0, g, cs, ix, sh, ks, ids, k, node);
    var cur, cur' := Shape(sh.id, ks, ids), Shape(sh.id, ks[k := c], ids + c.ids);
    DeepKid(g, g', cs, cs', ix, sh.id, ks, ids, k, c);
    ReplacedTrans(g0, g, g', cs, cs', sh, cur, cur');
    var t := Abs(sh, cs0);
    assert t.kids[k] == Abs(sh.kids[k], cs0);
    var a := Abs(cur, cs);
    assert a.kids[k] == t.kids[k];
    PartialNext(ix, t, k, a, Abs(cur', cs'));
    TailOfUpdate(ks, k, c);
  }

  /** A turn on an element child that has children: the recursive call rewrote it in place. */
  lemma WalkDeep(g0: seq<Links>, cs0: seq<Content>, g: seq<Links>, cs: seq<Content>, g': seq<Links>, cs': seq<Content>,
                 ix: Index, sh: Shape, ks: seq<Shape>, ids: set<nat>, k: nat, node: nat, c: Shape)
    requires WalkState(g0, cs0, g, cs, ix, sh, ks, ids, k, Ref(node)) && cs <= cs' && |cs'| == |g'|
    requires Linked(ks[k], g) && InTable(ks[k], cs) && k < |ks| && cs[node].kind != TextNode
    requires Replaced(g, g', cs', ks[k], c) && Abs(c, cs') == RewriteKid(ix, Abs(ks[k], cs))
    requires Kept(ix, Abs(ks[k], cs), ks[k], c)
    requires Quiet(ix, Abs(ks[k], cs)) ==> c == ks[k] && Outside(g, g', {})
    ensures WalkState(g0, cs0, g', cs', ix, sh, ks[k := c], ids + c.ids, k + 1, g'[node].nextSibling)
  {
    DeepTree(g0, cs0, g, cs, g', cs', ix, sh, ks, ids, k, node, c);
    DeepKeeps(ix, Abs(sh, cs0), g0, g, g', sh, ks, ids, k, c);
    WalkIntro(g0, cs0, g', cs', ix, sh, ks, ids, k, ks[k := c], ids + c.ids, g'[node].nextSibling);
  }

  /** A turn on any other child: nothing to do. */
  lemma WalkLeaf(g0: seq<Links>, cs0: seq<Content>, g: seq<Links>, cs: seq<Content>, ix: Index,
                 sh: Shape, ks: seq<Shape>, ids: set<nat>, k: nat, node: nat)
    requires WalkState(g0, cs0, g, cs, ix, sh, ks, ids, k, Ref(node))
    requires cs[node].kind != TextNode && node < |g| && g[node].firstChild == Nil
    ensures WalkState(g0, cs0, g, cs, ix, sh, ks, ids, k + 1, g[node].nextSibling)
  {
    KidFacts(g0, cs0, g, cs, ix, sh, ks, ids, k, node);
    var t := Abs(sh, cs0);
    assert t.kids[k] == Abs(sh.kids[k], cs0);
    assert RewriteKid(ix, t.kids[k]) == t.kids[k] by {
      assert t.kids[k].kids == [];
    }
    var a := Abs(Shape(sh.id, ks, ids), cs);
    assert a.kids[k] == t.kids[k];
    UpdateSame(a.kids, k);
    PartialNext(ix, t, k, a, a);
    assert KidKept(ix, t.kids[k], sh.kids[k], ks[k]) by {
      assert t.kids[k].kind != TextNode && |sh.kids[k].kids| == 0;
    }
    KeepsStep(ix, t, g0, g, g, sh, ks, ids, k, ks, ids);
    WalkIntro(g0, cs0, g, cs, ix, sh, ks, ids, k, ks, ids, g[node].nextSibling);
  }

  // ---------------------------------------------------------------------
  // replaceTextNodes

  /**
   * One turn of the loop of `replaceTextNodes` over the children of `root`
   * (whose shape was `sh` when the walk began) at child `node`, the `k`-th:
   * a text child goes through `do` and `replaceChild`; another child with a
   * first child is walked recursively; any other is left. The turn ends
   * with `node.NextSibling`, read from the node itself, so a span put in its
   * place is not visited.
   */
  method WalkStep(doc: Doc, ix: Index, root: nat, node: nat, ghost g0: seq<Links>, ghost cs0: seq<Content>,
                  ghost sh: Shape, ghost ks: seq<Shape>, ghost ids: set<nat>, ghost k: nat)
    returns (next: Ptr, ghost ks': seq<Shape>, ghost ids': set<nat>)
    requires doc.Valid() && root == sh.id && WalkState(g0, cs0, doc.links, doc.contents, ix, sh, ks, ids, k, Ref(node))
    modifies doc
    ensures doc.Valid() && WalkState(g0, cs0, doc.links, doc.contents, ix, sh, ks', ids', k + 1, next)
    decreases sh, 0
  {
    ghost var g, cs := doc.links, doc.contents;
    KidFacts(g0, cs0, g, cs, ix, sh, ks, ids, k, node);
    if doc.contents[node].kind == TextNode {
      ks', ids' := SpliceText(doc, ix, Ref(root), node, ks, ids, k);
      WalkText(g0, cs0, g, cs, doc.links, doc.contents, ix, sh, ks, ids, k, node, ks', ids');
    } else if doc.links[node].firstChild != Nil {
      ghost var c := ReplaceTextNodes(doc, ix, Ref(node), sh.kids[k], Shape(root, ks, ids), k);
      WalkDeep(g0, cs0, g, cs, doc.links, doc.contents, ix, sh, ks, ids, k, node, c);
      ks', ids' := ks[k := c], ids + c.ids;
    } else {
      WalkLeaf(g0, cs0, g, cs, ix, sh, ks, ids, k, node);
      ks', ids' := ks, ids;
    }
    next := doc.links[node].nextSibling;
  }

  /**
   * `replaceTextNodes(root, do)` with `do` the scanner: nothing for a nil
   * root; for a text root, `do(root)` spliced in place of the root below its
   * parent `psh`, at child `pk`; for any other root, its subtree rewritten in
   * place, as `RewriteKid` says, and nothing outside it changed.
   */
  method ReplaceTextNodes(doc: Doc, ix: Index, root: Ptr, ghost sh: Shape, ghost psh: Shape, ghost pk: nat)
    returns (ghost sh': Shape)
    requires doc.Valid()
    requires root.Ref? ==> root.id == sh.id && Linked(sh, doc.links) && InTable(sh, doc.contents)
    requires root.Ref? && doc.contents[root.id].kind == TextNode && doc.links[root.id].parent.Ref? ==>
      psh.id == doc.links[root.id].parent.id && Linked(psh, doc.links) && InTable(psh, doc.contents) &&
      pk < |psh.kids| && psh.kids[pk].id == root.id
    modifies doc
    ensures doc.Valid() && old(doc.contents) <= doc.contents
    ensures root.Nil? ==> doc.links == old(doc.links) && doc.contents == old(doc.contents)
    ensures root.Ref? && old(doc.contents[root.id].kind) == TextNode ==>
      TextDone(old(doc.links), doc.links, old(doc.contents), doc.contents, ix, old(doc.links[root.id].parent),
               root.id, psh.kids, psh.ids, pk, sh'.kids, sh'.ids)
    ensures root.Ref? && old(doc.contents[root.id].kind) != TextNode ==>
      Replaced(old(doc.links), doc.links, doc.contents, sh, sh') &&
      Abs(sh', doc.contents) == RewriteKid(ix, old(Abs(sh, doc.contents)))
    ensures root.Ref? && old(doc.contents[root.id].kind) != TextNode ==>
      Kept(ix, old(Abs(sh, doc.contents)), sh, sh') &&
      (Quiet(ix, old(Abs(sh, doc.contents))) ==> sh' == sh && Outside(old(doc.links), doc.links, {}))
    decreases sh, 1
  {
    sh' := sh;
    if root == Nil {
      return;
    }
    assert sh.id in sh.ids;
    if doc.contents[root.id].kind == TextNode {
      var parent := doc.links[root.id].parent;
      ghost var ks', ids' := SpliceText(doc, ix, parent, root.id, psh.kids, psh.ids, pk);
      sh' := Shape(sh.id, ks', ids');
      return;
    }
    ghost var g0, cs0 := doc.links, doc.contents;
    WalkStart(g0, cs0, ix, sh);
    var node := doc.links[root.id].firstChild;
    ghost var ks, ids, k := sh.kids, sh.ids, 0;
    while node != Nil
      invariant doc.Valid() && WalkState(g0, cs0, doc.links, doc.contents, ix, sh, ks, ids, k, node)
      decreases |sh.kids| - k
    {
      node, ks, ids := WalkStep(doc, ix, root.id, node.id, g0, cs0, sh, ks, ids, k);
      k := k + 1;
    }
    WalkDone(g0, cs0, doc.links, doc.contents, ix, sh, ks, ids, k);
    sh' := Shape(sh.id, ks, ids);
  }
}
